/** Any number of bases and exponents, reduced against each other by a heap
    (`GeneralCascadeMultiplication`). */
module GeneralCascade {
  import opened Groups
  import opened StdHeap
  import SimultaneousMultiplication
  import CascadeMultiplication

  ghost function Term<T(!new)>(g: Group<T>, e: BaseAndExponent<T>): T {
    Multiple(g, e.exponent, e.base)
  }

  /** The sum of exponent * base over all entries: the specification. */
  ghost function Total<T(!new)>(g: Group<T>, s: seq<BaseAndExponent<T>>): T {
    if s == [] then g.identity else g.Add(Term(g, s[0]), Total(g, s[1..]))
  }

  ghost function ExponentSum<T>(s: seq<BaseAndExponent<T>>): nat {
    if s == [] then 0 else s[0].exponent + ExponentSum(s[1..])
  }

  /** The sums with one entry taken out first. */
  lemma {:induction false} TakeOut<T(!new)>(g: Group<T>, s: seq<BaseAndExponent<T>>, i: nat)
    requires IsAbelian(g) && i < |s|
    ensures Total(g, s) == g.Add(Term(g, s[i]), Total(g, s[..i] + s[i + 1..]))
    ensures ExponentSum(s) == s[i].exponent + ExponentSum(s[..i] + s[i + 1..])
  {
    var rest := s[..i] + s[i + 1..];
    if i == 0 {
      assert rest == s[1..];
    } else {
      TakeOut(g, s[1..], i - 1);
      var inner := s[1..][..i - 1] + s[1..][i..];
      assert rest == [s[0]] + inner && rest[1..] == inner;
      var a, b, c := Term(g, s[0]), Term(g, s[i]), Total(g, inner);
      assert Associates(g, a, b, c) && Commutes(g, a, b) && Associates(g, b, a, c);
    }
  }

  lemma MultisetWithout<E>(s: seq<E>, i: nat)
    requires i < |s|
    ensures multiset(s[..i] + s[i + 1..]) == multiset(s) - multiset{s[i]}
  {
    assert s == s[..i] + ([s[i]] + s[i + 1..]);
  }

  lemma FirstElsewhere<E>(s: seq<E>, t: seq<E>) returns (i: nat)
    requires multiset(s) == multiset(t) && |s| > 0
    ensures i < |t| && t[i] == s[0] && multiset(s[1..]) == multiset(t[..i] + t[i + 1..])
  {
    assert s[0] in multiset(t);
    i :| 0 <= i < |t| && t[i] == s[0];
    MultisetWithout(s, 0);
    MultisetWithout(t, i);
    assert s[..0] + s[1..] == s[1..];
  }

  /** The sums do not depend on the order of the entries. */
  lemma {:induction false} OrderIrrelevant<T(!new)>(g: Group<T>, s: seq<BaseAndExponent<T>>, t: seq<BaseAndExponent<T>>)
    requires IsAbelian(g) && multiset(s) == multiset(t)
    ensures Total(g, s) == Total(g, t) && ExponentSum(s) == ExponentSum(t)
    decreases |s|
  {
    hide IsAbelian, Term;
    if s == [] {
      assert |multiset(t)| == 0;
    } else {
      var i := FirstElsewhere(s, t);
      OrderIrrelevant(g, s[1..], t[..i] + t[i + 1..]);
      TakeOut(g, t, i);
    }
  }

  /** With every exponent but the last zero, the sum is the last term. */
  lemma {:induction false} OnlyLastLeft<T(!new)>(g: Group<T>, s: seq<BaseAndExponent<T>>)
    requires IsAbelian(g) && |s| > 0
    requires forall i :: 0 <= i < |s| - 1 ==> s[i].exponent == 0
    ensures Total(g, s) == Term(g, s[|s| - 1])
  {
    if |s| == 1 {
      assert Neutral(g, Term(g, s[0]));
    } else {
      OnlyLastLeft(g, s[1..]);
      assert Neutral(g, Term(g, s[|s| - 1])) && Term(g, s[0]) == g.identity;
    }
  }

  /** Moving q times the base from one entry to another keeps the sum of the two terms. */
  lemma TradeTerms<T(!new)>(g: Group<T>, first: T, e: nat, last: T, q: nat, r: nat)
    requires IsAbelian(g)
    ensures g.Add(Multiple(g, e, first), Multiple(g, q * e + r, last))
            == g.Add(Multiple(g, e, g.Add(first, Multiple(g, q, last))), Multiple(g, r, last))
  {
    var a, b, c := Multiple(g, e, first), Multiple(g, e * q, last), Multiple(g, r, last);
    MultipleSum(g, e, first, Multiple(g, q, last));
    MultipleMultiple(g, e, q, last);
    MultipleAdd(g, e * q, r, last);
    assert Associates(g, a, b, c);
    assert q * e == e * q;
  }

  /** One division step keeps the sum and lowers the exponent sum. */
  lemma ReduceStep<T(!new)>(g: Group<T>, s: seq<BaseAndExponent<T>>, s': seq<BaseAndExponent<T>>, q: nat)
    requires IsAbelian(g) && |s| == |s'| >= 2 && s'[1..|s| - 1] == s[1..|s| - 1]
    requires var first, last := s[0], s[|s| - 1];
      && first.exponent > 0 && last.exponent >= first.exponent
      && last.exponent == q * first.exponent + s'[|s| - 1].exponent && s'[|s| - 1].exponent < first.exponent
      && s'[0] == BaseAndExponent(g.Add(first.base, Multiple(g, q, last.base)), first.exponent)
      && s'[|s| - 1].base == last.base
    ensures Total(g, s') == Total(g, s) && ExponentSum(s') < ExponentSum(s)
  {
    hide IsAbelian;
    var n := |s| - 1;
    TakeOut(g, s[1..], n - 1);
    TakeOut(g, s'[1..], n - 1);
    var middle := s[1..n];
    assert s[1..][..n - 1] + s[1..][n..] == middle == s'[1..][..n - 1] + s'[1..][n..];
    TradeTerms(g, s[0].base, s[0].exponent, s[n].base, q, s'[n].exponent);
    Regroup(g, Term(g, s[0]), Term(g, s[n]), Total(g, middle));
    Regroup(g, Term(g, s'[0]), Term(g, s'[n]), Total(g, middle));
  }

  lemma Regroup<T(!new)>(g: Group<T>, a: T, b: T, c: T)
    requires IsAbelian(g)
    ensures g.Add(a, g.Add(b, c)) == g.Add(g.Add(a, b), c)
  {
    assert Associates(g, a, b, c);
  }

  /** The loop's order: the largest exponent at `last`, and a heap before it. */
  ghost predicate LargestLast<T>(s: seq<BaseAndExponent<T>>) {
    && |s| >= 3
    && IsHeap(s[..|s| - 1])
    && forall k :: 0 <= k < |s| ==> s[k].exponent <= s[|s| - 1].exponent
  }

  /** The next largest exponent is then at `begin`. */
  lemma NextLargestFirst<T>(s: seq<BaseAndExponent<T>>, k: nat)
    requires LargestLast(s) && k < |s| - 1
    ensures s[k].exponent <= s[0].exponent <= s[|s| - 1].exponent
  {
    RootIsLargest(s[..|s| - 1], k);
  }

  /** `pop_heap` with what it means here. */
  method PopLargest<T(!new)>(ghost g: Group<T>, a: array<BaseAndExponent<T>>)
    requires IsAbelian(g) && a.Length >= 3 && IsHeap(a[..])
    modifies a
    ensures LargestLast(a[..])
    ensures Total(g, a[..]) == Total(g, old(a[..])) && ExponentSum(a[..]) == ExponentSum(old(a[..]))
  {
    hide IsGroup, IsHeap, Total, ExponentSum;
    ghost var s := a[..];
    PopHeap(a);
    OrderIrrelevant(g, a[..], s);
    forall k | 0 <= k < a.Length
      ensures a[..][k].exponent <= s[0].exponent
    {
      assert a[..][k] in multiset(s);
      var i :| 0 <= i < |s| && s[i] == a[..][k];
      RootIsLargest(s, i);
    }
  }

  /** The loop body up to `push_heap`: the largest exponent is divided by the next largest. */
  method DivideLargest<T(!new)>(g: Group<T>, a: array<BaseAndExponent<T>>)
    requires IsAbelian(g) && LargestLast(a[..]) && a[0].exponent > 0
    modifies a
    ensures IsHeap(a[..a.Length - 1])
    ensures Total(g, a[..]) == Total(g, old(a[..])) && ExponentSum(a[..]) < ExponentSum(old(a[..]))
  {
    hide IsGroup, Total, ExponentSum;
    var last := a.Length - 1;
    ghost var s := a[..];
    NextLargestFirst(s, 0);
    var t, e := a[last].exponent, a[0].exponent;
    var q, r := t / e, t % e;
    assert t == q * e + r;
    a[last] := BaseAndExponent(a[last].base, r);
    if q == 1 {
      MultipleOne(g, a[last].base);
      a[0] := BaseAndExponent(g.Add(a[0].base, a[last].base), e);
    } else {
      var multiple := SimultaneousMultiplication.ScalarMultiply(g, a[last].base, q);
      a[0] := BaseAndExponent(g.Add(a[0].base, multiple), e);
    }
    ReduceStep(g, s, a[..], q);
    SameExponentsHeap(s[..last], a[..last]);
  }

  lemma SameExponentsHeap<T>(s: seq<BaseAndExponent<T>>, s': seq<BaseAndExponent<T>>)
    requires IsHeap(s) && |s| == |s'| && forall i :: 0 <= i < |s| ==> s'[i].exponent == s[i].exponent
    ensures IsHeap(s')
  {
    forall i | 0 < i < |s'|
      ensures AtMostParent(s', i)
    {
      assert AtMostParent(s, i);
    }
  }

  lemma FewTerms<T(!new)>(g: Group<T>, s: seq<BaseAndExponent<T>>)
    requires IsAbelian(g)
    ensures |s| == 1 ==> Total(g, s) == Term(g, s[0])
    ensures |s| == 2 ==> Total(g, s) == g.Add(Term(g, s[0]), Term(g, s[1]))
  {
    if |s| == 1 {
      assert Neutral(g, Term(g, s[0]));
    } else if |s| == 2 {
      FewTerms(g, s[1..]);
    }
  }

  /** The sum of exponent * base over all entries, in any abelian group, for one entry or more. */
  method GeneralCascadeMultiplication<T(!new)>(g: Group<T>, a: array<BaseAndExponent<T>>) returns (result: T)
    requires IsAbelian(g) && a.Length >= 1
    modifies a
    ensures result == Total(g, old(a[..]))
  {
    hide IsGroup, IsHeap, Total, ExponentSum, LargestLast;
    ghost var s := a[..];
    FewTerms(g, s);
    if a.Length == 1 {
      result := SimultaneousMultiplication.ScalarMultiply(g, a[0].base, a[0].exponent);
    } else if a.Length == 2 {
      result := CascadeMultiplication.CascadeScalarMultiply(g, a[0].base, a[0].exponent, a[1].base, a[1].exponent);
    } else {
      var last := a.Length - 1;
      MakeHeap(a);
      OrderIrrelevant(g, a[..], s);
      PopLargest(g, a);
      while a[0].exponent != 0
        invariant Total(g, a[..]) == Total(g, s) && LargestLast(a[..])
        decreases ExponentSum(a[..])
      {
        DivideLargest(g, a);
        ghost var divided := a[..];
        PushHeap(a);
        OrderIrrelevant(g, a[..], divided);
        PopLargest(g, a);
      }
      AllButLastZero(a[..]);
      OnlyLastLeft(g, a[..]);
      result := SimultaneousMultiplication.ScalarMultiply(g, a[last].base, a[last].exponent);
    }
  }

  lemma AllButLastZero<T>(s: seq<BaseAndExponent<T>>)
    requires LargestLast(s) && s[0].exponent == 0
    ensures forall i :: 0 <= i < |s| - 1 ==> s[i].exponent == 0
  {
    forall i | 0 <= i < |s| - 1
      ensures s[i].exponent == 0
    {
      NextLargestFirst(s, i);
    }
  }
}
