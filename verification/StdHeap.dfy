/** The standard heap functions on an array, as far as their standard promises: which elements end
    up in the array, and the heap order. Callers see only these contracts; the bodies, which sort,
    are one way to meet them. */
module StdHeap {

  datatype BaseAndExponent<T> = BaseAndExponent(base: T, exponent: nat)

  ghost predicate AtMostParent<T>(s: seq<BaseAndExponent<T>>, i: nat)
    requires 0 < i < |s|
  {
    s[i].exponent <= s[(i - 1) / 2].exponent
  }

  ghost predicate IsHeap<T>(s: seq<BaseAndExponent<T>>) {
    forall i :: 0 < i < |s| ==> AtMostParent(s, i)
  }

  lemma {:induction false} RootIsLargest<T>(s: seq<BaseAndExponent<T>>, i: nat)
    requires IsHeap(s) && i < |s|
    ensures s[i].exponent <= s[0].exponent
  {
    if i > 0 {
      assert AtMostParent(s, i);
      RootIsLargest(s, (i - 1) / 2);
    }
  }

  ghost predicate Descending<T>(s: seq<BaseAndExponent<T>>) {
    forall i, j :: 0 <= i < j < |s| ==> s[i].exponent >= s[j].exponent
  }

  /** Where x goes among the first n entries of a descending sequence. */
  function Position<T>(x: BaseAndExponent<T>, s: seq<BaseAndExponent<T>>, n: nat): (k: nat)
    requires Descending(s) && n <= |s|
    requires forall j :: n <= j < |s| ==> s[j].exponent <= x.exponent
    ensures k <= |s|
    ensures forall j :: 0 <= j < k ==> s[j].exponent >= x.exponent
    ensures forall j :: k <= j < |s| ==> s[j].exponent <= x.exponent
  {
    if n == 0 || s[n - 1].exponent >= x.exponent then n else Position(x, s, n - 1)
  }

  lemma InsertedInOrder<T>(x: BaseAndExponent<T>, s: seq<BaseAndExponent<T>>, k: nat, r: seq<BaseAndExponent<T>>)
    requires Descending(s) && k <= |s| && r == s[..k] + [x] + s[k..]
    requires forall j :: 0 <= j < k ==> s[j].exponent >= x.exponent
    requires forall j :: k <= j < |s| ==> s[j].exponent <= x.exponent
    ensures Descending(r)
  {
    forall i, j | 0 <= i < j < |r|
      ensures r[i].exponent >= r[j].exponent
    {
      assert r[i] == if i < k then s[i] else if i == k then x else s[i - 1];
      assert r[j] == if j < k then s[j] else if j == k then x else s[j - 1];
    }
  }

  lemma InsertedMultiset<E>(x: E, s: seq<E>, k: nat)
    requires k <= |s|
    ensures multiset(s[..k] + [x] + s[k..]) == multiset(s) + multiset{x}
  {
    assert s == s[..k] + s[k..];
  }

  function Insert<T>(x: BaseAndExponent<T>, s: seq<BaseAndExponent<T>>): (r: seq<BaseAndExponent<T>>)
    requires Descending(s)
    ensures Descending(r) && multiset(r) == multiset(s) + multiset{x} && |r| == |s| + 1
  {
    hide Descending;
    var k := Position(x, s, |s|);
    var r := s[..k] + [x] + s[k..];
    InsertedInOrder(x, s, k, r);
    InsertedMultiset(x, s, k);
    r
  }

  function Sorted<T>(s: seq<BaseAndExponent<T>>): (r: seq<BaseAndExponent<T>>)
    ensures Descending(r) && multiset(r) == multiset(s) && |r| == |s|
  {
    if s == [] then []
    else
      assert s == [s[0]] + s[1..];
      Insert(s[0], Sorted(s[1..]))
  }

  lemma DescendingIsHeap<T>(s: seq<BaseAndExponent<T>>)
    requires Descending(s)
    ensures IsHeap(s)
  {
  }

  method Store<T>(a: array<T>, s: seq<T>)
    requires |s| == a.Length
    modifies a
    ensures a[..] == s
  {
    for i := 0 to a.Length
      invariant a[..i] == s[..i]
    {
      a[i] := s[i];
    }
  }

  method MakeHeap<T>(a: array<BaseAndExponent<T>>)
    modifies a
    ensures IsHeap(a[..]) && multiset(a[..]) == multiset(old(a[..]))
  {
    DescendingIsHeap(Sorted(a[..]));
    Store(a, Sorted(a[..]));
  }

  lemma RootMovedLast<E>(s: seq<E>, r: seq<E>)
    requires |s| > 0 && multiset(r) == multiset(s[1..])
    ensures multiset(r + [s[0]]) == multiset(s)
  {
    assert s == [s[0]] + s[1..];
  }

  method PopHeap<T>(a: array<BaseAndExponent<T>>)
    requires a.Length > 0 && IsHeap(a[..])
    modifies a
    ensures multiset(a[..]) == multiset(old(a[..]))
    ensures IsHeap(a[..a.Length - 1])
    ensures a[a.Length - 1] == old(a[0])
  {
    hide IsHeap, Descending;
    var s, last := a[..], a.Length - 1;
    var r := Sorted(s[1..]);
    RootMovedLast(s, r);
    DescendingIsHeap(r);
    Store(a, r + [s[0]]);
    assert a[..last] == r;
  }

  method PushHeap<T>(a: array<BaseAndExponent<T>>)
    requires a.Length > 0 && IsHeap(a[..a.Length - 1])
    modifies a
    ensures IsHeap(a[..]) && multiset(a[..]) == multiset(old(a[..]))
  {
    DescendingIsHeap(Sorted(a[..]));
    Store(a, Sorted(a[..]));
  }
}
