/** Groups as Crypto++'s `AbstractGroup` describes them: a carrier with an identity, an
    addition and an inverse. Two elements that the program's `Equal` identifies are one
    element here. The laws, and integer multiples of an element, are stated below. */
module Groups {

  // `blank` is what a default-constructed element holds: nothing is promised about it.
  datatype Group<!T(!new)> = Group(identity: T, Add: (T, T) -> T, Inverse: T -> T, inversionIsFast: bool, blank: T)
  {
    function Double(a: T): T { Add(a, a) }
  }

  // Each law is wrapped in a predicate, so that a proof uses an instance by naming it.
  ghost predicate Associates<T(!new)>(g: Group<T>, a: T, b: T, c: T) {
    g.Add(g.Add(a, b), c) == g.Add(a, g.Add(b, c))
  }

  ghost predicate Neutral<T(!new)>(g: Group<T>, a: T) {
    g.Add(a, g.identity) == a && g.Add(g.identity, a) == a
  }

  ghost predicate Cancels<T(!new)>(g: Group<T>, a: T) {
    g.Add(a, g.Inverse(a)) == g.identity && g.Add(g.Inverse(a), a) == g.identity
  }

  ghost predicate Commutes<T(!new)>(g: Group<T>, a: T, b: T) {
    g.Add(a, b) == g.Add(b, a)
  }

  ghost predicate IsGroup<T(!new)>(g: Group<T>) {
    && (forall a, b, c :: Associates(g, a, b, c))
    && (forall a :: Neutral(g, a))
    && (forall a :: Cancels(g, a))
  }

  ghost predicate IsAbelian<T(!new)>(g: Group<T>) {
    IsGroup(g) && forall a, b :: Commutes(g, a, b)
  }

  /** `n * x` for any integer `n`: the specification of every multiplication algorithm here. */
  ghost function Multiple<T(!new)>(g: Group<T>, n: int, x: T): T
    decreases if n < 0 then -n else n
  {
    if n == 0 then g.identity
    else if n > 0 then g.Add(Multiple(g, n - 1, x), x)
    else g.Add(Multiple(g, n + 1, x), g.Inverse(x))
  }

  lemma MultipleOne<T(!new)>(g: Group<T>, x: T)
    requires IsGroup(g)
    ensures Multiple(g, 1, x) == x
  {
    assert Neutral(g, x);
    assert Multiple(g, 0, x) == g.identity;
  }

  lemma MultipleSucc<T(!new)>(g: Group<T>, n: int, x: T)
    requires IsGroup(g)
    ensures Multiple(g, n + 1, x) == g.Add(Multiple(g, n, x), x)
  {
    if n < 0 {
      var m := Multiple(g, n + 1, x);
      assert Associates(g, m, g.Inverse(x), x) && Cancels(g, x) && Neutral(g, m);
    }
  }

  lemma MultiplePred<T(!new)>(g: Group<T>, n: int, x: T)
    requires IsGroup(g)
    ensures Multiple(g, n - 1, x) == g.Add(Multiple(g, n, x), g.Inverse(x))
  {
    if n > 0 {
      var m := Multiple(g, n - 1, x);
      assert Associates(g, m, x, g.Inverse(x)) && Cancels(g, x) && Neutral(g, m);
    }
  }

  /** Multiples of one element add like integers, in any group. */
  lemma {:induction false} MultipleAdd<T(!new)>(g: Group<T>, m: int, n: int, x: T)
    requires IsGroup(g)
    ensures Multiple(g, m + n, x) == g.Add(Multiple(g, m, x), Multiple(g, n, x))
    decreases if n < 0 then -n else n
  {
    var a := Multiple(g, m, x);
    if n == 0 {
      assert Neutral(g, a);
    } else if n > 0 {
      MultipleAdd(g, m, n - 1, x);
      MultipleSucc(g, m + n - 1, x);
      assert Associates(g, a, Multiple(g, n - 1, x), x);
    } else {
      MultipleAdd(g, m, n + 1, x);
      MultiplePred(g, m + n + 1, x);
      assert Associates(g, a, Multiple(g, n + 1, x), g.Inverse(x));
    }
  }

  lemma InverseUnique<T(!new)>(g: Group<T>, a: T, b: T)
    requires IsGroup(g) && g.Add(a, b) == g.identity
    ensures b == g.Inverse(a)
  {
    assert Associates(g, g.Inverse(a), a, b) && Cancels(g, a) && Neutral(g, b) && Neutral(g, g.Inverse(a));
  }

  lemma MultipleNegate<T(!new)>(g: Group<T>, n: int, x: T)
    requires IsGroup(g)
    ensures Multiple(g, -n, x) == g.Inverse(Multiple(g, n, x))
  {
    MultipleAdd(g, n, -n, x);
    InverseUnique(g, Multiple(g, n, x), Multiple(g, -n, x));
  }

  /** A multiple of a multiple is the multiple by the product. */
  lemma {:induction false} MultipleMultiple<T(!new)>(g: Group<T>, m: nat, n: int, x: T)
    requires IsGroup(g)
    ensures Multiple(g, m, Multiple(g, n, x)) == Multiple(g, m * n, x)
  {
    if m > 0 {
      MultipleMultiple(g, m - 1, n, x);
      MultipleAdd(g, (m - 1) * n, n, x);
      assert (m - 1) * n + n == m * n;
    } else {
      assert m * n == 0;
    }
  }

  /** (a + b) + (c + d) == (a + c) + (b + d) in an abelian group. */
  lemma Interchange<T(!new)>(g: Group<T>, a: T, b: T, c: T, d: T)
    requires IsAbelian(g)
    ensures g.Add(g.Add(a, b), g.Add(c, d)) == g.Add(g.Add(a, c), g.Add(b, d))
  {
    assert Associates(g, a, b, g.Add(c, d)) && Associates(g, b, c, d) && Commutes(g, b, c);
    assert Associates(g, c, b, d) && Associates(g, a, c, g.Add(b, d));
  }

  /** In an abelian group, a multiple of a sum is the sum of the multiples. */
  lemma {:induction false} MultipleSum<T(!new)>(g: Group<T>, n: nat, x: T, y: T)
    requires IsAbelian(g)
    ensures Multiple(g, n, g.Add(x, y)) == g.Add(Multiple(g, n, x), Multiple(g, n, y))
  {
    if n == 0 {
      assert Neutral(g, g.identity);
    } else {
      MultipleSum(g, n - 1, x, y);
      Interchange(g, Multiple(g, n - 1, x), Multiple(g, n - 1, y), x, y);
    }
  }
}
