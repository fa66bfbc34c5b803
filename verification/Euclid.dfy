/** Euclid's algorithm in three rotating slots, over the integers: `AbstractEuclideanDomain::Gcd`
    and `QuotientRing::MultiplicativeInverse`. Division leaves a non-negative remainder, as
    `Integer::Divide` does. */
module Euclid {

  ghost predicate IsProduct(n: int, k: int, d: int) {
    n == k * d
  }

  ghost predicate Divides(d: int, n: int) {
    exists k :: IsProduct(n, k, d)
  }

  ghost predicate CommonDivisor(d: int, a: int, b: int) {
    Divides(d, a) && Divides(d, b)
  }

  /** g is a greatest common divisor of a and b, up to its sign. */
  ghost predicate IsGcd(g: int, a: int, b: int) {
    forall d :: CommonDivisor(d, a, b) <==> Divides(d, g)
  }

  ghost predicate Coprime(a: int, b: int) {
    forall d :: CommonDivisor(d, a, b) ==> d == 1 || d == -1
  }

  ghost predicate Congruent(m: int, x: int, y: int) {
    Divides(m, x - y)
  }

  ghost predicate SameCommonDivisors(a: int, b: int, c: int, d: int) {
    forall k :: CommonDivisor(k, a, b) <==> CommonDivisor(k, c, d)
  }

  // ----- divisibility

  lemma DividesCombination(d: int, x: int, y: int, q: int)
    requires Divides(d, x) && Divides(d, y)
    ensures Divides(d, x + q * y)
  {
    var i :| IsProduct(x, i, d);
    var j :| IsProduct(y, j, d);
    Distribute(i, q, j, d);
    assert IsProduct(x + q * y, i + q * j, d);
  }

  lemma Distribute(i: int, q: int, j: int, d: int)
    ensures i * d + q * (j * d) == (i + q * j) * d
  {
  }

  lemma DividesItself(d: int)
    ensures Divides(d, d) && Divides(d, 0) && Divides(d, -d)
  {
    assert IsProduct(d, 1, d) && IsProduct(0, 0, d) && IsProduct(-d, -1, d);
  }

  lemma DivisorsOfOne(d: int)
    requires Divides(d, 1) || Divides(d, -1)
    ensures d == 1 || d == -1
  {
    var n := if Divides(d, 1) then 1 else -1;
    var k :| IsProduct(n, k, d);
    if d > 1 || d < -1 {
      ProductBound(k, d);
    }
  }

  lemma ProductBound(k: int, d: int)
    requires k != 0 && (d > 1 || d < -1)
    ensures k * d > 1 || k * d < -1
  {
  }

  lemma CommonDivisorStep(d: int, x: int, y: int, q: int, r: int)
    requires CommonDivisor(d, x, y) && r == x + q * y
    ensures CommonDivisor(d, y, r)
  {
    DividesCombination(d, x, y, q);
  }

  /** One division step keeps the common divisors. */
  lemma DivisionStep(x: int, y: int, q: int, r: int)
    requires x == r + q * y
    ensures SameCommonDivisors(x, y, y, r)
  {
    assert r == x + (-q) * y;
    forall d
      ensures CommonDivisor(d, x, y) <==> CommonDivisor(d, y, r)
    {
      if CommonDivisor(d, x, y) {
        CommonDivisorStep(d, x, y, -q, r);
      }
      if CommonDivisor(d, y, r) {
        CommonDivisorStep(d, r, y, q, x);
      }
    }
  }

  lemma DividesTransitive(d: int, x: int, y: int)
    requires Divides(d, x) && Divides(x, y)
    ensures Divides(d, y)
  {
    var i :| IsProduct(x, i, d);
    var j :| IsProduct(y, j, x);
    assert j * (i * d) == (j * i) * d;
    assert IsProduct(y, j * i, d);
  }

  lemma EndsWithGcd(g: int, h: int, a: int, b: int)
    requires SameCommonDivisors(g, h, a, b) && Divides(g, h)
    ensures IsGcd(g, a, b)
  {
    forall d
      ensures CommonDivisor(d, a, b) <==> Divides(d, g)
    {
      assert CommonDivisor(d, g, h) <==> CommonDivisor(d, a, b);
      if Divides(d, g) {
        DividesTransitive(d, g, h);
      }
    }
  }

  /** A gcd is a unit exactly for coprime numbers. */
  lemma UnitGcd(g: int, a: int, b: int)
    requires IsGcd(g, a, b)
    ensures g == 1 || g == -1 <==> Coprime(a, b)
  {
    DividesItself(g);
    if g == 1 || g == -1 {
      forall d | CommonDivisor(d, a, b)
        ensures d == 1 || d == -1
      {
        DivisorsOfOne(d);
      }
    } else {
      assert CommonDivisor(g, a, b);
    }
  }

  // ----- the algorithms

  /** The next slots after a rotation. */
  ghost predicate Slots(i0: nat, i1: nat, i2: nat) {
    i0 < 3 && i1 < 3 && i2 < 3 && i0 != i1 && i1 != i2 && i2 != i0
  }

  /** A greatest common divisor of any two integers. */
  method Gcd(a: int, b: int) returns (result: int)
    ensures IsGcd(result, a, b)
  {
    var g := new int[3][b, a, 0];
    var i0, i1, i2 := 0, 1, 2;
    assert SameCommonDivisors(g[i0], g[i1], a, b);
    while g[i1] != 0
      invariant Slots(i0, i1, i2)
      invariant SameCommonDivisors(g[i0], g[i1], a, b)
      decreases if g[i1] < 0 then -g[i1] else g[i1]
    {
      ghost var x, y := g[i0], g[i1];
      g[i2] := g[i0] % g[i1];
      assert x == x % y + x / y * y;
      DivisionStep(x, y, x / y, x % y);
      i0, i1, i2 := i1, i2, i0;
    }
    DividesItself(g[i0]);
    EndsWithGcd(g[i0], g[i1], a, b);
    result := g[i0];
  }

  /** If g0 = v0 * a and g1 = v1 * a modulo m, the next remainder is its coefficient times a. */
  lemma CoefficientStep(m: int, a: int, g0: int, g1: int, v0: int, v1: int, q: int, r: int)
    requires Congruent(m, g0, v0 * a) && Congruent(m, g1, v1 * a) && g0 == r + q * g1
    ensures Congruent(m, r, (v0 - v1 * q) * a)
  {
    DividesCombination(m, g0 - v0 * a, g1 - v1 * a, -q);
    CoefficientAlgebra(a, g0, g1, v0, v1, q, r);
  }

  lemma CoefficientAlgebra(a: int, g0: int, g1: int, v0: int, v1: int, q: int, r: int)
    requires g0 == r + q * g1
    ensures g0 - v0 * a + -q * (g1 - v1 * a) == r - (v0 - v1 * q) * a
  {
    assert -q * (g1 - v1 * a) == -(q * g1) + v1 * q * a;
    assert (v0 - v1 * q) * a == v0 * a - v1 * q * a;
  }

  /** The loop's numbers: for an element within the modulus the second slot stays within it; for an
      element beyond it the loop leaves after at most one division. */
  ghost predicate Bounded(m: int, a: int, g0: int, g1: int, v0: int) {
    if -m <= a <= m then -m < g1 < m || (g0 == m && (g1 == m || g1 == -m))
    else (g0 == m && g1 == a && v0 == 0) || (g0 == a && g1 == m)
  }

  ghost predicate LoopInvariant(m: int, a: int, g0: int, g1: int, v0: int, v1: int) {
    && SameCommonDivisors(g0, g1, a, m)
    && Congruent(m, g0, v0 * a) && Congruent(m, g1, v1 * a)
    && Bounded(m, a, g0, g1, v0)
  }

  lemma InvariantStarts(m: int, a: int)
    requires m >= 1
    ensures LoopInvariant(m, a, m, a, 0, 1)
  {
    DividesItself(m);
    assert m - 0 * a == m && a - 1 * a == 0;
  }

  lemma InvariantStep(m: int, a: int, g0: int, g1: int, v0: int, v1: int, q: int, r: int)
    requires m >= 1 && LoopInvariant(m, a, g0, g1, v0, v1) && g1 != 0
    requires g0 == r + q * g1 && 0 <= r < (if g1 < 0 then -g1 else g1)
    requires !Divides(m, g1)
    ensures LoopInvariant(m, a, g1, r, v1, v0 - v1 * q)
  {
    DivisionStep(g0, g1, q, r);
    CoefficientStep(m, a, g0, g1, v0, v1, q, r);
    DividesItself(m);
    if !(-m <= a <= m) {
      assert g0 == m && g1 == a;
      QuotientZero(m, a, q, r);
    }
  }

  lemma QuotientZero(m: int, a: int, q: int, r: int)
    requires m >= 1 && !(-m <= a <= m) && m == r + q * a && 0 <= r < (if a < 0 then -a else a)
    ensures q == 0 && r == m
  {
  }

  lemma ModIsDivides(m: int, n: int)
    requires m >= 1
    ensures n % m == 0 <==> Divides(m, n)
  {
    if n % m == 0 {
      assert IsProduct(n, n / m, m);
    }
    if Divides(m, n) {
      var k :| IsProduct(n, k, m);
      assert (k - n / m) * m == n % m;
      if k != n / m {
        MultipleTooLarge(k - n / m, m);
      }
    }
  }

  lemma MultipleTooLarge(k: int, m: int)
    requires m >= 1 && k != 0
    ensures k * m >= m || k * m <= -m
  {
  }

  /** The inverse of a modulo m: a times the result is 1 modulo m exactly when a is coprime to m
      and lies within the modulus (elements are not reduced first), and zero is returned otherwise. */
  method MultiplicativeInverse(m: int, a: int) returns (r: int)
    requires m >= 1
    ensures Congruent(m, a * r, 1) <==> Coprime(a, m) && (-m <= a <= m || m == 1)
    ensures !(Coprime(a, m) && -m <= a <= m) ==> r == 0
  {
    hide LoopInvariant, Divides, Coprime;
    var g := new int[3][m, a, 0];
    var v := new int[3][0, 1, 0];
    var i0, i1, i2 := 0, 1, 2;
    InvariantStarts(m, a);
    ModIsDivides(m, a);
    while (g[i1] - 0) % m != 0
      invariant Slots(i0, i1, i2)
      invariant LoopInvariant(m, a, g[i0], g[i1], v[i0], v[i1])
      decreases if g[i1] < 0 then -g[i1] else g[i1]
    {
      ghost var x, d := g[i0], g[i1];
      ModIsDivides(m, d);
      NonzeroDivisor(m, d);
      g[i2] := g[i0] % g[i1];
      var y := g[i0] / g[i1];
      v[i2] := v[i0] - v[i1] * y;
      assert x == x % d + y * d;
      InvariantStep(m, a, x, d, v[i0], v[i1], y, g[i2]);
      i0, i1, i2 := i1, i2, i0;
    }
    ModIsDivides(m, g[i1]);
    InverseFound(m, a, g[i0], g[i1], v[i0], v[i1]);
    r := if g[i0] == 1 || g[i0] == -1 then v[i0] / g[i0] else 0;
  }

  lemma NonzeroDivisor(m: int, d: int)
    requires !Divides(m, d)
    ensures d != 0
  {
    DividesItself(m);
  }

  /** When the loop stops, the first slot is the gcd, or the element itself if beyond the modulus. */
  lemma LoopStops(m: int, a: int, g0: int, g1: int, v0: int, v1: int)
    requires m >= 1 && LoopInvariant(m, a, g0, g1, v0, v1) && Divides(m, g1)
    ensures -m <= a <= m ==> IsGcd(g0, a, m)
    ensures !(-m <= a <= m) ==> (g0 == m && v0 == 0) || g0 == a
  {
    if -m <= a <= m {
      assert Divides(g0, g1) by {
        if g1 == 0 {
          DividesItself(g0);
        } else {
          var k :| IsProduct(g1, k, m);
          MultipleTooLarge(k, m);
          DividesItself(m);
        }
      }
      EndsWithGcd(g0, g1, a, m);
    }
  }

  lemma CoprimeToOne(a: int)
    ensures Coprime(a, 1)
  {
    forall d | CommonDivisor(d, a, 1)
      ensures d == 1 || d == -1
    {
      DivisorsOfOne(d);
    }
  }

  lemma ZeroIsNoInverse(m: int, a: int)
    requires m >= 1
    ensures Congruent(m, a * 0, 1) <==> m == 1
  {
    if Congruent(m, a * 0, 1) {
      DivisorsOfOne(m);
    }
    assert IsProduct(-1, -1, 1);
  }

  /** Dividing the coefficient by a unit gives the inverse. */
  lemma UnitGivesInverse(m: int, a: int, g0: int, v0: int)
    requires Congruent(m, g0, v0 * a) && (g0 == 1 || g0 == -1)
    ensures Congruent(m, a * (v0 / g0), 1)
  {
    var k :| IsProduct(g0 - v0 * a, k, m);
    if g0 == 1 {
      assert a * v0 - 1 == -k * m;
      assert IsProduct(a * v0 - 1, -k, m);
    } else {
      assert v0 / g0 == -v0;
      assert a * -v0 - 1 == k * m;
      assert IsProduct(a * -v0 - 1, k, m);
    }
  }

  /** What the result is worth when the loop stops. */
  lemma InverseFound(m: int, a: int, g0: int, g1: int, v0: int, v1: int)
    requires m >= 1 && LoopInvariant(m, a, g0, g1, v0, v1) && Divides(m, g1)
    ensures var r := if g0 == 1 || g0 == -1 then v0 / g0 else 0;
      && (Congruent(m, a * r, 1) <==> Coprime(a, m) && (-m <= a <= m || m == 1))
      && (!(Coprime(a, m) && -m <= a <= m) ==> r == 0)
  {
    hide Coprime, Congruent, SameCommonDivisors, IsGcd;
    LoopStops(m, a, g0, g1, v0, v1);
    ZeroIsNoInverse(m, a);
    CoprimeToOne(a);
    if -m <= a <= m {
      UnitGcd(g0, a, m);
      if g0 == 1 || g0 == -1 {
        UnitGivesInverse(m, a, g0, v0);
      }
    }
  }

  /** 3 is an inverse of 7 modulo 5, but 7 lies beyond the modulus. */
  method InverseMissed() returns (r: int)
    ensures Congruent(5, 7 * 3, 1) && r == 0 && !Congruent(5, 7 * r, 1)
  {
    assert IsProduct(7 * 3 - 1, 4, 5);
    hide Coprime, Congruent;
    r := MultiplicativeInverse(5, 7);
  }
}
