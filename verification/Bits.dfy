/** Powers of two and the bits of a natural number, as `Integer::BitCount`, `Integer::GetBit` and
    the shift operators of `Integer` use them (bit 0 is the least significant). */
module Bits {

  function Pow2(n: nat): (p: int)
    ensures p >= 1
  {
    if n == 0 then 1 else 2 * Pow2(n - 1)
  }

  function BitCount(n: nat): (len: nat)
  {
    if n == 0 then 0 else 1 + BitCount(n / 2)
  }

  /** `v << p`, that is v * 2^p (by doubling: no product of two unknowns reaches the solver). */
  function Shl(v: int, p: nat): int {
    if p == 0 then v else 2 * Shl(v, p - 1)
  }

  /** `n >> i`. */
  function Shr(n: nat, i: nat): nat {
    if i == 0 then n else Shr(n, i - 1) / 2
  }

  predicate GetBit(n: nat, i: nat) {
    Shr(n, i) % 2 == 1
  }

  /** The low `i` bits of `n`. */
  function Low(n: nat, i: nat): int {
    n - Shl(Shr(n, i), i)
  }

  lemma {:induction false} ShlIsProduct(v: int, p: nat)
    ensures Shl(v, p) == v * Pow2(p)
  {
    if p > 0 {
      ShlIsProduct(v, p - 1);
      MulAssoc(2, v, Pow2(p - 1));
      MulAssoc(v, 2, Pow2(p - 1));
    }
  }

  lemma {:induction false} ShlOne(p: nat)
    ensures Shl(1, p) == Pow2(p)
  {
    if p > 0 {
      ShlOne(p - 1);
    }
  }

  lemma {:induction false} ShlAdd(u: int, v: int, p: nat)
    ensures Shl(u + v, p) == Shl(u, p) + Shl(v, p)
  {
    if p > 0 {
      ShlAdd(u, v, p - 1);
    }
  }

  lemma {:induction false} ShlShl(v: int, a: nat, b: nat)
    ensures Shl(Shl(v, a), b) == Shl(v, a + b)
  {
    if b > 0 {
      ShlShl(v, a, b - 1);
    }
  }

  lemma {:induction false} ShlMonotonic(u: int, v: int, p: nat)
    requires u <= v
    ensures Shl(u, p) <= Shl(v, p)
  {
    if p > 0 {
      ShlMonotonic(u, v, p - 1);
    }
  }

  lemma {:induction false} ShlZero(p: nat)
    ensures Shl(0, p) == 0
  {
    if p > 0 {
      ShlZero(p - 1);
    }
  }

  lemma {:induction false} Pow2Monotonic(a: nat, b: nat)
    requires a <= b
    ensures Pow2(a) <= Pow2(b)
  {
    if a < b {
      Pow2Monotonic(a, b - 1);
    }
  }

  lemma MulAssoc(a: int, b: int, c: int)
    ensures a * b * c == a * (b * c)
  {
  }

  lemma MulAdd(a: int, b: int, c: int)
    ensures (a + b) * c == a * c + b * c
  {
  }

  lemma MulMonotonic(a: int, b: int, d: int)
    requires a <= b && d >= 0
    ensures a * d <= b * d
  {
    assert (b - a) * d >= 0;
  }

  /** Division with remainder is unique. */
  lemma DivUnique(n: int, d: int, q: int, r: int)
    requires d > 0 && n == q * d + r && 0 <= r < d
    ensures n / d == q && n % d == r
  {
    var q', r' := n / d, n % d;
    assert n == q' * d + r' && 0 <= r' < d;
    if q' < q {
      MulMonotonic(q' + 1, q, d);
    } else if q < q' {
      MulMonotonic(q + 1, q', d);
    }
  }

  /** The low bits stay below the power of two. */
  lemma {:induction false} LowBounds(n: nat, i: nat)
    ensures 0 <= Low(n, i) < Pow2(i)
  {
    if i > 0 {
      LowBounds(n, i - 1);
      var s, b := Shr(n, i), Shr(n, i - 1) % 2;
      assert Shr(n, i - 1) == s + s + b;
      ShlAdd(s + s, b, i - 1);
      ShlAdd(s, s, i - 1);
      ShlOne(i - 1);
      ShlZero(i - 1);
    }
  }

  /** Shifting is division by a power of two, and the low bits are the remainder. */
  lemma ShiftIsDivision(n: nat, i: nat)
    ensures n / Pow2(i) == Shr(n, i) && n % Pow2(i) == Low(n, i)
  {
    LowBounds(n, i);
    ShlIsProduct(Shr(n, i), i);
    DivUnique(n, Pow2(i), Shr(n, i), Low(n, i));
  }

  /** Shifting by `a` and then by `b` is shifting by `a + b`. */
  lemma {:induction false} ShiftShift(n: nat, a: nat, b: nat)
    ensures Shr(Shr(n, a), b) == Shr(n, a + b)
  {
    if b > 0 {
      ShiftShift(n, a, b - 1);
    }
  }

  lemma {:induction false} ShiftSmaller(n: nat, i: nat)
    requires i >= 1
    ensures 2 * Shr(n, i) <= n
  {
    if i > 1 {
      ShiftSmaller(n, i - 1);
    }
  }

  lemma {:induction false} ShiftZero(i: nat)
    ensures Shr(0, i) == 0
  {
    if i > 0 {
      ShiftZero(i - 1);
    }
  }

  /** Adding k * 2^i adds to the high part only. */
  lemma {:induction false} ShiftAdd(n: nat, i: nat, k: nat)
    requires Shl(k, i) >= 0
    ensures Shr(n + Shl(k, i), i) == Shr(n, i) + k
  {
    if i > 0 {
      ShlAdd(k, k, i - 1);
      ShiftAdd(n, i - 1, 2 * k);
    }
  }

  /** A number has no bit at or above its bit count, and the bit just below is its top bit. */
  lemma {:induction false} TopBit(n: nat)
    ensures Shr(n, BitCount(n)) == 0
    ensures n > 0 ==> BitCount(n) > 0 && Shr(n, BitCount(n) - 1) == 1
  {
    if n > 0 {
      TopBit(n / 2);
      assert Shr(n, 1) == n / 2;
      ShiftShift(n, 1, BitCount(n / 2));
      if n / 2 > 0 {
        ShiftShift(n, 1, BitCount(n / 2) - 1);
      }
    }
  }

  lemma {:induction false} HighBitsClear(n: nat, i: nat)
    requires BitCount(n) <= i
    ensures Shr(n, i) == 0
  {
    TopBit(n);
    ShiftShift(n, BitCount(n), i - BitCount(n));
    ShiftZero(i - BitCount(n));
  }

}
