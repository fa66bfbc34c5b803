/** Doubling in the field with 2^n elements, as CMAC derives its subkeys (sections 2.3 of RFC 4493). A block
    is a polynomial over GF(2): bit e of it, counted from the end, is the coefficient of x^e. */
module BinaryField {

  import opened ByteBits

  /** The coefficient of x^e; a block of n bytes has degree below 8n. */
  predicate Coefficient(k: seq<Byte>, e: int) {
    0 <= e < 8 * |k| && Bit(k[|k| - 1 - e / 8], e % 8)
  }

  /** The polynomial that `MulU` reduces by, as its set of exponents. */
  function CodePolynomial(size: nat): set<int>
    requires size in {8, 16, 32}
  {
    if size == 8 then {64, 4, 3, 1, 0} else if size == 16 then {128, 7, 2, 1, 0} else {256, 10, 5, 1, 0}
  }

  /** The first irreducible polynomial of that degree with the fewest terms, which makes it a field. */
  function FieldPolynomial(size: nat): set<int>
    requires size in {8, 16, 32}
  {
    if size == 32 then {256, 10, 5, 2, 0} else CodePolynomial(size)
  }

  /** x times k is q times the polynomial p, plus r. */
  ghost predicate IsRemainder(k: seq<Byte>, q: bool, r: seq<Byte>, p: set<int>) {
    |r| == |k| && forall e: int :: 0 <= e <= 8 * |k| ==> Coefficient(k, e - 1) == ((q && e in p) != Coefficient(r, e))
  }

  /** r is x times k modulo p. */
  ghost predicate IsDouble(k: seq<Byte>, r: seq<Byte>, p: set<int>) {
    IsRemainder(k, true, r, p) || IsRemainder(k, false, r, p)
  }

  /** There is only one remainder. */
  lemma DoubleUnique(k: seq<Byte>, r: seq<Byte>, s: seq<Byte>, p: set<int>)
    requires 8 * |k| in p && IsDouble(k, r, p) && IsDouble(k, s, p)
    ensures r == s
  {
    var top := 8 * |k|;
    assert !Coefficient(r, top) && !Coefficient(s, top);
    assert IsRemainder(k, Coefficient(k, top - 1), r, p) && IsRemainder(k, Coefficient(k, top - 1), s, p);
    forall i | 0 <= i < |r|
      ensures r[i] == s[i]
    {
      forall j: nat | j < 8
        ensures Bit(r[i], j) == Bit(s[i], j)
      {
        var e := 8 * (|r| - 1 - i) + j;
        assert e / 8 == |r| - 1 - i && e % 8 == j;
        assert Coefficient(r, e) == Coefficient(s, e);
      }
      SameBits(r[i], s[i]);
    }
  }

  /** Doubling as the code does it is doubling in the field, except for blocks of 32 bytes with the top bit
      set: its polynomial for those has x where the field has x^2. */
  lemma DoublesInFieldExactly(k: seq<Byte>, r: seq<Byte>)
    requires |k| in {8, 16, 32} && IsDouble(k, r, CodePolynomial(|k|))
    ensures IsDouble(k, r, FieldPolynomial(|k|)) <==> |k| != 32 || !Bit(k[0], 7)
  {
    if |k| == 32 {
      var c, f := CodePolynomial(32), FieldPolynomial(32);
      assert Coefficient(k, 255) == Bit(k[0], 7) && !Coefficient(r, 256);
      if Bit(k[0], 7) {
        assert IsRemainder(k, true, r, c);
        assert 1 in c && 1 !in f;
        assert Coefficient(k, 0) == (true != Coefficient(r, 1));
      } else {
        assert IsRemainder(k, false, r, c);
        assert IsRemainder(k, false, r, f);
      }
    }
  }

  /** The other factor of the polynomial for 32 bytes. */
  predicate Cofactor(e: int) {
    e in {0, 2, 3} || (10 <= e <= 254 && e % 3 != 0)
  }

  /** And that polynomial is x^2 + x + 1 times another one, so what it makes is no field at all. */
  lemma CodePolynomialFactors(e: int)
    ensures e in CodePolynomial(32) <==> (Cofactor(e) != (Cofactor(e - 1) != Cofactor(e - 2)))
  {
  }

  /** One byte of a left shift of the whole block by one bit. */
  function ShiftedByte(s: seq<Byte>, i: nat): Byte
    requires i < |s|
  {
    s[i] + s[i] + if i + 1 < |s| then s[i + 1] >> 7 else 0
  }

  lemma ShiftBit(b: Byte, next: Byte, j: nat)
    requires j < 8
    ensures Bit(b + b + (next >> 7), j) == if j == 0 then Bit(next, 7) else Bit(b, j - 1)
    ensures Bit(b + b, j) == (j != 0 && Bit(b, j - 1))
  {
    if {
      case j == 0 =>
      case j == 1 =>
      case j == 2 =>
      case j == 3 =>
      case j == 4 =>
      case j == 5 =>
      case j == 6 =>
      case j == 7 =>
    }
  }

  /** The shift moves each coefficient up by one. */
  lemma ShiftCoefficient(s: seq<Byte>, r: seq<Byte>, e: nat)
    requires ShiftedFrom(r, s, 0) && e < 8 * |s|
    ensures Coefficient(r, e) == Coefficient(s, e - 1)
  {
    hide Bit;
    var i, j := |s| - 1 - e / 8, e % 8;
    assert j == 0 ==> (e - 1) / 8 == e / 8 - 1 && (e - 1) % 8 == 7;
    assert j != 0 ==> (e - 1) / 8 == e / 8 && (e - 1) % 8 == j - 1;
    assert r[i] == ShiftedByte(s, i);
    if i + 1 < |s| {
      ShiftBit(s[i], s[i + 1], j);
    } else {
      ShiftBit(s[i], 0, j);
    }
  }

  /** What `MulU` flips in byte i when a bit was carried out. */
  function Flips(size: nat, i: nat): Byte {
    if i == size - 1 then (if size == 8 then 0x1b else if size == 16 then 0x87 else 0x23)
    else if size == 32 && i == 30 then 4 else 0
  }

  lemma FlipsArePolynomial(size: nat, e: nat)
    requires size in {8, 16, 32} && e < 8 * size
    ensures Bit(Flips(size, size - 1 - e / 8), e % 8) <==> e in CodePolynomial(size)
  {
    var j := e % 8;
    if e < 16 {
      assert e / 8 == 0 || e / 8 == 1;
      if {
        case j == 0 =>
        case j == 1 =>
        case j == 2 =>
        case j == 3 =>
        case j == 4 =>
        case j == 5 =>
        case j == 6 =>
        case j == 7 =>
      }
    }
  }

  /** Shifting, and flipping the polynomial when the top bit was carried out, is doubling modulo that polynomial. */
  lemma ShiftAndFlipDoubles(s: seq<Byte>, shifted: seq<Byte>, r: seq<Byte>)
    requires |s| in {8, 16, 32} && |shifted| == |r| == |s|
    requires ShiftedFrom(shifted, s, 0)
    requires forall i :: 0 <= i < |s| ==> r[i] == if Bit(s[0], 7) then shifted[i] ^ Flips(|s|, i) else shifted[i]
    ensures IsDouble(s, r, CodePolynomial(|s|))
  {
    hide Bit, Flips, ShiftedFrom;
    var q, size := Bit(s[0], 7), |s|;
    forall e: int | 0 <= e <= 8 * size
      ensures Coefficient(s, e - 1) == ((q && e in CodePolynomial(size)) != Coefficient(r, e))
    {
      if e < 8 * size {
        ShiftCoefficient(s, shifted, e);
        FlipsArePolynomial(size, e);
        XorBit(shifted[size - 1 - e / 8], Flips(size, size - 1 - e / 8), e % 8);
      } else {
        assert (e - 1) / 8 == size - 1 && (e - 1) % 8 == 7;
      }
    }
    assert IsRemainder(s, q, r, CodePolynomial(size));
  }

  /** `MulU` on the part of an array from `from`: doubles it in place. A block size without a known
      polynomial fails exactly when a bit is carried out, after the shift; with an odd size the first byte
      is not shifted, so the bit carried out is the one of the second. */
  method MulU(k: array<Byte>, from: nat, length: nat) returns (ok: bool)
    requires from + length <= k.Length
    modifies k
    ensures ok <==> length in {8, 16, 32} || length < 2 || !Bit(old(k[from + length % 2]), 7)
    ensures length !in {8, 16, 32} ==> ShiftedFrom(k[from..from + length], old(k[from..from + length]), length % 2)
    ensures length in {8, 16, 32} ==> IsDouble(old(k[from..from + length]), k[from..from + length], CodePolynomial(length))
    ensures k[..from] == old(k[..from]) && k[from + length..] == old(k[from + length..])
  {
    hide Bit, ShiftedFrom, IsDouble;
    ghost var s := k[from..from + length];
    assert length > 0 ==> s[0] == k[from];
    var carry := ShiftLeft(k, from, length);
    ghost var shifted := k[from..from + length];
    ok := true;
    if carry != 0 {
      ok := FlipPolynomial(k, from, length);
    }
    if length in {8, 16, 32} {
      ShiftAndFlipDoubles(s, shifted, k[from..from + length]);
    }
  }

  /** The `switch` of `MulU`. */
  method FlipPolynomial(k: array<Byte>, from: nat, length: nat) returns (ok: bool)
    requires from + length <= k.Length
    modifies k
    ensures ok <==> length in {8, 16, 32}
    ensures !ok ==> k[..] == old(k[..])
    ensures ok ==> forall i :: 0 <= i < length ==> k[from..from + length][i] == Flip(old(k[from..from + length])[i], Flips(length, i))
    ensures k[..from] == old(k[..from]) && k[from + length..] == old(k[from + length..])
  {
    hide Flips, Flip;
    ok := true;
    ghost var was := k[..];
    match length {
      case 8 =>
        XorInto(k, from + 7, 0x1b);
        FlippedBytes(was, k[..], from, length, map[7 := 0x1b]);
      case 16 =>
        XorInto(k, from + 15, 0x87);
        FlippedBytes(was, k[..], from, length, map[15 := 0x87]);
      case 32 =>
        XorInto(k, from + 30, 4);
        XorInto(k, from + 31, 0x23);
        FlippedBytes(was, k[..], from, length, map[30 := 4, 31 := 0x23]);
      case _ =>
        ok := false;
    }
  }

  /** b with the bits of x flipped. */
  ghost function Flip(b: Byte, x: Byte): Byte {
    b ^ x
  }

  /** k[i] ^= x. */
  method XorInto(k: array<Byte>, i: nat, x: Byte)
    requires i < k.Length
    modifies k
    ensures k[..] == old(k[..])[i := Flip(old(k[..])[i], x)]
  {
    k[i] := k[i] ^ x;
  }

  /** What the switch flips is what the polynomial of that size says. */
  lemma FlippedBytes(was: seq<Byte>, now: seq<Byte>, from: nat, length: nat, flipped: map<nat, Byte>)
    requires |now| == |was| && from + length <= |was| && length in {8, 16, 32}
    requires flipped == if length == 8 then map[7 := 0x1b] else if length == 16 then map[15 := 0x87] else map[30 := 4, 31 := 0x23]
    requires forall j: nat :: j < |was| && !(j >= from && j - from in flipped) ==> now[j] == was[j]
    requires forall i: nat :: i in flipped ==> now[from + i] == Flip(was[from + i], flipped[i])
    ensures forall i :: 0 <= i < length ==> now[from..from + length][i] == Flip(was[from..from + length][i], Flips(length, i))
    ensures now[..from] == was[..from] && now[from + length..] == was[from + length..]
  {
    hide Flips, Flip;
    forall i: nat | i < length
      ensures now[from..from + length][i] == Flip(was[from..from + length][i], Flips(length, i))
    {
      FlipsTable(length, i, flipped);
      FlipNothing(was[from + i]);
    }
  }

  lemma FlipsTable(length: nat, i: nat, flipped: map<nat, Byte>)
    requires length in {8, 16, 32} && i < length
    requires flipped == if length == 8 then map[7 := 0x1b] else if length == 16 then map[15 := 0x87] else map[30 := 4, 31 := 0x23]
    ensures Flips(length, i) == if i in flipped then flipped[i] else 0
  {
  }

  lemma FlipNothing(b: Byte)
    ensures Flip(b, 0) == b
  {
  }

  lemma CarriedOut(b: Byte)
    ensures b >> 7 != 0 <==> Bit(b, 7)
  {
  }

  /** s[i..] of the shifted block stands in the array, and s[..i] of the block itself. */
  ghost predicate ShiftedFrom(k: seq<Byte>, s: seq<Byte>, i: int) {
    |k| == |s| && forall j: nat :: j < |s| ==> k[j] == if j < i then s[j] else ShiftedByte(s, j)
  }

  /** The loop of `MulU`: two bytes a turn, from the end, with the bit carried out of each. Of an odd
      number of bytes it leaves the first alone. */
  method ShiftLeft(k: array<Byte>, from: nat, length: nat) returns (carry: Byte)
    requires from + length <= k.Length
    modifies k
    ensures carry != 0 <==> length >= 2 && Bit(old(k[from + length % 2]), 7)
    ensures ShiftedFrom(k[from..from + length], old(k[from..from + length]), length % 2)
    ensures k[..from] == old(k[..from]) && k[from + length..] == old(k[from + length..])
  {
    hide Bit, ShiftedFrom, ShiftedByte;
    ghost var s := k[from..from + length];
    carry := 0;
    NothingShifted(s);
    assert length >= 2 ==> s[length % 2] == k[from + length % 2];
    var i := length - 1;
    while i >= 1
      invariant -1 <= i < length && (i + 1) % 2 == length % 2
      invariant carry == if i + 1 < length then s[i + 1] >> 7 else 0
      invariant ShiftedFrom(k[from..from + length], s, i + 1)
      invariant k[..from] == old(k[..from]) && k[from + length..] == old(k[from + length..])
    {
      var carry2 := ShiftByte(k, from, length, i, carry, s);
      carry := ShiftByte(k, from, length, i - 1, carry2, s);
      i := i - 2;
    }
    assert i + 1 == length % 2;
    if length >= 2 {
      CarriedOut(s[length % 2]);
    }
  }

  lemma NothingShifted(s: seq<Byte>)
    ensures ShiftedFrom(s, s, |s|)
  {
  }

  /** Half a turn of that loop. */
  method ShiftByte(k: array<Byte>, from: nat, length: nat, i: nat, carryIn: Byte, ghost s: seq<Byte>) returns (carry: Byte)
    requires i < length == |s| && from + length <= k.Length
    requires ShiftedFrom(k[from..from + length], s, i + 1)
    requires carryIn == if i + 1 < length then s[i + 1] >> 7 else 0
    modifies k
    ensures carry == s[i] >> 7 && ShiftedFrom(k[from..from + length], s, i)
    ensures k[..from] == old(k[..from]) && k[from + length..] == old(k[from + length..])
  {
    assert k[from..from + length][i] == s[i];
    carry := k[from + i] >> 7;
    k[from + i] := k[from + i] + (k[from + i] + carryIn);
    assert k[from..from + length] == old(k[from..from + length])[i := ShiftedByte(s, i)];
  }
}
