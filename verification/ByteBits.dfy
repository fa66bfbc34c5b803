/** Bytes as bit vectors, seen bit by bit. */
module ByteBits {

  type Byte = bv8

  /** Bit j of a byte, bit 0 being the lowest. */
  predicate Bit(b: Byte, j: nat)
    requires j < 8
  {
    b & (match j case 0 => 1 case 1 => 2 case 2 => 4 case 3 => 8 case 4 => 16 case 5 => 32 case 6 => 64 case _ => 128) != 0
  }

  /** A byte is its eight bits. */
  lemma SameBits(a: Byte, b: Byte)
    requires forall j: nat :: j < 8 ==> Bit(a, j) == Bit(b, j)
    ensures a == b
  {
    assert Bit(a, 0) == Bit(b, 0) && Bit(a, 1) == Bit(b, 1) && Bit(a, 2) == Bit(b, 2) && Bit(a, 3) == Bit(b, 3);
    assert Bit(a, 4) == Bit(b, 4) && Bit(a, 5) == Bit(b, 5) && Bit(a, 6) == Bit(b, 6) && Bit(a, 7) == Bit(b, 7);
  }

  lemma XorBit(a: Byte, b: Byte, j: nat)
    requires j < 8
    ensures Bit(a ^ b, j) == (Bit(a, j) != Bit(b, j))
  {
    if {
      case j == 0 =>
      case j == 1 =>
      case j == 2 =>
      case j == 3 =>
      case j == 4 =>
      case j == 5 =>
      case j == 6 =>
      case j == 7 =>
    }
  }

  lemma OrBit(a: Byte, b: Byte, j: nat)
    requires j < 8
    ensures Bit(a | b, j) == (Bit(a, j) || Bit(b, j))
  {
    if {
      case j == 0 =>
      case j == 1 =>
      case j == 2 =>
      case j == 3 =>
      case j == 4 =>
      case j == 5 =>
      case j == 6 =>
      case j == 7 =>
    }
  }

  /** b >> s. */
  function Right(b: Byte, s: nat): Byte
    decreases s
  {
    if s == 0 then b else Right(b >> 1, s - 1)
  }

  /** b << s, cut to a byte. */
  function Left(b: Byte, s: nat): Byte
    decreases s
  {
    if s == 0 then b else Left(b + b, s - 1)
  }

  lemma HalfBit(b: Byte, j: nat)
    requires j < 8
    ensures Bit(b >> 1, j) == (j < 7 && Bit(b, j + 1))
    ensures Bit(b + b, j) == (j > 0 && Bit(b, j - 1))
  {
    if {
      case j == 0 =>
      case j == 1 =>
      case j == 2 =>
      case j == 3 =>
      case j == 4 =>
      case j == 5 =>
      case j == 6 =>
      case j == 7 =>
    }
  }

  lemma {:induction false} RightBit(b: Byte, s: nat, j: nat)
    requires j < 8
    ensures Bit(Right(b, s), j) == (j + s < 8 && Bit(b, j + s))
    decreases s
  {
    hide Bit;
    if s > 0 {
      RightBit(b >> 1, s - 1, j);
      if j + s - 1 < 8 {
        HalfBit(b, j + s - 1);
      }
    }
  }

  lemma {:induction false} LeftBit(b: Byte, s: nat, j: nat)
    requires j < 8
    ensures Bit(Left(b, s), j) == (j >= s && Bit(b, j - s))
    decreases s
  {
    hide Bit;
    if s > 0 {
      LeftBit(b + b, s - 1, j);
      if j >= s - 1 {
        HalfBit(b, j - (s - 1));
      }
    }
  }
}
