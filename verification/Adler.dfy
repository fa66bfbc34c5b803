/** The Adler-32 checksum, updated in pieces with delayed modular reduction (section 8.2 of RFC 1950). */
module Adler {
  import opened Common
  import opened Pieces

  const BASE := 65521

  /** 1 plus the sum of all bytes. */
  ghost function Sum1(m: seq<Byte>): nat {
    if m == [] then 1 else Sum1(m[..|m| - 1]) + m[|m| - 1]
  }

  /** The sum of all values that Sum1 takes after each byte. */
  ghost function Sum2(m: seq<Byte>): nat {
    if m == [] then 0 else Sum2(m[..|m| - 1]) + Sum1(m)
  }

  /** s1 and s2 stand for the two sums of m. */
  ghost predicate Represents(s1: int, s2: int, m: seq<Byte>) {
    s1 >= 0 && s2 >= 0 && s1 % BASE == Sum1(m) % BASE && s2 % BASE == Sum2(m) % BASE
  }

  lemma Shift(x: int, y: int, k: int)
    requires x == y + BASE * k
    ensures x % BASE == y % BASE
  {
    assert x == BASE * (y / BASE + k) + y % BASE;
  }

  lemma AddCongruent(a: int, b: int, c: int, d: int)
    requires a % BASE == b % BASE && c % BASE == d % BASE
    ensures (a + c) % BASE == (b + d) % BASE
  {
    Shift(a + c, b + d, a / BASE - b / BASE + c / BASE - d / BASE);
  }

  lemma AddByte(s1: int, s2: int, m: seq<Byte>, b: Byte)
    requires Represents(s1, s2, m)
    ensures Represents(s1 + b, s2 + (s1 + b), m + [b])
  {
    hide BASE;
    assert (m + [b])[..|m|] == m;
    AddCongruent(s1, Sum1(m), b, b);
    AddCongruent(s2, Sum2(m), s1 + b, Sum1(m) + b);
  }

  lemma AddNext(s1: int, s2: int, input: seq<Byte>, p: nat, message: seq<Byte>)
    requires p < |input| && Represents(s1, s2, message + input[..p])
    ensures Represents(s1 + input[p], s2 + (s1 + input[p]), message + input[..p + 1])
  {
    assert message + input[..p + 1] == message + input[..p] + [input[p]];
    AddByte(s1, s2, message + input[..p], input[p]);
  }

  lemma Reduce(s1: int, s2: int, m: seq<Byte>)
    requires Represents(s1, s2, m)
    ensures s1 >= BASE ==> Represents(s1 - BASE, s2, m)
    ensures Represents(s1, s2 % BASE, m)
  {
  }

  class Adler32 {
    var s1: nat
    var s2: nat
    // What has been hashed since the last reset
    ghost var message: seq<Byte>

    /** Between calls both sums are fully reduced. */
    ghost predicate Valid()
      reads this
    {
      s1 < BASE && s2 < BASE && s1 == Sum1(message) % BASE && s2 == Sum2(message) % BASE
    }

    constructor ()
      ensures Valid() && message == []
    {
      s1, s2, message := 1, 0, [];
    }

    method Reset()
      modifies this
      ensures Valid() && message == []
    {
      s1, s2, message := 1, 0, [];
    }

    /** Hashes more bytes. However the message was cut into calls, the sums are those of the whole
        message; and no intermediate value exceeds 32 bits. */
    method Update(input: seq<Byte>)
      requires Valid()
      modifies this
      ensures Valid() && message == old(message) + input
    {
      var a, b, length := AddOddBytes(s1, s2, input, message);
      a, b := AddGroups(a, b, length, input, message);
      assert message + input[..|input|] == message + input;
      s1, s2 := a, b;
      message := message + input;
    }

    /** The first `size` bytes of s2 and s1 in network order; then a new message begins. More than four
        bytes are refused. */
    method TruncatedFinal(size: nat) returns (ok: bool, hash: seq<Byte>)
      requires Valid()
      modifies this
      ensures Valid() && (ok <==> size <= 4)
      ensures !ok ==> message == old(message)
      ensures ok ==> message == [] && hash == [old(s2) / 256, old(s2) % 256, old(s1) / 256, old(s1) % 256][..size]
    {
      ok, hash := size <= 4, [];
      if !ok {
        return;
      }
      if size >= 1 {
        hash := hash + [s2 / 256 % 256];
      }
      if size >= 2 {
        hash := hash + [s2 % 256];
      }
      if size >= 3 {
        hash := hash + [s1 / 256 % 256];
      }
      if size >= 4 {
        hash := hash + [s1 % 256];
      }
      Reset();
    }
  }

  /** The first loop of `Update`: bytes until the rest is a multiple of eight. */
  method AddOddBytes(s1In: nat, s2In: nat, input: seq<Byte>, ghost message: seq<Byte>) returns (s1: nat, s2: nat, length: nat)
    requires s1In < BASE && s2In < BASE && Represents(s1In, s2In, message)
    ensures length <= |input| && length % 8 == 0
    ensures s1 < BASE && s2 < BASE && Represents(s1, s2, message + input[..|input| - length])
  {
    hide Represents;
    s1, s2, length := s1In, s2In, |input|;
    assert message + input[..0] == message;
    if length % 8 != 0 {
      ghost var before := length;
      while length % 8 != 0
        invariant length <= before == |input| && before - length <= before % 8
        invariant length % 8 == before % 8 - (before - length)
        invariant Represents(s1, s2, message + input[..|input| - length])
        invariant s1 <= BASE - 1 + 255 * (before - length) && s2 <= BASE - 1 + 70000 * (before - length)
        decreases length
      {
        var p := |input| - length;
        AddNext(s1, s2, input, p, message);
        s1 := s1 + input[p];
        s2 := s2 + s1;
        assert s2 <= 0xFFFF_FFFF;
        length := length - 1;
      }
      Reduce(s1, s2, message + input[..|input| - length]);
      if s1 >= BASE {
        s1 := s1 - BASE;
      }
      Reduce(s1, s2, message + input[..|input| - length]);
      s2 := s2 % BASE;
    }
  }

  /** How many groups of eight are left until s2 is next reduced, once another group has gone. */
  lemma NextGroup(length: nat, r: nat)
    requires 8 <= length && length % 0x8000 == 8 * r
    ensures (length - 8) % 0x8000 == if r == 0 then 8 * 4095 else 8 * (r - 1)
  {
    var q := length / 0x8000;
    assert length - 8 == if r == 0 then 0x8000 * (q - 1) + 8 * 4095 else 0x8000 * q + 8 * (r - 1);
  }

  /** The second loop of `Update`: groups of eight bytes. s2 is reduced only every 4096 groups, which is
      just often enough for 32 bits. */
  method AddGroups(s1In: nat, s2In: nat, lengthIn: nat, input: seq<Byte>, ghost message: seq<Byte>) returns (s1: nat, s2: nat)
    requires lengthIn <= |input| && lengthIn % 8 == 0 && s1In < BASE && s2In < BASE
    requires Represents(s1In, s2In, message + input[..|input| - lengthIn])
    ensures s1 < BASE && s2 < BASE && Represents(s1, s2, message + input[..|input|])
  {
    hide Represents;
    s1, s2 := s1In, s2In;
    var length := lengthIn;
    ghost var groups: nat := 0;
    ghost var r: nat := length % 0x8000 / 8;
    ghost var left: nat := length / 8;
    while length > 0
      invariant 0 <= length <= |input| && length == 8 * left && length % 0x8000 == 8 * r
      invariant Represents(s1, s2, message + input[..|input| - length])
      invariant s1 < BASE && s2 <= BASE - 1 + 533340 * groups
      invariant if r == 0 then groups == 0 else groups + r <= 4096
    {
      NextGroup(length, r);
      s1, s2 := AddGroup(s1, s2, input, |input| - length, message);
      length := length - 8;
      r, left, groups := if r == 0 then 4095 else r - 1, left - 1, groups + 1;
      if length % 0x8000 == 0 {
        Reduce(s1, s2, message + input[..|input| - length]);
        s2 := s2 % BASE;
        groups := 0;
      }
    }
  }

  /** One group: eight bytes, then s1 reduced by at most one subtraction. */
  method AddGroup(s1In: nat, s2In: nat, input: seq<Byte>, from: nat, ghost message: seq<Byte>) returns (s1: nat, s2: nat)
    requires s1In < BASE && s2In <= BASE - 1 + 533340 * 4095
    requires from + 8 <= |input| && Represents(s1In, s2In, message + input[..from])
    ensures s1 < BASE && s2 <= s2In + 533340 <= 0xFFFF_FFFF
    ensures Represents(s1, s2, message + input[..from + 8])
  {
    hide Represents;
    s1, s2 := AddEightBytes(s1In, s2In, input, from, message);
    Reduce(s1, s2, message + input[..from + 8]);
    if s1 >= BASE {
      s1 := s1 - BASE;
    }
  }

  /** The unrolled body of the second loop of `Update`. */
  method AddEightBytes(s1In: nat, s2In: nat, input: seq<Byte>, from: nat, ghost message: seq<Byte>) returns (s1: nat, s2: nat)
    requires s1In < BASE && s2In <= BASE - 1 + 533340 * 4095
    requires from + 8 <= |input| && Represents(s1In, s2In, message + input[..from])
    ensures s1 < 2 * BASE && s2 <= s2In + 533340 <= 0xFFFF_FFFF
    ensures Represents(s1, s2, message + input[..from + 8])
  {
    hide Represents;
    s1, s2 := s1In, s2In;
    AddNext(s1, s2, input, from, message);
    s1 := s1 + input[from]; s2 := s2 + s1;
    AddNext(s1, s2, input, from + 1, message);
    s1 := s1 + input[from + 1]; s2 := s2 + s1;
    AddNext(s1, s2, input, from + 2, message);
    s1 := s1 + input[from + 2]; s2 := s2 + s1;
    AddNext(s1, s2, input, from + 3, message);
    s1 := s1 + input[from + 3]; s2 := s2 + s1;
    AddNext(s1, s2, input, from + 4, message);
    s1 := s1 + input[from + 4]; s2 := s2 + s1;
    AddNext(s1, s2, input, from + 5, message);
    s1 := s1 + input[from + 5]; s2 := s2 + s1;
    AddNext(s1, s2, input, from + 6, message);
    s1 := s1 + input[from + 6]; s2 := s2 + s1;
    AddNext(s1, s2, input, from + 7, message);
    s1 := s1 + input[from + 7]; s2 := s2 + s1;
  }

  /** For every message and every way to cut it into pieces, the result is the checksum of the message. */
  method ChecksumOfPieces(pieces: seq<seq<Byte>>) returns (hash: seq<Byte>)
    ensures var s1, s2 := Sum1(Joined(pieces)) % BASE, Sum2(Joined(pieces)) % BASE;
      hash == [s2 / 256, s2 % 256, s1 / 256, s1 % 256]
  {
    hide Sum1, Sum2;
    var adler := new Adler32();
    JoinAll(pieces);
    for i := 0 to |pieces|
      invariant fresh(adler) && adler.Valid() && adler.message == Joined(pieces[..i])
    {
      JoinNext(pieces, i);
      adler.Update(pieces[i]);
    }
    var ok;
    ok, hash := adler.TruncatedFinal(4);
  }
}
