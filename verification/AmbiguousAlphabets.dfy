/** For which alphabets encoding and decoding give every message back. */
module AmbiguousAlphabets {
  import opened BaseCode
  import opened BaseDecoder
  import opened BaseRoundTrip
  import opened BitPacking
  import opened ByteBits
  import opened LookupTables

  // ----- every sequence of whole bytes of bits has its bytes

  function Weight(on: bool, weight: Byte): Byte {
    if on then weight else 0
  }

  lemma ByteFrom(b: seq<bool>) returns (v: Byte)
    requires |b| == 8
    ensures ElementBits(v, 8) == b
  {
    v := Weight(b[0], 128) | Weight(b[1], 64) | Weight(b[2], 32) | Weight(b[3], 16)
         | Weight(b[4], 8) | Weight(b[5], 4) | Weight(b[6], 2) | Weight(b[7], 1);
    assert Bit(v, 0) == b[7] && Bit(v, 1) == b[6] && Bit(v, 2) == b[5] && Bit(v, 3) == b[4];
    assert Bit(v, 4) == b[3] && Bit(v, 5) == b[2] && Bit(v, 6) == b[1] && Bit(v, 7) == b[0];
  }

  lemma {:induction false} BytesFrom(b: seq<bool>) returns (s: seq<Byte>)
    requires |b| % 8 == 0
    ensures Bits(s, 8) == b
    decreases |b|
  {
    if b == [] {
      s := [];
    } else {
      var n := |b| - 8;
      var front := BytesFrom(b[..n]);
      var last := ByteFrom(b[n..]);
      BitsOne(front, last, 8);
      s := front + [last];
    }
  }

  // ----- a block of one value

  ghost function Block(v: Byte, k: nat): (values: seq<Byte>)
    requires 1 <= k <= 7
    ensures |values| == Characters(k) > 0
  {
    seq(Characters(k), _ => v)
  }

  /** A block of values that fit is a message of its own. */
  lemma BlockIsMessage(v: Byte, k: nat) returns (message: seq<Byte>)
    requires 1 <= k <= 7 && Fits(v, k)
    ensures IsEncoding(message, Block(v, k), k) && IsDecoding(Block(v, k), message, k)
    ensures Bits(message, 8) == Bits(Block(v, k), k)
  {
    BitCount(Block(v, k), k);
    message := BytesFrom(Bits(Block(v, k), k));
  }

  lemma {:induction false} SameLetter(text: seq<Byte>, c: Byte, v: Byte, lookup: seq<int>)
    requires |lookup| == 256 && lookup[c as int] == v as int && forall i :: 0 <= i < |text| ==> text[i] == c
    ensures |Significant(text, lookup)| == |text| && forall i :: 0 <= i < |text| ==> Significant(text, lookup)[i] == v
    decreases |text|
  {
    if text != [] {
      SameLetter(text[..|text| - 1], c, v, lookup);
    }
  }

  // ----- the theorem

  /** Whatever is decoded from the letters of the message is the message. */
  ghost predicate ReadBack(message: seq<Byte>, k: nat, alphabet: seq<Byte>, lookup: seq<int>)
    requires 1 <= k <= 7 && |lookup| == 256
  {
    forall values, bytes :: IsEncoding(message, values, k) && AllSmall(values, |alphabet|) ==>
      IsDecoding(Significant(Letters(values, alphabet), lookup), bytes, k) ==> bytes == message
  }

  /** A block of a value whose letter stands for another one too is read as a block of the other. */
  lemma ReadAsOther(i: Byte, v: Byte, k: nat, alphabet: seq<Byte>, lookup: seq<int>) returns (message: seq<Byte>)
    requires 1 <= k <= 7 && |alphabet| == Base(k) && |lookup| == 256 && (i as int) < |alphabet| && Fits(i, k) && Fits(v, k)
    requires i != v && lookup[alphabet[i as int] as int] == v as int
    ensures !ReadBack(message, k, alphabet, lookup)
  {
    hide Bits, IsEncoding, IsDecoding;
    message := BlockIsMessage(i, k);
    var other := BlockIsMessage(v, k);
    var letters := Letters(Block(i, k), alphabet);
    SameLetter(letters, alphabet[i as int], v, lookup);
    assert Significant(letters, lookup) == Block(v, k);
    assert Block(i, k)[0] == i && Block(v, k)[0] == v;
    if other == message {
      BitsDetermine(Block(i, k), Block(v, k), k);
    }
  }

  /** With an alphabet of the right size and the table that is built for it, every message is read back if
      and only if no character stands for two values. */
  lemma ReadBackExactly(k: nat, alphabet: seq<Byte>, lookup: seq<int>, caseInsensitive: bool)
    requires 1 <= k <= 7 && |alphabet| == Base(k) && |lookup| == 256
    requires IsTable(lookup, Codes(alphabet), |alphabet|, caseInsensitive)
    ensures (forall message :: ReadBack(message, k, alphabet, lookup)) <==> Unambiguous(Codes(alphabet), |alphabet|, caseInsensitive)
  {
    hide IsTable, Unambiguous, ReadBack, Base, Inverts;
    TableInverts(lookup, alphabet, caseInsensitive, k);
    if Unambiguous(Codes(alphabet), |alphabet|, caseInsensitive) {
      forall message
        ensures ReadBack(message, k, alphabet, lookup)
      {
        InvertsReadsBack(message, k, alphabet, lookup);
      }
    } else {
      var message := SomeNotReadBack(k, alphabet, lookup, caseInsensitive);
    }
  }

  lemma SomeNotReadBack(k: nat, alphabet: seq<Byte>, lookup: seq<int>, caseInsensitive: bool) returns (message: seq<Byte>)
    requires 1 <= k <= 7 && |alphabet| == Base(k) && |lookup| == 256 && !Inverts(lookup, alphabet)
    requires IsTable(lookup, Codes(alphabet), |alphabet|, caseInsensitive)
    ensures !ReadBack(message, k, alphabet, lookup)
  {
    hide IsTable, ReadBack, Base;
    BaseIsSmall(k);
    var n: nat :| n < |alphabet| && lookup[alphabet[n] as int] != n;
    LetterValue(k, alphabet, lookup, caseInsensitive, n);
    var i, v := ToByte(n), ToByte(lookup[alphabet[n] as int]);
    message := ReadAsOther(i, v, k, alphabet, lookup);
  }

  function ToByte(n: int): (b: Byte)
    requires 0 <= n < 256
    ensures b as int == n
  {
    if n == 0 then 0
    else
      NextByte(ToByte(n - 1));
      ToByte(n - 1) + 1
  }

  lemma NextByte(b: Byte)
    requires b as int < 255
    ensures (b + 1) as int == b as int + 1
  {
  }

  lemma InvertsReadsBack(message: seq<Byte>, k: nat, alphabet: seq<Byte>, lookup: seq<int>)
    requires 1 <= k <= 7 && |lookup| == 256 && Inverts(lookup, alphabet)
    ensures ReadBack(message, k, alphabet, lookup)
  {
    hide IsEncoding, IsDecoding, AllSmall, Significant, Inverts;
    forall values, bytes | IsEncoding(message, values, k) && AllSmall(values, |alphabet|)
      ensures IsDecoding(Significant(Letters(values, alphabet), lookup), bytes, k) ==> bytes == message
    {
      LettersSignificant(values, alphabet, lookup);
      if IsDecoding(values, bytes, k) {
        DecodingUndoesEncoding(message, values, bytes, k);
      }
    }
  }

  lemma LetterValue(k: nat, alphabet: seq<Byte>, lookup: seq<int>, caseInsensitive: bool, i: nat)
    requires 1 <= k <= 7 && |alphabet| == Base(k) && |lookup| == 256 && i < |alphabet|
    requires IsTable(lookup, Codes(alphabet), |alphabet|, caseInsensitive)
    ensures 0 <= lookup[alphabet[i] as int] < 256 && i < 256
    ensures Fits(ToByte(i), k) && Fits(ToByte(lookup[alphabet[i] as int]), k)
  {
    hide IsTable, Base;
    BaseIsSmall(k);
    EntryOfLetter(lookup, Codes(alphabet), i, caseInsensitive);
    SmallFits(i, k);
    SmallFits(lookup[alphabet[i] as int], k);
  }

  /** "aA" is such an alphabet for one bit if case does not matter, and only then. */
  lemma LettersOfOneBit(caseInsensitive: bool)
    ensures |[97, 65]| == Base(1)
    ensures Unambiguous(Codes([97, 65]), 2, caseInsensitive) <==> !caseInsensitive
  {
    var codes := Codes([97, 65]);
    assert codes == [97, 65];
    if caseInsensitive {
      assert Matches(codes[0], 97, true) && Matches(codes[1], 97, true);
    }
  }
}
