/** The decoder: characters that come in pieces are unpacked into bytes. */
module BaseDecoder {
  import opened BaseCode
  import opened BitPacking
  import opened ByteBits

  /** Where the bits of a value go when they all go into the byte that is being filled. */
  lemma ValueWithin(v: Byte, k: nat, p: nat)
    requires 1 <= k && p + k <= 8 && Fits(v, k)
    ensures var x := ElementBits(Left(v, 8 - (p + k)), 8);
      AllFalse(x[..p]) && x[p..p + k] == ElementBits(v, k) && AllFalse(x[p + k..])
  {
    var s := 8 - (p + k);
    LeftBits(v, s);
    NarrowBits(v, k);
    hide ElementBits, Left;
    var x, e := ElementBits(Left(v, s), 8), ElementBits(v, 8);
    forall i | 0 <= i < p
      ensures !x[i]
    {
      assert x[i] == x[..8 - s][i] == e[s..][i] == e[..8 - k][i + s];
    }
    assert x[p..p + k] == x[..8 - s][p..] == e[s..][p..] == e[8 - k..];
  }

  /** And when only the first 8 - p do, */
  lemma ValueHigh(v: Byte, k: nat, p: nat)
    requires 1 <= k <= 8 && p < 8 < p + k && Fits(v, k)
    ensures var x := ElementBits(Right(v, p + k - 8), 8); AllFalse(x[..p]) && x[p..] == ElementBits(v, k)[..8 - p]
  {
    var s := p + k - 8;
    RightBits(v, 8, s);
    NarrowBits(v, k);
    Shifted(ElementBits(Right(v, s), 8), ElementBits(v, 8), k, s);
  }

  lemma Shifted(x: seq<bool>, e: seq<bool>, k: nat, s: nat)
    requires |x| == |e| == 8 && s < k <= 8 && AllFalse(x[..s]) && x[s..] == e[..8 - s] && AllFalse(e[..8 - k])
    ensures AllFalse(x[..8 + s - k]) && x[8 + s - k..] == e[8 - k..][..k - s]
  {
    forall i | 0 <= i < 8 + s - k
      ensures !x[i]
    {
      assert i < s ==> x[i] == x[..s][i];
      assert i >= s ==> x[i] == x[s..][i - s] == e[..8 - k][i - s];
    }
    assert x[8 + s - k..] == x[s..][8 - k..];
  }

  /** the last s come first in the next byte. */
  lemma ValueLow(v: Byte, k: nat, s: nat)
    requires 1 <= s < k <= 8 && Fits(v, k)
    ensures var y := ElementBits(Left(v, 8 - s), 8); y[..s] == ElementBits(v, k)[k - s..] && AllFalse(y[s..])
  {
    LeftBits(v, 8 - s);
    NarrowBits(v, k);
    hide ElementBits, Left;
    var e := ElementBits(v, 8);
    assert e[8 - s..] == e[8 - k..][k - s..];
  }

  lemma DecodeWithin(buf: seq<Byte>, n: nat, p: nat, k: nat, v: Byte)
    requires n < |buf| && 1 <= k && p + k <= 8 && p < 8 && Clean(buf, n, p, 8) && Fits(v, k)
    ensures var m, q := if p + k == 8 then n + 1 else n, if p + k == 8 then 0 else p + k;
      var after := buf[n := buf[n] | Left(v, 8 - (p + k))];
      Clean(after, m, q, 8) && Packed(after, m, q, 8) == Packed(buf, n, p, 8) + ElementBits(v, k)
  {
    ValueWithin(v, k, p);
    AnyFits(Left(v, 8 - (p + k)));
    hide Clean, Packed, ElementBits, Fits, AllFalse, Left;
    if p + k == 8 {
      Whole(ElementBits(Left(v, 8 - (p + k)), 8), ElementBits(Left(v, 8 - (p + k)), 8), 8, p);
      PutRest(buf, n, p, 8, Left(v, 8 - (p + k)));
    } else {
      PutSome(buf, n, p, 8, Left(v, 8 - (p + k)), k);
    }
  }

  lemma DecodeHigh(buf: seq<Byte>, n: nat, p: nat, k: nat, v: Byte)
    requires n < |buf| && 1 <= k <= 8 && p < 8 < p + k && Clean(buf, n, p, 8) && Fits(v, k)
    ensures var after := buf[n := buf[n] | Right(v, p + k - 8)];
      Clean(after, n + 1, 0, 8) && Packed(after, n + 1, 0, 8) == Packed(buf, n, p, 8) + ElementBits(v, k)[..8 - p]
  {
    hide Clean, Packed, ElementBits, Right;
    ValueHigh(v, k, p);
    AnyFits(Right(v, p + k - 8));
    PutRest(buf, n, p, 8, Right(v, p + k - 8));
  }

  lemma DecodeLow(buf: seq<Byte>, n: nat, p: nat, k: nat, v: Byte)
    requires n < |buf| && 1 <= k <= 7 && p < 8 < p + k && Clean(buf, n, 0, 8) && Fits(v, k)
    ensures var after := buf[n := buf[n] | Left(v, 16 - (p + k))];
      Clean(after, n, p + k - 8, 8) && Packed(after, n, p + k - 8, 8) == Packed(buf, n, 0, 8) + ElementBits(v, k)[8 - p..]
  {
    hide Clean, Packed, ElementBits, Left;
    var s := p + k - 8;
    ValueLow(v, k, s);
    AnyFits(Left(v, 8 - s));
    Ends(ElementBits(Left(v, 8 - s), 8), s);
    PutSome(buf, n, 0, 8, Left(v, 8 - s), s);
  }

  lemma AnyFits(v: Byte)
    ensures Fits(v, 8)
  {
  }

  /** The values of the characters that have one; all others are skipped. */
  ghost function Significant(text: seq<Byte>, lookup: seq<int>): seq<Byte>
    requires |lookup| == 256
  {
    if text == [] then [] else
      var value := lookup[text[|text| - 1] as int];
      Significant(text[..|text| - 1], lookup) + if 0 <= value < 256 then [value as Byte] else []
  }

  /** All values of the table have at most k bits. */
  ghost predicate IsLookup(lookup: seq<int>, k: nat) {
    |lookup| == 256 && forall i :: 0 <= i < 256 && 0 <= lookup[i] < 256 ==> Fits(lookup[i] as Byte, k)
  }

  class BaseNDecoder {
    const k: nat
    const lookup: seq<int>
    const outBuf: array<Byte>
    var bytePos: nat
    var bitPos: nat
    // What went to the attached filter
    var output: seq<Byte>
    // The text of the current message so far, the bytes from it that are in the output, and the output before it
    ghost var text: seq<Byte>
    ghost var done: seq<Byte>
    ghost var before: seq<Byte>

    ghost predicate Ready()
      reads this, outBuf
    {
      && 1 <= k <= 7 && |lookup| == 256 && IsLookup(lookup, k) && 8 * outBuf.Length == BlockBits(k)
      && bitPos < 8 && bytePos <= outBuf.Length
    }

    ghost predicate Valid()
      reads this, outBuf
    {
      && Ready() && bytePos < outBuf.Length && output == before + done
      && (8 * bytePos + bitPos) % k == 0
      && (bytePos > 0 || bitPos > 0 ==> Clean(outBuf[..], bytePos, bitPos, 8))
      && Bits(Significant(text, lookup), k)
        == Bits(done, 8) + (if bytePos == 0 == bitPos then [] else Packed(outBuf[..], bytePos, bitPos, 8))
    }

    constructor (k: nat, lookup: seq<int>)
      requires 1 <= k <= 7 && IsLookup(lookup, k)
      ensures Valid() && text == [] && before == [] && fresh(outBuf)
      ensures this.k == k && this.lookup == lookup
    {
      this.k, this.lookup := k, lookup;
      bytePos, bitPos, output, text, done, before := 0, 0, [], [], [], [];
      var bytes := DecoderBlock(k);
      outBuf := new Byte[bytes];
    }

    /** A value whose last bits go into the next byte. */
    method PutAcross(value: Byte, newBitPos: nat)
      requires Ready() && Clean(outBuf[..], bytePos, bitPos, 8) && Fits(value, k)
      requires 8 < newBitPos == bitPos + k && bytePos + 1 < outBuf.Length
      modifies outBuf
      ensures Clean(outBuf[..], bytePos + 1, newBitPos - 8, 8)
      ensures Packed(outBuf[..], bytePos + 1, newBitPos - 8, 8)
        == old(Packed(outBuf[..], bytePos, bitPos, 8)) + ElementBits(value, k)
    {
      hide Clean, Packed, ElementBits, Fits, IsLookup, BlockBits, Right, Left;
      Rejoin(Packed(outBuf[..], bytePos, bitPos, 8), ElementBits(value, k), 8 - bitPos);
      OrHigh(value);
      OrLow(value);
    }

    method OrHigh(value: Byte)
      requires Ready() && Clean(outBuf[..], bytePos, bitPos, 8) && Fits(value, k) && 8 < bitPos + k && bytePos < outBuf.Length
      modifies outBuf
      ensures Clean(outBuf[..], bytePos + 1, 0, 8)
      ensures Packed(outBuf[..], bytePos + 1, 0, 8)
        == old(Packed(outBuf[..], bytePos, bitPos, 8)) + ElementBits(value, k)[..8 - bitPos]
    {
      hide Clean, Packed, ElementBits, Fits, IsLookup, BlockBits, Right, Left;
      DecodeHigh(outBuf[..], bytePos, bitPos, k, value);
      OrInto(outBuf, bytePos, Right(value, bitPos + k - 8));
    }

    method OrLow(value: Byte)
      requires Ready() && Fits(value, k) && 8 < bitPos + k && bytePos + 1 < outBuf.Length && Clean(outBuf[..], bytePos + 1, 0, 8)
      modifies outBuf
      ensures Clean(outBuf[..], bytePos + 1, bitPos + k - 8, 8)
      ensures Packed(outBuf[..], bytePos + 1, bitPos + k - 8, 8)
        == old(Packed(outBuf[..], bytePos + 1, 0, 8)) + ElementBits(value, k)[8 - bitPos..]
    {
      hide Clean, Packed, ElementBits, Fits, IsLookup, BlockBits, Right, Left;
      DecodeLow(outBuf[..], bytePos + 1, bitPos, k, value);
      OrInto(outBuf, bytePos + 1, Left(value, 16 - (bitPos + k)));
    }

    /** The bits of one value into the buffer. */
    method PutValue(value: Byte)
      requires Ready() && Clean(outBuf[..], bytePos, bitPos, 8) && Fits(value, k)
      requires 8 * bytePos + bitPos + k <= 8 * outBuf.Length
      modifies this`bytePos, this`bitPos, outBuf
      ensures Ready() && Clean(outBuf[..], bytePos, bitPos, 8)
      ensures 8 * bytePos + bitPos == old(8 * bytePos + bitPos) + k
      ensures Packed(outBuf[..], bytePos, bitPos, 8) == old(Packed(outBuf[..], bytePos, bitPos, 8)) + ElementBits(value, k)
    {
      hide Clean, Packed, ElementBits, Fits, BlockBits, IsLookup, Left;
      var newBitPos := bitPos + k;
      if newBitPos <= 8 {
        DecodeWithin(outBuf[..], bytePos, bitPos, k, value);
        OrInto(outBuf, bytePos, Left(value, 8 - newBitPos));
      } else {
        PutAcross(value, newBitPos);
      }
      bitPos := newBitPos;
      ghost var start, buf := bytePos, outBuf[..];
      while bitPos >= 8
        invariant 8 * bytePos + bitPos == 8 * start + newBitPos && bytePos >= start && outBuf[..] == buf
        decreases bitPos
      {
        bitPos := bitPos - 8;
        bytePos := bytePos + 1;
      }
      assert bytePos == if newBitPos < 8 then start else start + 1;
    }

    /** A new block begins with a cleared buffer. */
    method PrepareBlock()
      requires Valid()
      modifies outBuf
      ensures Ready() && Clean(outBuf[..], bytePos, bitPos, 8)
      ensures Bits(Significant(text, lookup), k) == Bits(done, 8) + Packed(outBuf[..], bytePos, bitPos, 8)
    {
      hide Clean, Packed, ElementBits, BlockBits, Bits, IsLookup, Significant;
      if bytePos == 0 && bitPos == 0 {
        forall i | 0 <= i < outBuf.Length {
          outBuf[i] := 0;
        }
        EmptyBuffer(outBuf[..], 8);
      }
    }

    method EmitBlock()
      requires Ready() && Clean(outBuf[..], bytePos, bitPos, 8) && bytePos == outBuf.Length > 0
      requires Bits(Significant(text, lookup), k) == Bits(done, 8) + Packed(outBuf[..], bytePos, bitPos, 8)
      requires output == before + done
      modifies this`bytePos, this`bitPos, this`output, this`done
      ensures Valid()
    {
      hide ElementBits, BlockBits, Bits, IsLookup, Significant;
      ghost var block := outBuf[..];
      assert block[..bytePos] == block && bitPos == 0;
      NothingPacked(block, bytePos, 8);
      BitsJoin(done, block, 8);
      Associate(before, done, block);
      output := output + outBuf[..];
      done := done + block;
      bytePos, bitPos := 0, 0;
    }

    /** One character: skipped if it has no value; a full block goes to the output. */
    method DecodeCharacter(c: Byte)
      requires Valid()
      modifies this, outBuf
      ensures Valid() && text == old(text) + [c] && before == old(before)
    {
      hide Clean, Packed, ElementBits, Fits, BlockBits, Bits;
      assert (text + [c])[..|text|] == text;
      var value := lookup[c as int];
      if value < 0 || value >= 256 {
        assert Significant(text + [c], lookup) == Significant(text, lookup);
        text := text + [c];
      } else {
        TakeValue(c, value as Byte);
      }
    }

    method TakeValue(c: Byte, value: Byte)
      requires Valid() && Fits(value, k) && Significant(text + [c], lookup) == Significant(text, lookup) + [value]
      modifies this, outBuf
      ensures Valid() && text == old(text) + [c] && before == old(before)
    {
      hide Clean, Packed, ElementBits, Fits, BlockBits, Bits, Significant, IsLookup;
      BitsOne(Significant(text, lookup), value, k);
      RoomForValue(k, outBuf.Length, 8 * bytePos + bitPos);
      PrepareBlock();
      Associate(Bits(done, 8), Packed(outBuf[..], bytePos, bitPos, 8), ElementBits(value, k));
      PutValue(value);
      text := text + [c];
      if bytePos == outBuf.Length {
        EmitBlock();
      }
    }

    /** The complete bytes in the buffer are the last ones of the message. */
    lemma Finished()
      requires Valid()
      ensures IsDecoding(Significant(text, lookup), done + outBuf[..bytePos], k)
    {
      hide Clean, ElementBits, BlockBits, Significant, IsLookup, IsDecoding;
      if bytePos == 0 == bitPos {
        NothingPacked([], 0, 8);
        Complete(Significant(text, lookup), done, [], 0, 0, k);
        assert outBuf[..0] == [];
      } else {
        Complete(Significant(text, lookup), done, outBuf[..], bytePos, bitPos, k);
      }
    }

    /** The end of a message: the complete bytes in the buffer go out. */
    method EndMessage() returns (ghost bytes: seq<Byte>)
      requires Valid()
      modifies this
      ensures Valid() && text == [] && before == output
      ensures IsDecoding(Significant(old(text), lookup), bytes, k) && output == old(before) + bytes
    {
      hide Clean, ElementBits, BlockBits, Bits, Significant, IsLookup, IsDecoding, Packed;
      Finished();
      bytes := done + outBuf[..bytePos];
      Associate(before, done, outBuf[..bytePos]);
      output := output + outBuf[..bytePos];
      bytePos, bitPos := 0, 0;
      text, done, before := [], [], output;
      Nothing(lookup, k);
    }

    /** `Put2`: however the text is cut into calls, only the whole text matters. */
    method Put(input: seq<Byte>, messageEnd: bool) returns (ghost bytes: seq<Byte>)
      requires Valid()
      modifies this, outBuf
      ensures Valid()
      ensures !messageEnd ==> text == old(text) + input && before == old(before)
      ensures messageEnd ==> text == [] && before == output
      ensures messageEnd ==> IsDecoding(Significant(old(text) + input, lookup), bytes, k) && output == old(before) + bytes
    {
      hide Ready, Bits, Significant, IsDecoding;
      for i := 0 to |input|
        invariant Valid() && text == old(text) + input[..i] && before == old(before)
      {
        assert input[..i + 1] == input[..i] + [input[i]];
        DecodeCharacter(input[i]);
      }
      assert input[..|input|] == input;
      bytes := [];
      if messageEnd {
        bytes := EndMessage();
      }
    }
  }

  /** What is left in the buffer behind its complete bytes is less than a byte. */
  lemma Complete(values: seq<Byte>, done: seq<Byte>, buf: seq<Byte>, n: nat, p: nat, k: nat)
    requires k <= 8 && n <= |buf| && p < 8 && Bits(values, k) == Bits(done, 8) + Packed(buf, n, p, 8)
    ensures IsDecoding(values, done + buf[..n], k)
  {
    hide ElementBits;
    BitsJoin(done, buf[..n], 8);
    var rest := if n < |buf| then ElementBits(buf[n], 8)[..p] else [];
    Associate(Bits(done, 8), Bits(buf[..n], 8), rest);
  }

  lemma Nothing(lookup: seq<int>, k: nat)
    requires |lookup| == 256 && k <= 8
    ensures Bits(Significant([], lookup), k) == Bits([], 8) + []
  {
  }

  lemma RoomForValue(k: nat, block: nat, at: nat)
    requires 1 <= k <= 7 && 8 * block == BlockBits(k) && at < 8 * block && at % k == 0
    ensures at + k <= 8 * block && (at + k) % k == 0
  {
    if k == 1 {
    } else if k == 2 {
    } else if k == 3 {
    } else if k == 4 {
    } else if k == 5 {
    } else if k == 6 {
    } else {
    }
  }

  lemma Ends(y: seq<bool>, s: nat)
    requires s <= |y|
    ensures AllFalse(y[..0]) && y[0..0 + s] == y[..s] && y[0 + s..] == y[s..]
  {
  }

  lemma Rejoin(start: seq<bool>, e: seq<bool>, c: nat)
    requires c <= |e|
    ensures start + e[..c] + e[c..] == start + e
  {
  }
}
