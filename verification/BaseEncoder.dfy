/** The encoder: bytes that come in pieces are packed into characters of k bits. */
module BaseEncoder {
  import opened BaseCode
  import opened BitPacking
  import opened ByteBits

  /** One round of the encoder's inner loop when it fills a character up. */
  lemma EncodeFull(buf: seq<Byte>, n: nat, p: nat, w: nat, b: Byte)
    requires n < |buf| && p < w <= 8 && Clean(buf, n, p, w)
    ensures var after := buf[n := buf[n] | Right(b, 8 - (w - p))];
      Clean(after, n + 1, 0, w) && Packed(after, n + 1, 0, w) == Packed(buf, n, p, w) + ElementBits(b, 8)[..w - p]
  {
    hide Clean, Packed, ElementBits, Fits, Right;
    RightBits(b, w, p);
    PutRest(buf, n, p, w, Right(b, 8 - (w - p)));
  }

  /** And when the byte has fewer bits left than the character needs. */
  lemma EncodePart(buf: seq<Byte>, n: nat, p: nat, w: nat, b: Byte, left: nat)
    requires n < |buf| && p + left < w <= 8 && Clean(buf, n, p, w) && AllFalse(ElementBits(b, 8)[left..])
    ensures var after := buf[n := buf[n] | Right(b, 8 - (w - p))];
      Clean(after, n, p + left, w) && Packed(after, n, p + left, w) == Packed(buf, n, p, w) + ElementBits(b, 8)[..left]
  {
    hide Clean, Packed, ElementBits, Fits, Right;
    RightBits(b, w, p);
    var x, e := ElementBits(Right(b, 8 - (w - p)), w), ElementBits(b, 8);
    forall i | p + left <= i < w
      ensures x[i] == e[left..][i - p - left]
    {
      assert x[i] == x[p..][i - p] == e[i - p];
    }
    assert x[p..p + left] == x[p..][..left] == e[..left];
    PutSome(buf, n, p, w, Right(b, 8 - (w - p)), left);
  }

  /** Where n whole elements of k bits and p bits more end. */
  function Position(k: nat, n: nat, p: nat): nat {
    k * n + p
  }

  lemma Advance(k: nat, n: nat, p: nat, c: nat)
    requires p + c <= k
    ensures Position(k, n, p + c) == Position(k, n, p) + c && Position(k, n + 1, 0) == Position(k, n, p) + (k - p)
  {
    assert k * (n + 1) == k * n + k;
  }

  lemma Inside(k: nat, n: nat, p: nat, m: nat)
    requires Position(k, n, p) < Position(k, m, 0)
    ensures n < m
  {
    assert n >= m ==> k * n >= k * m;
  }

  lemma EightMore(k: nat, n: nat, p: nat, before: nat)
    requires k <= 7 && p < k && Position(k, n, p) == before + 8
    ensures n > 0 && Position(k, n, p) % 8 == before % 8
  {
    assert n == 0 ==> k * n == 0;
  }

  lemma BlockSize(k: nat, block: nat)
    requires 1 <= k <= 7 && block == Characters(k)
    ensures block in {2, 4, 8}
  {
  }

  lemma WholeBlocks(k: nat, block: nat, n: nat, m: nat)
    requires 1 <= k <= 7 && block == Characters(k) && n % block == 0 && m <= block
    ensures block in {2, 4, 8} && PadCount(n + m, block) == (if m == 0 || m == block then 0 else block - m)
    ensures m == block ==> (n + m) % block == 0
  {
    BlockSize(k, block);
    PadCounts(n, m, block);
  }

  lemma PadCounts(n: nat, m: nat, block: nat)
    requires block in {2, 4, 8} && n % block == 0 && m <= block
    ensures PadCount(n + m, block) == (if m == 0 || m == block then 0 else block - m)
    ensures m == block ==> (n + m) % block == 0
  {
    var q, up := n / block, if m == block then 1 else 0;
    if block == 2 {
      assert n == 2 * q && (n + m) / 2 == q + up;
    } else if block == 4 {
      assert n == 4 * q && (n + m) / 4 == q + up;
    } else {
      assert n == 8 * q && (n + m) / 8 == q + up;
    }
  }

  /** A message that ends between two characters. */
  lemma EndsEven(message: seq<Byte>, values: seq<Byte>, buf: seq<Byte>, n: nat, k: nat)
    requires 1 <= k <= 7 && n <= |buf| && AllFit(values, k) && AllFit(buf, k)
    requires Bits(message, 8) == Bits(values, k) + Packed(buf, n, 0, k)
    ensures IsEncoding(message, values + buf[..n], k) && Bits(message, 8) == Bits(values + buf[..n], k)
  {
    hide Fits;
    NothingPacked(buf, n, k);
    BitsJoin(values, buf[..n], k);
    assert AllFit(values + buf[..n], k);
  }

  /** A message that ends inside a character: its other bits are the zeros that fill up. */
  lemma EndsInside(message: seq<Byte>, values: seq<Byte>, buf: seq<Byte>, n: nat, p: nat, k: nat)
    requires 1 <= k <= 7 && n < |buf| && 0 < p < k && AllFit(values, k) && Clean(buf, n, p, k)
    requires Bits(message, 8) == Bits(values, k) + Packed(buf, n, p, k)
    ensures IsEncoding(message, values + buf[..n + 1], k)
  {
    hide Fits, ElementBits;
    var e := ElementBits(buf[n], k);
    assert buf[..n + 1] == buf[..n] + [buf[n]];
    BitsOne(buf[..n], buf[n], k);
    BitsJoin(values, buf[..n + 1], k);
    assert AllFit(values + buf[..n + 1], k);
    Fill(Bits(values, k), Bits(buf[..n], k), e, p);
  }

  lemma Fill(a: seq<bool>, b: seq<bool>, e: seq<bool>, p: nat)
    requires p <= |e|
    ensures var m, v := a + (b + e[..p]), a + (b + e); m <= v && v[|m|..] == e[p..]
  {
    var m, v := a + (b + e[..p]), a + (b + e);
    assert v == m + e[p..];
  }

  class BaseNEncoder {
    const k: nat
    const alphabet: seq<Byte>
    const padding: Padding
    const outBuf: array<Byte>
    var bytePos: nat
    var bitPos: nat
    // What went to the attached filter
    var output: seq<Byte>
    // The current message so far, its values that are already in the output, and the output before it
    ghost var message: seq<Byte>
    ghost var values: seq<Byte>
    ghost var before: seq<Byte>

    ghost predicate Ready()
      reads this, outBuf
    {
      && 1 <= k <= 7 && |alphabet| == Base(k) && outBuf.Length == Characters(k)
      && bitPos < k && bytePos <= outBuf.Length
    }

    ghost predicate Valid()
      reads this, outBuf
    {
      && Ready() && bytePos < outBuf.Length && Buffered() && Emitted()
      && Bits(message, 8) == Bits(values, k) + (if bytePos == 0 then [] else Packed(outBuf[..], bytePos, bitPos, k))
    }

    /** The buffer is at a byte boundary of its block, and cleared behind what is in it unless it is empty. */
    ghost predicate Buffered()
      reads this, outBuf
      requires Ready()
    {
      Position(k, bytePos, bitPos) % 8 == 0 && if bytePos == 0 then bitPos == 0 else Clean(outBuf[..], bytePos, bitPos, k)
    }

    ghost predicate Emitted()
      reads this`values, this`output, this`before
      requires 1 <= k <= 7
    {
      && outBuf.Length > 0 && |values| % outBuf.Length == 0
      && AllFit(values, k) && AllSmall(values, |alphabet|) && output == before + Letters(values, alphabet)
    }

    constructor (k: nat, alphabet: seq<Byte>, padding: Padding)
      requires 1 <= k <= 7 && |alphabet| == Base(k)
      ensures Valid() && message == [] && before == [] && fresh(outBuf)
      ensures this.k == k && this.alphabet == alphabet && this.padding == padding
    {
      this.k, this.alphabet, this.padding := k, alphabet, padding;
      bytePos, bitPos, output, message, values, before := 0, 0, [], [], [], [];
      var characters := EncoderBlock(k);
      WholeBlocks(k, characters, 0, 0);
      outBuf := new Byte[characters];
    }

    /** Replaces the first n values of the buffer by their letters. */
    method Translate(n: nat)
      requires n <= outBuf.Length && AllSmall(outBuf[..n], |alphabet|)
      modifies outBuf
      ensures outBuf[..] == Letters(old(outBuf[..n]), alphabet) + old(outBuf[n..])
    {
      ghost var was := outBuf[..n];
      for i := 0 to n
        invariant forall j :: 0 <= j < n ==> outBuf[j] == if j < i then alphabet[was[j] as int] else was[j]
        invariant forall j :: n <= j < outBuf.Length ==> outBuf[j] == old(outBuf[j])
      {
        assert was[i] as int < |alphabet|;
        outBuf[i] := alphabet[outBuf[i] as int];
      }
    }

    /** A new block begins with a cleared buffer. */
    method PrepareBlock()
      requires Valid()
      modifies outBuf
      ensures Ready() && Clean(outBuf[..], bytePos, bitPos, k)
      ensures Bits(message, 8) == Bits(values, k) + Packed(outBuf[..], bytePos, bitPos, k)
    {
      hide Clean, Packed, ElementBits, Fits, BlockBits, Base, Position, Emitted, Bits;
      if bytePos == 0 {
        forall i | 0 <= i < outBuf.Length {
          outBuf[i] := 0;
        }
        EmptyBuffer(outBuf[..], k);
      }
    }

    /** One byte of the input; a full block goes to the output. */
    method EncodeByte(byte: Byte)
      requires Valid()
      modifies this, outBuf
      ensures Valid() && message == old(message) + [byte] && before == old(before)
    {
      hide Clean, Packed, ElementBits, Fits, AllSmall, BlockBits, Base, Position, Emitted, Bits;
      BitsOne(message, byte, 8);
      RoomForByte(k, outBuf.Length, bytePos, bitPos);
      PrepareBlock();
      Associate(Bits(values, k), Packed(outBuf[..], bytePos, bitPos, k), ElementBits(byte, 8));
      PutByte(byte);
      message := message + [byte];
      if bytePos == outBuf.Length {
        EmitBlock();
      }
    }

    method EmitBlock()
      requires Ready() && Emitted() && Clean(outBuf[..], bytePos, bitPos, k) && bytePos == outBuf.Length
      requires Bits(message, 8) == Bits(values, k) + Packed(outBuf[..], bytePos, bitPos, k)
      modifies this`bytePos, this`bitPos, this`output, this`values, outBuf
      ensures Valid()
    {
      hide Packed, ElementBits, Fits, BlockBits, Base, AllSmall, Letters;
      ghost var block := outBuf[..];
      assert block[..bytePos] == block && bitPos == 0;
      EndsEven(message, values, block, bytePos, k);
      WholeBlocks(k, outBuf.Length, |values|, outBuf.Length);
      FitAreSmall(block, k);
      LettersJoin(values, block, alphabet);
      Translate(outBuf.Length);
      output := output + outBuf[..];
      AllFitJoin(values, block, k);
      values := values + block;
      bytePos, bitPos := 0, 0;
    }

    /** A character that was begun counts as one. */
    method FinishCharacter() returns (ghost vs: seq<Byte>)
      requires Valid()
      modifies this`bytePos
      ensures bytePos <= outBuf.Length && vs == outBuf[..bytePos] && AllFit(vs, k) && IsEncoding(message, values + vs, k)
    {
      hide Packed, ElementBits, Fits, BlockBits, Base, AllSmall, Letters, Position, IsEncoding;
      if bytePos == 0 {
        NothingPacked([], 0, k);
        EndsEven(message, values, [], 0, k);
        assert outBuf[..0] == [];
      } else if bitPos == 0 {
        EndsEven(message, values, outBuf[..], bytePos, k);
      } else {
        EndsInside(message, values, outBuf[..], bytePos, bitPos, k);
      }
      if bitPos > 0 {
        bytePos := bytePos + 1;
      }
      vs := outBuf[..bytePos];
    }

    /** What is in the buffer goes out, filled up with padding if there is any. */
    method EmitPadded(ghost vs: seq<Byte>)
      requires bytePos <= outBuf.Length && vs == outBuf[..bytePos] && AllSmall(vs, |alphabet|)
      modifies this`bytePos, this`output, outBuf
      ensures output == old(output) + Letters(vs, alphabet)
        + Pads(if old(bytePos) == 0 then 0 else outBuf.Length - old(bytePos), padding)
    {
      hide AllSmall, Letters;
      Translate(bytePos);
      ghost var n := bytePos;
      ghost var letters := Letters(vs, alphabet);
      if padding != NoPadding && bytePos > 0 {
        forall i | bytePos <= i < outBuf.Length {
          outBuf[i] := padding.letter;
        }
        bytePos := outBuf.Length;
      }
      assert outBuf[..n] == letters;
      assert outBuf[..bytePos] == letters + Pads(if n == 0 then 0 else outBuf.Length - n, padding);
      output := output + outBuf[..bytePos];
    }

    /** The end of a message: what is left goes out, with padding if there is any. */
    method EndMessage() returns (ghost all: seq<Byte>)
      requires Valid()
      modifies this, outBuf
      ensures Valid() && message == [] && before == output
      ensures IsEncoding(old(message), all, k) && AllSmall(all, |alphabet|)
      ensures output == old(before) + Text(all, alphabet, padding, outBuf.Length)
    {
      hide Packed, Bits, Fits, BlockBits, Base, AllSmall, Letters, Position, IsEncoding, Pads, PadCount;
      ghost var vs := FinishCharacter();
      all := values + vs;
      FitAreSmall(vs, k);
      LettersJoin(values, vs, alphabet);
      WholeBlocks(k, outBuf.Length, |values|, bytePos);
      EmitPadded(vs);
      BeginMessage();
    }

    method BeginMessage()
      requires 1 <= k <= 7 && |alphabet| == Base(k) && outBuf.Length == Characters(k) && outBuf.Length > 0
      modifies this
      ensures Valid() && message == [] && before == output == old(output)
    {
      hide BlockBits, Base;
      bytePos, bitPos := 0, 0;
      message, values, before := [], [], output;
    }

    /** `Put2`: however the message is cut into calls, only the whole message matters. */
    method Put(input: seq<Byte>, messageEnd: bool) returns (ghost all: seq<Byte>)
      requires Valid()
      modifies this, outBuf
      ensures Valid() && outBuf.Length > 0 && outBuf.Length == Characters(k)
      ensures !messageEnd ==> message == old(message) + input && before == old(before)
      ensures messageEnd ==> message == [] && before == output
      ensures messageEnd ==> IsEncoding(old(message) + input, all, k) && AllSmall(all, |alphabet|)
      ensures messageEnd ==> output == old(before) + Text(all, alphabet, padding, outBuf.Length)
    {
      hide Buffered, Emitted, Bits, IsEncoding, AllSmall, Text, BlockBits, Base, Packed;
      for i := 0 to |input|
        invariant Valid() && message == old(message) + input[..i] && before == old(before)
      {
        assert input[..i + 1] == input[..i] + [input[i]];
        EncodeByte(input[i]);
      }
      assert input[..|input|] == input;
      all := [];
      if messageEnd {
        all := EndMessage();
      }
    }

    /** The inner loop of `Put2`: one byte into the buffer. */
    method PutByte(byte: Byte)
      requires Ready() && Clean(outBuf[..], bytePos, bitPos, k)
      requires Position(k, bytePos, bitPos) + 8 <= Position(k, outBuf.Length, 0)
      modifies this`bytePos, this`bitPos, outBuf
      ensures Ready() && bytePos > 0 && Clean(outBuf[..], bytePos, bitPos, k)
      ensures Position(k, bytePos, bitPos) % 8 == old(Position(k, bytePos, bitPos)) % 8
      ensures Packed(outBuf[..], bytePos, bitPos, k) == old(Packed(outBuf[..], bytePos, bitPos, k)) + ElementBits(byte, 8)
    {
      hide Clean, Packed, ElementBits, AllFalse, Position, BlockBits, Base;
      var b, left := byte, 8;
      ghost var all := ElementBits(byte, 8);
      ghost var start := Packed(outBuf[..], bytePos, bitPos, k);
      WholeByte(all, start);
      while left != 0
        invariant Ready() && Clean(outBuf[..], bytePos, bitPos, k)
        invariant 0 <= left <= 8 && Position(k, bytePos, bitPos) + left == old(Position(k, bytePos, bitPos)) + 8
        invariant Packed(outBuf[..], bytePos, bitPos, k) == start + all[..8 - left]
        invariant left > 0 ==> ElementBits(b, 8)[..left] == all[8 - left..] && AllFalse(ElementBits(b, 8)[left..])
        decreases left
      {
        b, left := PutPart(b, left, all, start);
      }
      EightMore(k, bytePos, bitPos, old(Position(k, bytePos, bitPos)));
    }

    /** One round of that loop: fills a character up, or uses the byte up. */
    method PutPart(bIn: Byte, leftIn: nat, ghost all: seq<bool>, ghost start: seq<bool>) returns (b: Byte, left: nat)
      requires Ready() && Clean(outBuf[..], bytePos, bitPos, k)
      requires 1 <= leftIn <= 8 && Position(k, bytePos, bitPos) + leftIn <= Position(k, outBuf.Length, 0)
      requires |all| == 8 && Packed(outBuf[..], bytePos, bitPos, k) == start + all[..8 - leftIn]
      requires ElementBits(bIn, 8)[..leftIn] == all[8 - leftIn..] && AllFalse(ElementBits(bIn, 8)[leftIn..])
      modifies this`bytePos, this`bitPos, outBuf
      ensures Ready() && Clean(outBuf[..], bytePos, bitPos, k)
      ensures left < leftIn && Position(k, bytePos, bitPos) + left == old(Position(k, bytePos, bitPos)) + leftIn
      ensures Packed(outBuf[..], bytePos, bitPos, k) == start + all[..8 - left]
      ensures left > 0 ==> ElementBits(b, 8)[..left] == all[8 - left..] && AllFalse(ElementBits(b, 8)[left..])
    {
      hide Clean, Packed, ElementBits, AllFalse, Position, BlockBits, Base, Right, Left;
      Inside(k, bytePos, bitPos, outBuf.Length);
      var target := k - bitPos;
      b := bIn;
      if leftIn >= target {
        TakeMore(start, all, ElementBits(b, 8), leftIn, target);
        FillUp(b, target);
        left := leftIn - target;
        LeftBits(b, target);
        DropMore(all, ElementBits(b, 8), ElementBits(Left(b, target), 8), leftIn, target);
        b := Left(b, target);
      } else {
        EncodePart(outBuf[..], bytePos, bitPos, k, b, leftIn);
        TakeMore(start, all, ElementBits(b, 8), leftIn, leftIn);
        Advance(k, bytePos, bitPos, leftIn);
        OrInto(outBuf, bytePos, Right(b, 8 - target));
        bitPos := bitPos + leftIn;
        left := 0;
      }
    }

    /** The character is full. */
    method FillUp(b: Byte, target: nat)
      requires Ready() && Clean(outBuf[..], bytePos, bitPos, k) && bytePos < outBuf.Length && target == k - bitPos
      modifies this`bytePos, this`bitPos, outBuf
      ensures Ready() && Clean(outBuf[..], bytePos, bitPos, k)
      ensures bitPos == 0 && Position(k, bytePos, 0) == old(Position(k, bytePos, bitPos)) + target
      ensures Packed(outBuf[..], bytePos, bitPos, k) == old(Packed(outBuf[..], bytePos, bitPos, k)) + ElementBits(b, 8)[..target]
    {
      hide Clean, Packed, ElementBits, Position, BlockBits, Base, Right;
      EncodeFull(outBuf[..], bytePos, bitPos, k, b);
      Advance(k, bytePos, bitPos, 0);
      OrInto(outBuf, bytePos, Right(b, 8 - target));
      bitPos := 0;
      bytePos := bytePos + 1;
    }
  }

  lemma WholeByte(all: seq<bool>, start: seq<bool>)
    requires |all| == 8
    ensures start + all[..0] == start && start + all[..8] == start + all && all[8 - 8..] == all
    ensures AllFalse(all[8..]) && all[..8] == all
  {
  }

  /** c of the `left` bits at the end of `all` come next. */
  lemma TakeMore(start: seq<bool>, all: seq<bool>, e: seq<bool>, left: nat, c: nat)
    requires |all| == |e| == 8 && c <= left <= 8 && e[..left] == all[8 - left..]
    ensures start + all[..8 - left] + e[..c] == start + all[..8 - left + c]
  {
    assert e[..c] == e[..left][..c] == all[8 - left..8 - left + c];
  }

  lemma DropMore(all: seq<bool>, e: seq<bool>, f: seq<bool>, left: nat, c: nat)
    requires |all| == |e| == |f| == 8 && c <= left <= 8 && e[..left] == all[8 - left..] && AllFalse(e[left..])
    requires f[..8 - c] == e[c..] && AllFalse(f[8 - c..])
    ensures f[..left - c] == all[8 - (left - c)..] && AllFalse(f[left - c..])
  {
    forall i | 0 <= i < 8
      ensures f[i] == if i < left - c then all[8 - (left - c) + i] else false
    {
      if i < left - c {
        assert f[i] == f[..8 - c][i] == e[c..][i] == e[..left][c + i] == all[8 - left..][c + i];
      } else if i < 8 - c {
        assert f[i] == f[..8 - c][i] == e[c..][i] == e[left..][c + i - left];
      } else {
        assert f[i] == f[8 - c..][i - (8 - c)];
      }
    }
  }

  lemma AllFitJoin(s: seq<Byte>, t: seq<Byte>, k: nat)
    requires AllFit(s, k) && AllFit(t, k)
    ensures AllFit(s + t, k)
  {
  }

  /** There is room for another byte in a block that is not full. */
  lemma RoomForByte(k: nat, block: nat, n: nat, p: nat)
    requires 1 <= k <= 7 && block == Characters(k) && n < block && p < k && Position(k, n, p) % 8 == 0
    ensures Position(k, n, p) + 8 <= Position(k, block, 0)
  {
    assert k * n + k <= k * block;
  }
}
