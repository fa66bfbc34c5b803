/** Encoding bytes as characters of 1 to 7 bits, and back (section 4 of RFC 4648 describes the 6-bit case). */
module BaseCode {
  import opened BitPacking
  import opened ByteBits

  /** The values that encode a message: its bits, cut into elements of k bits, the last filled up with zeros. */
  ghost predicate IsEncoding(message: seq<Byte>, values: seq<Byte>, k: nat)
    requires k <= 8
  {
    var m, v := Bits(message, 8), Bits(values, k);
    AllFit(values, k) && m <= v && |v| - |m| < k && AllFalse(v[|m|..])
  }

  /** The bytes that values stand for: as many as the bits are enough for. */
  ghost predicate IsDecoding(values: seq<Byte>, bytes: seq<Byte>, k: nat)
    requires k <= 8
  {
    var v, d := Bits(values, k), Bits(bytes, 8);
    d <= v && |v| - |d| < 8
  }

  /** Decoding undoes encoding. */
  lemma DecodingUndoesEncoding(message: seq<Byte>, values: seq<Byte>, bytes: seq<Byte>, k: nat)
    requires 1 <= k <= 7 && IsEncoding(message, values, k) && IsDecoding(values, bytes, k)
    ensures bytes == message
  {
    ByteCount(message);
    ByteCount(bytes);
    assert Bits(message, 8) == Bits(values, k)[..8 * |message|] == Bits(bytes, 8);
    BitsDetermine(message, bytes, 8);
  }

  lemma {:induction false} BitCount(s: seq<Byte>, w: nat)
    requires w <= 8
    ensures |Bits(s, w)| == w * |s|
  {
    if s != [] {
      BitCount(s[..|s| - 1], w);
      assert w * (|s| - 1) + w == w * |s|;
    }
  }

  /** So the output of encoding depends on the message alone. */
  lemma EncodingUnique(message: seq<Byte>, v: seq<Byte>, w: seq<Byte>, k: nat)
    requires 1 <= k <= 7 && IsEncoding(message, v, k) && IsEncoding(message, w, k)
    ensures v == w
  {
    hide AllFit;
    BitCount(v, k);
    BitCount(w, k);
    var m, a, b := |Bits(message, 8)|, Bits(v, k), Bits(w, k);
    SameMultiple(k, |v|, |w|, m);
    forall i | 0 <= i < |a|
      ensures a[i] == b[i]
    {
      assert i >= m ==> a[m..][i - m] == b[m..][i - m] == false;
    }
    BitsDetermine(v, w, k);
  }

  lemma SameMultiple(k: nat, a: nat, b: nat, m: nat)
    requires m <= k * a < m + k && m <= k * b < m + k
    ensures a == b
  {
    if a > b {
      Apart(k, a, b);
    } else if b > a {
      Apart(k, b, a);
    }
  }

  lemma Apart(k: nat, a: nat, b: nat)
    requires a > b
    ensures k * a >= k * b + k
  {
    var d: nat := a - b - 1;
    calc {
      k * a;
      k * (b + 1 + d);
      k * b + k + k * d;
    }
  }

  /** The smallest number of bits that is a multiple both of 8 and of k. */
  function BlockBits(k: nat): (n: nat)
    requires 1 <= k <= 7
    ensures n % 8 == 0 && n % k == 0
    ensures forall i: nat :: 0 < i < n && i % 8 == 0 ==> i % k != 0
  {
    if k == 3 || k == 6 then 24 else if k == 5 then 40 else if k == 7 then 56 else 8
  }

  /** How many characters stand for whole bytes. */
  function Characters(k: nat): (c: nat)
    requires 1 <= k <= 7
    ensures c > 0 && k * c == BlockBits(k)
  {
    BlockBits(k) / k
  }

  /** The loop of the encoder's `IsolatedInitialize`. */
  method EncoderBlock(k: nat) returns (characters: nat)
    requires 1 <= k <= 7
    ensures characters == Characters(k)
  {
    var i := 8;
    while i % k != 0
      invariant 0 < i <= BlockBits(k) && i % 8 == 0
      decreases BlockBits(k) - i
    {
      i := i + 8;
    }
    characters := i / k;
  }

  /** The loop of the decoder's `IsolatedInitialize`. */
  method DecoderBlock(k: nat) returns (bytes: nat)
    requires 1 <= k <= 7
    ensures 8 * bytes == BlockBits(k)
  {
    var i := k;
    while i % 8 != 0
      invariant 0 < i <= BlockBits(k) && i % k == 0
      decreases BlockBits(k) - i
    {
      i := i + k;
    }
    bytes := i / 8;
  }

  /** a[i] |= x. */
  method OrInto(a: array<Byte>, i: nat, x: Byte)
    requires i < a.Length
    modifies a
    ensures a[..] == old(a[..])[i := old(a[..])[i] | x]
  {
    a[i] := a[i] | x;
  }

  datatype Padding = NoPadding | PadWith(letter: Byte)

  function Base(k: nat): nat
    requires k <= 7
  {
    [1, 2, 4, 8, 16, 32, 64, 128][k]
  }

  lemma FitIsSmall(v: Byte, k: nat)
    requires k <= 7 && Fits(v, k)
    ensures v as int < Base(k)
  {
    assert forall j: nat :: k <= j < 8 ==> !Bit(v, j);
    assert !Bit(v, 7);
    assert k <= 6 ==> !Bit(v, 6);
    assert k <= 5 ==> !Bit(v, 5);
    assert k <= 4 ==> !Bit(v, 4);
    assert k <= 3 ==> !Bit(v, 3);
    assert k <= 2 ==> !Bit(v, 2);
    assert k <= 1 ==> !Bit(v, 1);
    assert k <= 0 ==> !Bit(v, 0);
    if {
      case k == 0 => assert v < 1;
      case k == 1 => assert v < 2;
      case k == 2 => assert v < 4;
      case k == 3 => assert v < 8;
      case k == 4 => assert v < 16;
      case k == 5 => assert v < 32;
      case k == 6 => assert v < 64;
      case k == 7 => assert v < 128;
    }
  }

  ghost predicate AllSmall(values: seq<Byte>, n: nat) {
    forall i :: 0 <= i < |values| ==> values[i] as int < n
  }

  lemma FitAreSmall(values: seq<Byte>, k: nat)
    requires k <= 7 && AllFit(values, k)
    ensures AllSmall(values, Base(k))
  {
    forall i | 0 <= i < |values|
      ensures values[i] as int < Base(k)
    {
      FitIsSmall(values[i], k);
    }
  }

  ghost function Letters(values: seq<Byte>, alphabet: seq<Byte>): (r: seq<Byte>)
    requires AllSmall(values, |alphabet|)
    ensures |r| == |values|
  {
    seq(|values|, i requires 0 <= i < |values| => alphabet[values[i] as int])
  }

  lemma LettersJoin(s: seq<Byte>, t: seq<Byte>, alphabet: seq<Byte>)
    requires AllSmall(s, |alphabet|) && AllSmall(t, |alphabet|)
    ensures AllSmall(s + t, |alphabet|) && Letters(s + t, alphabet) == Letters(s, alphabet) + Letters(t, alphabet)
  {
  }

  /** How many padding characters make n characters whole blocks. */
  function PadCount(n: nat, block: nat): nat
    requires block > 0
  {
    if n % block == 0 then 0 else block - n % block
  }

  ghost function Pads(n: nat, padding: Padding): seq<Byte> {
    if padding.NoPadding? then [] else seq(n, _ => padding.letter)
  }

  /** The text of a whole message. */
  ghost function Text(values: seq<Byte>, alphabet: seq<Byte>, padding: Padding, block: nat): seq<Byte>
    requires AllSmall(values, |alphabet|) && block > 0
  {
    Letters(values, alphabet) + Pads(PadCount(|values|, block), padding)
  }

  lemma EmptyBuffer(buf: seq<Byte>, w: nat)
    requires 0 < w <= 8 && forall i :: 0 <= i < |buf| ==> buf[i] == 0
    ensures Clean(buf, 0, 0, w) && Packed(buf, 0, 0, w) == []
  {
    ZeroFits(w);
    assert ElementBits(0, w)[0..] == ElementBits(0, w);
  }
}
