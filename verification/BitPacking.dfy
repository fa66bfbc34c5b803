/** Streams of bits cut into elements of w bits, highest bit first, and buffers that are filled bit by bit. */
module BitPacking {
  import opened ByteBits

  ghost predicate Fits(v: Byte, w: nat) {
    forall j: nat :: w <= j < 8 ==> !Bit(v, j)
  }

  ghost predicate AllFit(s: seq<Byte>, w: nat) {
    forall i :: 0 <= i < |s| ==> Fits(s[i], w)
  }

  ghost function ElementBits(v: Byte, w: nat): (r: seq<bool>)
    requires w <= 8
    ensures |r| == w
  {
    seq(w, i requires 0 <= i < w => Bit(v, w - 1 - i))
  }

  ghost function Bits(s: seq<Byte>, w: nat): seq<bool>
    requires w <= 8
  {
    if s == [] then [] else Bits(s[..|s| - 1], w) + ElementBits(s[|s| - 1], w)
  }

  ghost predicate AllFalse(z: seq<bool>) {
    forall i :: 0 <= i < |z| ==> !z[i]
  }

  lemma BitsOne(s: seq<Byte>, v: Byte, w: nat)
    requires w <= 8
    ensures Bits(s + [v], w) == Bits(s, w) + ElementBits(v, w)
  {
    assert (s + [v])[..|s|] == s;
  }

  lemma SplitLast(s: seq<Byte>, t: seq<Byte>)
    requires t != []
    ensures t == t[..|t| - 1] + [t[|t| - 1]] && s + t == (s + t[..|t| - 1]) + [t[|t| - 1]]
  {
  }

  lemma {:induction false} BitsJoin(s: seq<Byte>, t: seq<Byte>, w: nat)
    requires w <= 8
    ensures Bits(s + t, w) == Bits(s, w) + Bits(t, w)
    decreases |t|
  {
    if t == [] {
      assert s + t == s;
    } else {
      hide Bits, ElementBits;
      var u, v := t[..|t| - 1], t[|t| - 1];
      BitsJoin(s, u, w);
      BitsOne(u, v, w);
      BitsOne(s + u, v, w);
      SplitLast(s, t);
      Associate(Bits(s, w), Bits(u, w), ElementBits(v, w));
    }
  }

  lemma {:induction false} ByteCount(s: seq<Byte>)
    ensures |Bits(s, 8)| == 8 * |s|
  {
    if s != [] {
      ByteCount(s[..|s| - 1]);
    }
  }

  lemma ElementFromBits(a: Byte, b: Byte, w: nat)
    requires w <= 8 && Fits(a, w) && Fits(b, w) && ElementBits(a, w) == ElementBits(b, w)
    ensures a == b
  {
    forall j: nat | j < 8
      ensures Bit(a, j) == Bit(b, j)
    {
      if j < w {
        assert ElementBits(a, w)[w - 1 - j] == ElementBits(b, w)[w - 1 - j];
      }
    }
    SameBits(a, b);
  }

  /** Different elements have different bits. */
  lemma {:induction false} BitsDetermine(s: seq<Byte>, t: seq<Byte>, w: nat)
    requires 1 <= w <= 8 && AllFit(s, w) && AllFit(t, w) && Bits(s, w) == Bits(t, w)
    ensures s == t
    decreases |s|
  {
    if s == [] {
      assert t == [];
    } else if t != [] {
      var a, b := s[..|s| - 1], t[..|t| - 1];
      var all := Bits(s, w);
      assert Bits(a, w) == all[..|all| - w] == Bits(b, w);
      assert ElementBits(s[|s| - 1], w) == all[|all| - w..] == ElementBits(t[|t| - 1], w);
      ElementFromBits(s[|s| - 1], t[|t| - 1], w);
      BitsDetermine(a, b, w);
    }
  }

  /** The bits put into a buffer so far: n whole elements and p bits of the next. */
  ghost function Packed(buf: seq<Byte>, n: nat, p: nat, w: nat): seq<bool>
    requires n <= |buf| && p < w <= 8
  {
    Bits(buf[..n], w) + if n < |buf| then ElementBits(buf[n], w)[..p] else []
  }

  /** What was not yet put in is zero. */
  ghost predicate Clean(buf: seq<Byte>, n: nat, p: nat, w: nat)
    requires n <= |buf| && p < w <= 8
  {
    && AllFit(buf, w)
    && (n < |buf| ==> AllFalse(ElementBits(buf[n], w)[p..]))
    && (n == |buf| ==> p == 0)
    && forall i :: n < i < |buf| ==> buf[i] == 0
  }

  lemma OrFits(a: Byte, x: Byte, w: nat)
    requires w <= 8 && Fits(a, w) && Fits(x, w)
    ensures Fits(a | x, w)
    ensures forall i :: 0 <= i < w ==> ElementBits(a | x, w)[i] == (ElementBits(a, w)[i] || ElementBits(x, w)[i])
  {
    hide Bit;
    var o := a | x;
    forall j: nat | j < 8
      ensures Bit(o, j) == (Bit(a, j) || Bit(x, j))
    {
      OrBit(a, x, j);
    }
  }

  lemma OrSequences(a: seq<bool>, x: seq<bool>, r: seq<bool>, p: nat, c: nat)
    requires |a| == |x| == |r| && p + c <= |r|
    requires forall i :: 0 <= i < |r| ==> r[i] == (a[i] || x[i])
    requires AllFalse(a[p..]) && AllFalse(x[..p]) && AllFalse(x[p + c..])
    ensures r[..p + c] == a[..p] + x[p..p + c] && AllFalse(r[p + c..])
  {
    forall i | 0 <= i < |r|
      ensures r[i] == if i < p then a[i] else if i < p + c then x[i] else false
    {
      assert i >= p ==> !a[p..][i - p];
      assert i < p ==> !x[..p][i];
      assert i >= p + c ==> !x[p + c..][i - (p + c)];
    }
  }

  lemma OrBits(a: Byte, x: Byte, p: nat, c: nat, w: nat)
    requires p + c <= w <= 8 && Fits(a, w) && Fits(x, w)
    requires AllFalse(ElementBits(a, w)[p..]) && AllFalse(ElementBits(x, w)[..p]) && AllFalse(ElementBits(x, w)[p + c..])
    ensures Fits(a | x, w) && AllFalse(ElementBits(a | x, w)[p + c..])
    ensures ElementBits(a | x, w)[..p + c] == ElementBits(a, w)[..p] + ElementBits(x, w)[p..p + c]
  {
    hide AllFalse, ElementBits, Fits;
    OrFits(a, x, w);
    OrSequences(ElementBits(a, w), ElementBits(x, w), ElementBits(a | x, w), p, c);
  }

  lemma ZeroFits(w: nat)
    requires w <= 8
    ensures Fits(0, w) && AllFalse(ElementBits(0, w))
  {
    assert forall j: nat :: j < 8 ==> !Bit(0, j);
  }

  /** Putting c more bits in, with an or into the element that is being filled. */
  lemma PutSome(buf: seq<Byte>, n: nat, p: nat, w: nat, x: Byte, c: nat)
    requires n < |buf| && p + c < w <= 8 && Clean(buf, n, p, w) && Fits(x, w)
    requires AllFalse(ElementBits(x, w)[..p]) && AllFalse(ElementBits(x, w)[p + c..])
    ensures var after := buf[n := buf[n] | x];
      Clean(after, n, p + c, w) && Packed(after, n, p + c, w) == Packed(buf, n, p, w) + ElementBits(x, w)[p..p + c]
  {
    hide Fits, ElementBits, Bits, AllFalse;
    OrBits(buf[n], x, p, c, w);
    var after := buf[n := buf[n] | x];
    assert after[..n] == buf[..n];
    Associate(Bits(buf[..n], w), ElementBits(buf[n], w)[..p], ElementBits(x, w)[p..p + c]);
  }

  /** Filling the element up, which moves on to the next one. */
  lemma PutRest(buf: seq<Byte>, n: nat, p: nat, w: nat, x: Byte)
    requires n < |buf| && p < w <= 8 && Clean(buf, n, p, w) && Fits(x, w)
    requires AllFalse(ElementBits(x, w)[..p])
    ensures var after := buf[n := buf[n] | x];
      Clean(after, n + 1, 0, w) && Packed(after, n + 1, 0, w) == Packed(buf, n, p, w) + ElementBits(x, w)[p..]
  {
    CleanHere(buf, n, p, w);
    hide Fits, ElementBits, Bits, AllFalse, Packed, Clean;
    OrRest(buf[n], x, p, w);
    CleanNext(buf, n, p, w, buf[n] | x);
    PackedNext(buf, n, p, w, buf[n] | x);
    Associate(Bits(buf[..n], w), ElementBits(buf[n], w)[..p], ElementBits(x, w)[p..]);
  }

  lemma OrRest(a: Byte, x: Byte, p: nat, w: nat)
    requires p <= w <= 8 && Fits(a, w) && Fits(x, w)
    requires AllFalse(ElementBits(a, w)[p..]) && AllFalse(ElementBits(x, w)[..p])
    ensures Fits(a | x, w) && ElementBits(a | x, w) == ElementBits(a, w)[..p] + ElementBits(x, w)[p..]
  {
    assert AllFalse(ElementBits(x, w)[p + (w - p)..]);
    hide Fits, ElementBits, AllFalse;
    OrBits(a, x, p, w - p, w);
    Whole(ElementBits(a | x, w), ElementBits(x, w), w, p);
  }

  lemma CleanHere(buf: seq<Byte>, n: nat, p: nat, w: nat)
    requires n < |buf| && p < w <= 8 && Clean(buf, n, p, w)
    ensures Fits(buf[n], w) && AllFalse(ElementBits(buf[n], w)[p..])
  {
  }

  lemma CleanNext(buf: seq<Byte>, n: nat, p: nat, w: nat, v: Byte)
    requires n < |buf| && p < w <= 8 && Clean(buf, n, p, w) && Fits(v, w)
    ensures Clean(buf[n := v], n + 1, 0, w)
  {
    hide Fits, ElementBits;
    ZeroFits(w);
    var after := buf[n := v];
    if n + 1 < |buf| {
      assert after[n + 1] == 0;
      assert ElementBits(0, w)[0..] == ElementBits(0, w);
    }
  }

  lemma PackedNext(buf: seq<Byte>, n: nat, p: nat, w: nat, v: Byte)
    requires n < |buf| && p < w <= 8
    ensures Packed(buf, n, p, w) == Bits(buf[..n], w) + ElementBits(buf[n], w)[..p]
    ensures Packed(buf[n := v], n + 1, 0, w) == Bits(buf[..n], w) + ElementBits(v, w)
  {
    hide ElementBits;
    assert buf[n := v][..n + 1] == buf[..n] + [v];
    BitsOne(buf[..n], v, w);
  }

  lemma NothingPacked(buf: seq<Byte>, n: nat, w: nat)
    requires n <= |buf| && 0 < w <= 8
    ensures Packed(buf, n, 0, w) == Bits(buf[..n], w)
  {
  }

  lemma Associate<T>(a: seq<T>, b: seq<T>, c: seq<T>)
    ensures a + b + c == a + (b + c)
  {
  }

  lemma Whole<T>(r: seq<T>, x: seq<T>, w: nat, p: nat)
    requires |r| == |x| == w && p <= w
    ensures r[..p + (w - p)] == r && x[p..p + (w - p)] == x[p..]
  {
  }

  /** Moving bits right puts the highest of them behind p others. */
  lemma RightBits(b: Byte, w: nat, p: nat)
    requires p < w <= 8
    ensures var x := ElementBits(Right(b, 8 - (w - p)), w);
      Fits(Right(b, 8 - (w - p)), w) && AllFalse(x[..p]) && x[p..] == ElementBits(b, 8)[..w - p]
  {
    hide Bit, Right;
    var s := 8 - (w - p);
    var v := Right(b, s);
    forall j: nat | j < 8
      ensures Bit(v, j) == (j + s < 8 && Bit(b, j + s))
    {
      RightBit(b, s, j);
    }
  }

  /** Moving bits left drops the highest of them, and zeros come in. */
  lemma LeftBits(b: Byte, s: nat)
    requires s <= 8
    ensures ElementBits(Left(b, s), 8)[..8 - s] == ElementBits(b, 8)[s..]
    ensures AllFalse(ElementBits(Left(b, s), 8)[8 - s..])
  {
    hide Bit, Left;
    var v := Left(b, s);
    forall j: nat | j < 8
      ensures Bit(v, j) == (j >= s && Bit(b, j - s))
    {
      LeftBit(b, s, j);
    }
  }

  /** The w bits of a value that fits in them stand at the end of its eight bits. */
  lemma NarrowBits(v: Byte, w: nat)
    requires w <= 8 && Fits(v, w)
    ensures AllFalse(ElementBits(v, 8)[..8 - w]) && ElementBits(v, 8)[8 - w..] == ElementBits(v, w)
  {
  }
}
