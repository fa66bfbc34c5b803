/** The text of a 128-bit address, as `inet_ntop6` writes it (section 4.2.3 of RFC 5952 asks for the leftmost longest
    run of zeros to be shortened). */
module Ipv6Text {
  import opened Common

  /** An address as eight words of 16 bits. */
  function Words(a: seq<Byte>): (w: seq<nat>)
    requires |a| == 16
    ensures |w| == 8
  {
    seq(8, i requires 0 <= i < 8 => var high: int := a[2 * i]; high * 256 + a[2 * i + 1])
  }

  /** A number in lower case hexadecimal digits, without leading zeros. */
  function Hex(w: nat): (s: string)
    ensures s != []
  {
    if w < 16 then ["0123456789abcdef"[w]] else Hex(w / 16) + ["0123456789abcdef"[w % 16]]
  }

  /** A number in decimal digits, without leading zeros. */
  function Decimal(n: nat): (s: string)
    ensures s != []
  {
    if n < 10 then ["0123456789"[n]] else Decimal(n / 10) + ["0123456789"[n % 10]]
  }

  function Dotted(a: seq<Byte>): string
    requires |a| == 4
  {
    Decimal(a[0]) + "." + Decimal(a[1]) + "." + Decimal(a[2]) + "." + Decimal(a[3])
  }

  /** Words in hexadecimal, separated by colons. */
  function Groups(ws: seq<nat>): string {
    if ws == [] then ""
    else if |ws| == 1 then Hex(ws[0])
    else Groups(ws[..|ws| - 1]) + ":" + Hex(ws[|ws| - 1])
  }

  ghost predicate ZeroRun(ws: seq<nat>, base: int, len: nat) {
    0 <= base && base + len <= |ws| && forall i :: base <= i < base + len ==> ws[i] == 0
  }

  /** The leftmost longest run of zero words, if there is one of at least two; base is -1 if not. */
  ghost predicate BestRun(ws: seq<nat>, base: int, len: nat) {
    if base == -1 then forall b, l: nat :: ZeroRun(ws, b, l) ==> l < 2
    else len >= 2 && ZeroRun(ws, base, len)
         && forall b, l: nat :: ZeroRun(ws, b, l) ==> l < len || (l == len && base <= b)
  }

  /** The address ends in an IPv4 address that is written as such. */
  ghost predicate Encapsulated(ws: seq<nat>, base: int, len: nat)
    requires |ws| == 8
  {
    base == 0 && (len == 6 || (len == 5 && ws[5] == 0xffff))
  }

  ghost function TextOf(a: seq<Byte>, base: int, len: nat): string
    requires |a| == 16 && (base == -1 || (0 <= base && base + len <= 8))
  {
    var ws := Words(a);
    if base == -1 then Groups(ws)
    else if Encapsulated(ws, base, len) then "::" + (if len == 6 then "" else "ffff:") + Dotted(a[12..])
    else Groups(ws[..base]) + "::" + Groups(ws[base + len..])
  }

  /** Only one run is the best. */
  lemma BestRunUnique(ws: seq<nat>, base: int, len: nat, b: int, l: nat)
    requires BestRun(ws, base, len) && BestRun(ws, b, l)
    ensures base == b && (base != -1 ==> len == l)
  {
    if base != -1 {
      assert ZeroRun(ws, base, len);
    }
    if b != -1 {
      assert ZeroRun(ws, b, l);
    }
  }

  /** Which addresses end in an IPv4 address that is written as such: ten zero bytes, and either two bytes 255
      after them, or two more zero bytes and then two bytes that are not both zero. */
  lemma EncapsulatedExactly(a: seq<Byte>, base: int, len: nat)
    requires |a| == 16 && BestRun(Words(a), base, len)
    ensures Encapsulated(Words(a), base, len) <==>
      (forall i :: 0 <= i < 10 ==> a[i] == 0)
      && ((a[10] == a[11] == 255) || (a[10] == a[11] == 0 && !(a[12] == a[13] == 0)))
  {
    var ws := Words(a);
    WordZero(a);
    hide Words;
    assert len >= 6 && base != -1 ==> ws[5] == 0;
    assert len >= 7 && base != -1 ==> ws[6] == 0;
    if forall i :: 0 <= i < 10 ==> a[i] == 0 {
      assert forall j :: 0 <= j < 5 ==> ws[j] == 0;
      assert ZeroRun(ws, 0, 5);
      assert ws[5] == 0 ==> ZeroRun(ws, 0, 6);
      assert ws[5] == 0 && ws[6] == 0 ==> ZeroRun(ws, 0, 7);
    }
    if Encapsulated(ws, base, len) {
      assert forall j :: 0 <= j < 5 ==> ws[j] == 0;
      forall i | 0 <= i < 10
        ensures a[i] == 0
      {
        assert ws[i / 2] == 0;
      }
      assert len == 6 ==> ws[5] == 0;
      assert len == 6 ==> !ZeroRun(ws, 0, 7);
    }
  }

  lemma WordZero(a: seq<Byte>)
    requires |a| == 16
    ensures forall j :: 0 <= j < 8 ==> (Words(a)[j] == 0 <==> a[2 * j] == 0 && a[2 * j + 1] == 0)
    ensures Words(a)[5] == 0xffff <==> a[10] == a[11] == 255
    ensures forall i :: 0 <= i < 16 ==> i == 2 * (i / 2) || i == 2 * (i / 2) + 1
  {
  }

  /** The search for that run. */
  method FindBestRun(words: seq<nat>) returns (base: int, len: nat)
    ensures BestRun(words, base, len) && (base != -1 ==> 0 <= base && base + len <= |words|)
  {
    base, len := -1, 0;
    var curBase, curLen: nat := -1, 0;
    var i := 0;
    while i < |words|
      invariant i <= |words|
      invariant IsCurrent(words, i, curBase, curLen)
      invariant SeenBest(words, i, curBase, base, len)
    {
      if words[i] == 0 {
        if curBase == -1 {
          curBase, curLen := i, 1;
        } else {
          curLen := curLen + 1;
        }
      } else {
        if curBase != -1 {
          if base == -1 || curLen > len {
            base, len := curBase, curLen;
          }
          curBase := -1;
        }
      }
      i := i + 1;
    }
    if curBase != -1 {
      if base == -1 || curLen > len {
        base, len := curBase, curLen;
      }
    }
    if base != -1 && len < 2 {
      base := -1;
    }
  }

  /** The run that ends before word i, if there is one. */
  ghost predicate IsCurrent(ws: seq<nat>, i: nat, curBase: int, curLen: nat)
    requires i <= |ws|
  {
    if curBase == -1 then i == 0 || ws[i - 1] != 0
    else curLen > 0 && ZeroRun(ws, curBase, curLen) && curBase + curLen == i && (curBase == 0 || ws[curBase - 1] != 0)
  }

  /** The best among the runs before the current one. */
  ghost predicate SeenBest(ws: seq<nat>, i: nat, curBase: int, base: int, len: nat)
    requires i <= |ws|
  {
    && (base == -1 ==> len == 0)
    && (base != -1 ==> ZeroRun(ws, base, len) && len > 0 && base + len <= if curBase == -1 then i else curBase)
    && (forall b, l: nat :: ZeroRun(ws, b, l) && 0 < l && b + l <= (if curBase == -1 then i else curBase)
          ==> (l < len || (l == len && base <= b)))
  }

  // ----- the text, word by word

  /** What the loop of `inet_ntop6` has written before word i. */
  ghost function Written(ws: seq<nat>, base: int, len: nat, i: nat): string
    requires i <= |ws| && (base == -1 || (0 <= base && base + len <= |ws|))
  {
    if base == -1 || i <= base then Groups(ws[..i])
    else if i <= base + len then Groups(ws[..base]) + ":"
    else Groups(ws[..base]) + "::" + Groups(ws[base + len..i])
  }

  lemma GroupsMore(ws: seq<nat>, w: nat)
    ensures Groups(ws + [w]) == (if ws == [] then Hex(w) else Groups(ws) + ":" + Hex(w))
  {
    assert (ws + [w])[..|ws|] == ws;
  }

  /** A word outside the run adds its digits, after a colon unless it is the first. */
  lemma WriteWord(ws: seq<nat>, base: int, len: nat, i: nat)
    requires i < |ws| && (base == -1 || (0 <= base && base + len <= |ws| && len > 0))
    requires base == -1 || i < base || base + len <= i
    ensures Written(ws, base, len, i + 1) == Written(ws, base, len, i) + (if i == 0 then "" else ":") + Hex(ws[i])
  {
    if base == -1 || i < base {
      assert ws[..i + 1] == ws[..i] + [ws[i]];
      GroupsMore(ws[..i], ws[i]);
      assert i == 0 ==> Groups(ws[..i]) == "";
    } else {
      WriteBehind(ws, base, len, i);
    }
  }

  lemma WriteBehind(ws: seq<nat>, base: nat, len: nat, i: nat)
    requires base + len <= i < |ws| && len > 0
    ensures Written(ws, base, len, i + 1) == Written(ws, base, len, i) + ":" + Hex(ws[i])
  {
    hide Hex;
    var tail := ws[base + len..i];
    assert ws[base + len..i + 1] == tail + [ws[i]];
    GroupsMore(tail, ws[i]);
    var head := Groups(ws[..base]);
    hide Groups;
    if i == base + len {
      assert head + "::" + Hex(ws[i]) == head + ":" + ":" + Hex(ws[i]);
    } else {
      assert head + "::" + (Groups(tail) + ":" + Hex(ws[i])) == head + "::" + Groups(tail) + ":" + Hex(ws[i]);
    }
  }

  /** `inet_ntop4`: the text with its final zero must fit. */
  method InetNtop4(src: seq<Byte>, size: nat) returns (dst: Option<string>)
    requires |src| == 4
    ensures dst == if |Dotted(src)| >= size then None else Some(Dotted(src))
  {
    var tmp := Decimal(src[0]) + "." + Decimal(src[1]) + "." + Decimal(src[2]) + "." + Decimal(src[3]);
    if |tmp| >= size {
      return None;
    }
    return Some(tmp);
  }

  lemma DecimalLength(n: nat)
    requires n < 1000
    ensures |Decimal(n)| == if n < 10 then 1 else if n < 100 then 2 else 3
  {
  }

  lemma DottedLength(a: seq<Byte>)
    requires |a| == 4
    ensures |Dotted(a)| <= 15
  {
    DecimalLength(a[0]);
    DecimalLength(a[1]);
    DecimalLength(a[2]);
    DecimalLength(a[3]);
  }

  lemma HexLength(n: nat)
    requires n < 65536
    ensures |Hex(n)| == if n < 16 then 1 else if n < 256 then 2 else if n < 4096 then 3 else 4
  {
    if n >= 16 {
      HexLength(n / 16);
    }
  }

  const TMP_SIZE := 46 // "ffff:ffff:ffff:ffff:ffff:ffff:255.255.255.255" and its final zero

  /** Word j when i bytes were read. */
  function WordSoFar(src: seq<Byte>, j: nat, i: nat): nat
    requires |src| == 16 && j < 8
  {
    var high: int, low: int := src[2 * j], src[2 * j + 1];
    (if 2 * j < i then high * 256 else 0) + if 2 * j + 1 < i then low else 0
  }

  /** The loop that takes the bytes of an address two by two. */
  method ReadWords(src: seq<Byte>) returns (words: seq<nat>)
    requires |src| == 16
    ensures words == Words(src)
  {
    words := seq(8, _ => 0);
    for i := 0 to 16
      invariant |words| == 8
      invariant forall j :: 0 <= j < 8 ==> words[j] == WordSoFar(src, j, i)
    {
      var b: int := src[i];
      words := words[i / 2 := words[i / 2] + if i % 2 == 0 then b * 256 else b];
    }
  }

  lemma GroupsLength(ws: seq<nat>)
    requires forall i :: 0 <= i < |ws| ==> ws[i] < 65536
    ensures |Groups(ws)| <= 5 * |ws|
  {
    if ws != [] {
      HexLength(ws[|ws| - 1]);
      GroupsLength(ws[..|ws| - 1]);
    }
  }

  lemma WordsSmall(a: seq<Byte>)
    requires |a| == 16
    ensures forall i :: 0 <= i < 8 ==> Words(a)[i] < 65536
  {
  }

  lemma TextLength(a: seq<Byte>, base: int, len: nat)
    requires |a| == 16 && (base == -1 || (0 <= base && base + len <= 8 && len >= 2))
    ensures |TextOf(a, base, len)| < 46
  {
    var ws := Words(a);
    WordsSmall(a);
    hide Words, Hex;
    GroupsLength(ws);
    DottedLength(a[12..]);
    if base != -1 {
      GroupsLength(ws[..base]);
      GroupsLength(ws[base + len..]);
    }
  }

  /** `inet_ntop6`: the shortened text, if it fits with its final zero; the buffer it is made in is
      never overrun. */
  method InetNtop6(src: seq<Byte>, size: nat) returns (dst: Option<string>, ghost base: int, ghost len: nat)
    requires |src| == 16
    ensures BestRun(Words(src), base, len) && (base != -1 ==> 0 <= base && base + len <= 8)
    ensures |TextOf(src, base, len)| < 46
    ensures dst == if |TextOf(src, base, len)| + 1 > size then None else Some(TextOf(src, base, len))
    ensures forall b: int, l: nat :: BestRun(Words(src), b, l) && (b != -1 ==> 0 <= b && b + l <= 8) ==>
      dst == if |TextOf(src, b, l)| + 1 > size then None else Some(TextOf(src, b, l))
  {
    var words := ReadWords(src);
    var bestBase, bestLen := FindBestRun(words);
    base, len := bestBase, bestLen;
    TextLength(src, bestBase, bestLen);
    forall b: int, l: nat | BestRun(words, b, l) && (b != -1 ==> 0 <= b && b + l <= 8)
      ensures TextOf(src, b, l) == TextOf(src, bestBase, bestLen)
    {
      BestRunUnique(words, b, l, bestBase, bestLen);
    }
    hide BestRun, TextOf;
    var tmp := FormatWords(src, words, bestBase, bestLen);
    if |tmp| + 1 > size {
      return None, base, len;
    }
    dst := Some(tmp);
  }

  /** The loop of `inet_ntop6` that writes the text. */
  method FormatWords(src: seq<Byte>, words: seq<nat>, base: int, len: nat) returns (tmp: string)
    requires |src| == 16 && words == Words(src)
    requires base == -1 || (0 <= base && base + len <= 8 && len >= 2)
    ensures tmp == TextOf(src, base, len)
  {
    hide Groups, Hex, Dotted, Words;
    tmp := "";
    var i := 0;
    var sixth, last := words[5], words[7];
    NothingWritten(words, base, len);
    while i < 8
      invariant i <= 8 && tmp == Written(words, base, len, i)
      invariant i > 6 ==> !Encapsulated(words, base, len)
    {
      if base != -1 && base <= i < base + len {
        if i == base {
          tmp := tmp + ":";
        }
        i := i + 1;
        continue;
      }
      WriteWord(words, base, len, i);
      ghost var before := tmp;
      if i != 0 {
        tmp := tmp + ":";
      }
      if i == 6 && base == 0 && (len == 6 || (len == 7 && last != 1) || (len == 5 && sixth == 0xffff)) {
        tmp := FormatDotted(src, words, tmp, len);
        return;
      }
      tmp := tmp + Hex(words[i]);
      i := i + 1;
    }
    AllWritten(src, base, len);
    if base != -1 && base + len == 8 {
      tmp := tmp + ":";
    }
  }

  lemma NothingWritten(ws: seq<nat>, base: int, len: nat)
    requires base == -1 || (0 <= base && base + len <= |ws|)
    ensures Written(ws, base, len, 0) == ""
  {
  }

  lemma AllWritten(a: seq<Byte>, base: int, len: nat)
    requires |a| == 16 && (base == -1 || (0 <= base && base + len <= 8 && len >= 2)) && !Encapsulated(Words(a), base, len)
    ensures TextOf(a, base, len) == Written(Words(a), base, len, 8) + if base != -1 && base + len == 8 then ":" else ""
  {
    var ws := Words(a);
    hide Words;
    assert ws[..8] == ws;
    if base != -1 {
      assert ws[base + len..8] == ws[base + len..];
      assert base + len == 8 ==> ws[base + len..] == [];
    }
  }

  /** The last words as an IPv4 address. The buffer has room for it. */
  method FormatDotted(src: seq<Byte>, words: seq<nat>, tmpIn: string, len: nat) returns (tmp: string)
    requires |src| == 16 && words == Words(src) && Encapsulated(words, 0, len)
    requires tmpIn == Written(words, 0, len, 6) + ":"
    ensures tmp == TextOf(src, 0, len)
  {
    hide Words;
    DottedLength(src[12..]);
    EncapsulatedStart(words, len);
    var text := InetNtop4(src[12..], TMP_SIZE - |tmpIn|);
    tmp := tmpIn + text.value;
  }

  lemma EncapsulatedStart(words: seq<nat>, len: nat)
    requires |words| == 8 && Encapsulated(words, 0, len)
    ensures Written(words, 0, len, 6) + ":" == "::" + (if len == 6 then "" else "ffff:")
  {
    if len == 5 {
      assert words[5..6] == [0xffff];
      HexLength(0xffff);
      assert Hex(0xf) == "f" && Hex(0xff) == "ff" && Hex(0xfff) == "fff" && Hex(0xffff) == "ffff";
    }
  }
}
