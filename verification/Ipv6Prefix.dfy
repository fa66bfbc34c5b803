/** Texts with a prefix length: what `getbits` accepts, and exactly which texts make the shift of
    `inet_net_pton_ipv6` leave its buffer. */
module Ipv6Prefix {
  import opened Common
  import opened Ipv6Parse
  import opened Ipv6Text
  import opened Ipv6RoundTrip

  // ----- the prefix length

  lemma DigitChar(c: char, d: nat)
    ensures DecimalDigit(c) == Some(d) <==> d < 10 && c == "0123456789"[d]
  {
  }

  lemma BitsDigit(src: string, i: nat, n: nat, val: nat, d: nat)
    requires i < |src| && val <= 128 && DecimalDigit(src[i]) == Some(d) && (n == 0 || val != 0) && val * 10 + d <= 128
    ensures BitsFrom(src, i, n, val) == BitsFrom(src, i + 1, n + 1, val * 10 + d)
  {
  }

  /** The digits of a number are read as that number. */
  lemma {:induction false} BitsNumber(src: string, i: nat, v: nat)
    requires v <= 128 && At(src, i, Decimal(v))
    ensures BitsFrom(src, i, 0, 0) == BitsFrom(src, i + |Decimal(v)|, |Decimal(v)|, v)
    decreases v
  {
    hide BitsFrom, DecimalDigit, At;
    DigitOfChar(v % 10);
    var k := |Decimal(v)| - 1;
    AtLast(src, i, Decimal(v));
    assert src[i + k] == "0123456789"[v % 10];
    if v >= 10 {
      AtParts(src, i, Decimal(v / 10), ["0123456789"[v % 10]]);
      BitsNumber(src, i, v / 10);
      BitsDigit(src, i + k, k, v / 10, v % 10);
    } else {
      BitsDigit(src, i, 0, 0, v);
    }
  }

  /** What has been read so far are the digits of val. */
  lemma {:induction false} BitsRead(src: string, start: nat, i: nat, n: nat, val: nat)
    requires start <= i <= |src| && val <= 128 && (n == 0 ==> val == 0)
    requires src[start..i] == if n == 0 then "" else Decimal(val)
    ensures BitsFrom(src, i, n, val).Some? ==> src[start..] == Decimal(BitsFrom(src, i, n, val).value)
    decreases |src| - i
  {
    hide Decimal;
    if i == |src| {
      assert src[start..i] == src[start..];
    } else if BitsFrom(src, i, n, val).Some? {
      var d := DecimalDigit(src[i]).value;
      DigitChar(src[i], d);
      DecimalMore(n, val, d);
      assert src[start..i + 1] == src[start..i] + [src[i]];
      BitsRead(src, start, i + 1, n + 1, val * 10 + d);
    }
  }

  lemma DecimalMore(n: nat, val: nat, d: nat)
    requires d < 10
    ensures n == 0 && val == 0 ==> Decimal(val * 10 + d) == "" + ["0123456789"[d]]
    ensures val != 0 ==> Decimal(val * 10 + d) == Decimal(val) + ["0123456789"[d]]
  {
  }

  /** `getbits` accepts exactly the decimal texts of the numbers up to 128, without leading zeros. */
  lemma BitsExactly(src: string, start: nat, v: nat)
    requires start <= |src|
    ensures BitsFrom(src, start, 0, 0) == Some(v) <==> v <= 128 && src[start..] == Decimal(v)
  {
    hide Decimal, BitsFrom;
    assert src[start..start] == "";
    BitsRead(src, start, start, 0, 0);
    BitsBounded(src, start);
    if v <= 128 && src[start..] == Decimal(v) {
      assert src[start..start + |Decimal(v)|] == src[start..];
      BitsNumber(src, start, v);
      BitsEnd(src, |Decimal(v)|, v);
    }
  }

  lemma BitsBounded(src: string, i: nat)
    requires i <= |src|
    ensures BitsFrom(src, i, 0, 0).Some? ==> BitsFrom(src, i, 0, 0).value <= 128
  {
  }

  lemma BitsEnd(src: string, n: nat, val: nat)
    requires val <= 128 && n > 0
    ensures BitsFrom(src, |src|, n, val) == Some(val)
  {
  }

  // ----- the text in front of it

  predicate AllHex(t: string) {
    forall k :: 0 <= k < |t| ==> HexDigit(t[k]).Some?
  }

  /** The digits of a word, in upper or lower case. */
  predicate IsWord(t: string) {
    1 <= |t| <= 4 && AllHex(t)
  }

  predicate AreWords(ts: seq<string>) {
    forall k :: 0 <= k < |ts| ==> IsWord(ts[k])
  }

  /** Words, each with a colon after it. */
  function WithColons(ts: seq<string>): string {
    if ts == [] then "" else WithColons(ts[..|ts| - 1]) + (ts[|ts| - 1] + ":")
  }

  function DoubleColon(front: seq<string>): string {
    if front == [] then "::" else ":"
  }

  /** Words, a double colon, and words, the last of which may be missing after its colon. */
  function WithGap(front: seq<string>, back: seq<string>, last: string): string {
    WithColons(front) + DoubleColon(front) + (WithColons(back) + last)
  }

  function WordsBehind(back: seq<string>, last: string): nat {
    |back| + if last == "" then 0 else 1
  }

  /** src is such a text with a prefix length, and has more words behind the double colon than the
      prefix has room for. */
  ghost predicate Overshoots(src: string) {
    exists front: seq<string>, back: seq<string>, last: string, bits: nat ::
      HasPrefix(src, front, back, last, bits) && WordsBehind(back, last) > WordCount(bits, false)
  }

  ghost predicate HasPrefix(src: string, front: seq<string>, back: seq<string>, last: string, bits: nat) {
    && AreWords(front) && AreWords(back) && (last == "" || IsWord(last)) && bits <= 128
    && |front| + WordsBehind(back, last) <= 8 && src == WithGap(front, back, last) + ("/" + Decimal(bits))
  }

  lemma WithColonsMore(ts: seq<string>, t: string)
    ensures WithColons(ts + [t]) == WithColons(ts) + (t + ":")
  {
    assert (ts + [t])[..|ts|] == ts;
  }

  // ----- from the scan to the text

  /** What stands in src before position i, where the scan is in state st. */
  ghost predicate ReadSoFar(src: string, i: nat, st: State, front: seq<string>, back: seq<string>, cur: string) {
    && i <= |src| && AreWords(front) && AreWords(back) && AllHex(cur) && |cur| <= 4
    && st.tp == 2 * (|front| + |back|) && st.digits == |cur| && (st.sawDigit <==> cur != "")
    && (if st.colon == -1 then back == [] && src[..i] == WithColons(front) + cur
        else st.colon == 2 * |front| && src[..i] == WithGap(front, back, cur))
  }

  lemma ReadDigit(src: string, i: nat, st: State, front: seq<string>, back: seq<string>, cur: string, d: nat)
    requires ReadSoFar(src, i, st, front, back, cur) && i < |src| && HexDigit(src[i]) == Some(d) && |cur| < 4
    ensures ReadSoFar(src, i + 1, AddDigit(st, d), front, back, cur + [src[i]])
  {
    assert src[..i + 1] == src[..i] + [src[i]];
  }

  lemma ReadGap(src: string, i: nat, st: State, front: seq<string>, back: seq<string>, cur: string)
    requires ReadSoFar(src, i, st, front, back, cur) && i < |src| && src[i] == ':' && cur == "" && st.colon == -1
    requires Start(src) == 0
    ensures ReadSoFar(src, i + 1, st.(curtok := i + 1, colon := st.tp), front, [], "")
  {
    assert src[..i + 1] == src[..i] + [src[i]];
    assert front == [] ==> i == 0;
  }

  lemma ReadWord(src: string, i: nat, st: State, front: seq<string>, back: seq<string>, cur: string)
    requires Fine(src, st) && ReadSoFar(src, i, st, front, back, cur)
    requires i < |src| && src[i] == ':' && cur != "" && st.tp + 2 <= 16
    ensures if st.colon == -1 then ReadSoFar(src, i + 1, StoreWord(st).(curtok := i + 1), front + [cur], [], "")
            else ReadSoFar(src, i + 1, StoreWord(st).(curtok := i + 1), front, back + [cur], "")
  {
    assert src[..i + 1] == src[..i] + [src[i]];
    WithColonsMore(front, cur);
    WithColonsMore(back, cur);
  }

  /** When the scan ends at a prefix length, what stands before it is known. */
  lemma {:induction false} ScanReads(src: string, i: nat, st: State, front: seq<string>, back: seq<string>, cur: string)
    returns (f: seq<string>, b: seq<string>, c: string, j: nat)
    requires Fine(src, st) && ReadSoFar(src, i, st, front, back, cur) && (st.colon != -1 || Start(src) == 0)
    ensures var r := Scan(src, i, st);
      r.Scanned? && !r.ipv4 && r.bits != -1 ==>
        j < |src| && src[j] == '/' && BitsFrom(src, j + 1, 0, 0) == Some(r.bits) && ReadSoFar(src, j, r.st, f, b, c)
    decreases |src| - i
  {
    hide HexDigit, Stored, ReadSoFar, BitsFrom, V4From;
    f, b, c, j := front, back, cur, i;
    ReadState(src, i, st, front, back, cur);
    if i < |src| {
      var d := HexDigit(src[i]);
      if d.Some? {
        if st.digits < 4 {
          ReadDigit(src, i, st, front, back, cur, d.value);
          DigitFine(src, i, st, d.value);
          f, b, c, j := ScanReads(src, i + 1, AddDigit(st, d.value), front, back, cur + [src[i]]);
        }
      } else if src[i] == ':' {
        if !st.sawDigit {
          if st.colon == -1 {
            ReadGap(src, i, st, front, back, cur);
            f, b, c, j := ScanReads(src, i + 1, st.(curtok := i + 1, colon := st.tp), front, [], "");
          }
        } else if i + 1 < |src| && st.tp + 2 <= 16 {
          ReadWord(src, i, st, front, back, cur);
          f, b, c, j := ScanReads(src, i + 1, StoreWord(st).(curtok := i + 1),
                                  if st.colon == -1 then front + [cur] else front, if st.colon == -1 then [] else back + [cur], "");
        }
      }
    }
  }

  lemma ReadState(src: string, i: nat, st: State, front: seq<string>, back: seq<string>, cur: string)
    requires ReadSoFar(src, i, st, front, back, cur)
    ensures i <= |src| && st.digits == |cur| && (st.sawDigit <==> cur != "")
  {
  }

  lemma DigitFine(src: string, i: nat, st: State, d: nat)
    requires i < |src| && Fine(src, st) && HexDigit(src[i]) == Some(d) && st.digits < 4
    ensures Fine(src, AddDigit(st, d))
  {
  }

  /** Where the scan begins. */
  lemma ScanBegins(src: string) returns (i: nat, st: State)
    requires !BadStart(src)
    ensures Fine(src, st) && ReadSoFar(src, i, st, [], [], "") && (st.colon != -1 || Start(src) == 0)
    ensures Scan(src, Start(src), Initial(src)) == Scan(src, i, st)
  {
    i, st := Start(src), Initial(src);
    if i == 1 {
      i, st := 2, st.(curtok := 2, colon := 0);
      assert src[..2] == "::" == WithGap([], [], "");
    }
  }

  lemma OvershootsOnly(src: string, size: nat)
    requires Parsed(src, size) == Undefined
    ensures Overshoots(src)
  {
    hide Scan, BitsFrom, Stored, Decimal, Shifted, WithGap;
    var i, st := ScanBegins(src);
    var f, b, c, j := ScanReads(src, i, st, [], [], "");
    var r := Scan(src, i, st);
    FinishUndefined(src, r, size);
    BitsExactly(src, j + 1, r.bits);
    assert src == src[..j] + ([src[j]] + src[j + 1..]);
    assert HasPrefix(src, f, b, c, r.bits);
  }

  /** What the function does after the scan is undefined only with a double colon and a prefix length. */
  lemma FinishUndefined(src: string, r: Scanned, size: nat)
    requires r.Scanned? ==> Fine(src, r.st) && -1 <= r.bits <= 128
    ensures Finish(src, r, size) == Undefined <==>
      && r.Scanned? && !r.ipv4 && r.bits != -1 && r.st.colon != -1
      && var tp := if r.st.sawDigit then r.st.tp + 2 else r.st.tp;
         tp <= 16 && tp - r.st.colon > 2 * WordCount(r.bits, false)
  {
    hide Shifted, Stored;
  }

  // ----- from the text to the scan

  lemma {:induction false} ScanDigits(src: string, i: nat, st: State, t: string) returns (next: State)
    requires Fresh(src, i, st) && AllHex(t) && |t| <= 4 && At(src, i, t)
    ensures Fine(src, next) && Scan(src, i, st) == Scan(src, i + |t|, next)
    ensures next.tp == st.tp && next.colon == st.colon && next.digits == |t| && (next.sawDigit <==> t != "")
    decreases |t|
  {
    hide Scan, HexDigit, At;
    if t == "" {
      next := st;
    } else {
      var k := |t| - 1;
      assert t == t[..k] + [t[k]];
      AtLast(src, i, t);
      AtParts(src, i, t[..k], [t[k]]);
      var before := ScanDigits(src, i, st, t[..k]);
      var d := HexDigit(t[k]).value;
      HexSmall(t[k]);
      ScanDigit(src, i + k, before, d);
      next := AddDigit(before, d);
    }
  }

  lemma HexSmall(c: char)
    ensures HexDigit(c).Some? ==> HexDigit(c).value < 16
  {
  }

  lemma ScanToColon(src: string, i: nat, st: State, t: string) returns (next: State)
    requires Fresh(src, i, st) && IsWord(t) && At(src, i, t + ":") && i + |t| + 1 < |src| && st.tp + 2 <= 16
    ensures Fresh(src, i + |t| + 1, next) && Scan(src, i, st) == Scan(src, i + |t| + 1, next)
    ensures next.tp == st.tp + 2 && next.colon == st.colon
  {
    AtParts(src, i, t, ":");
    var read := ScanDigits(src, i, st, t);
    var j := i + |t|;
    assert src[j] == src[j..j + 1][0] == ':';
    next := StoreWord(read).(curtok := j + 1);
  }

  lemma {:induction false} ScanWithColons(src: string, i: nat, st: State, ts: seq<string>) returns (next: State)
    requires Fresh(src, i, st) && AreWords(ts) && At(src, i, WithColons(ts)) && i + |WithColons(ts)| < |src|
    requires st.tp + 2 * |ts| <= 16
    ensures Fresh(src, i + |WithColons(ts)|, next) && Scan(src, i, st) == Scan(src, i + |WithColons(ts)|, next)
    ensures next.tp == st.tp + 2 * |ts| && next.colon == st.colon
    decreases |ts|
  {
    hide Scan, At, Fresh;
    if ts == [] {
      next := st;
    } else {
      var k := |ts| - 1;
      AtParts(src, i, WithColons(ts[..k]), ts[k] + ":");
      next := ScanWithColons(src, i, st, ts[..k]);
      next := ScanToColon(src, i + |WithColons(ts[..k])|, next, ts[k]);
    }
  }

  /** The state behind the double colon. */
  lemma ScanGap(src: string, front: seq<string>, rest: string) returns (i: nat, st: State)
    requires AreWords(front) && |front| <= 8 && src == WithColons(front) + DoubleColon(front) + rest
    ensures !BadStart(src) && Fresh(src, i, st) && Scan(src, Start(src), Initial(src)) == Scan(src, i, st)
    ensures At(src, i, rest) && i + |rest| == |src| && st.tp == st.colon == 2 * |front|
  {
    hide Scan, WithColons;
    i := |WithColons(front)| + |DoubleColon(front)|;
    InitialFresh(src);
    if front == [] {
      NoFront();
      assert src == "::" + rest;
      ScanSecondColon(src, 1, Initial(src));
      st := Initial(src).(curtok := 2, colon := 0);
    } else {
      FirstChar(front);
      AtStart(src, WithColons(front), ":", rest);
      st := ScanWithColons(src, 0, Initial(src), front);
      ScanSecondColon(src, i - 1, st);
      st := st.(curtok := i, colon := st.tp);
    }
  }

  lemma NoFront()
    ensures WithColons([]) == "" && DoubleColon([]) == "::"
  {
  }

  lemma AtStart(src: string, a: string, b: string, c: string)
    requires src == a + b + c
    ensures At(src, 0, a) && (a != "" ==> src[0] == a[0]) && (|b| == 1 ==> src[|a|] == b[0]) && At(src, |a| + |b|, c)
  {
  }

  lemma {:induction false} FirstChar(ts: seq<string>)
    requires AreWords(ts) && ts != []
    ensures WithColons(ts) != "" && WithColons(ts)[0] != ':'
    decreases |ts|
  {
    var k := |ts| - 1;
    if k == 0 {
      assert WithColons(ts[..0]) == "";
      assert HexDigit(ts[0][0]).Some?;
    } else {
      FirstChar(ts[..k]);
    }
  }

  lemma ScanSlash(src: string, i: nat, st: State, bits: nat)
    requires Fine(src, st) && i < |src| && src[i] == '/' && BitsFrom(src, i + 1, 0, 0) == Some(bits)
    ensures Scan(src, i, st) == Scanned(st, bits, false)
  {
  }

  /** A text of that form is read to the end, and the shift overshoots exactly if the prefix has too
      little room for what is behind the double colon. */
  lemma PrefixUndefined(src: string, front: seq<string>, back: seq<string>, last: string, bits: nat, size: nat)
    requires HasPrefix(src, front, back, last, bits)
    ensures Parsed(src, size) == Undefined <==> WordsBehind(back, last) > WordCount(bits, false)
  {
    hide Scan, At, Decimal, WithColons, Start, Initial, BadStart, DoubleColon, Fresh, Fine, Finish;
    var slash := "/" + Decimal(bits);
    Reassociate(src, WithColons(front) + DoubleColon(front), WithColons(back), last, slash);
    var i, st := ScanGap(src, front, WithColons(back) + (last + slash));
    var end := ScanBehind(src, i, st, back, last, bits);
    FinishUndefined(src, Scanned(end, bits, false), size);
  }

  /** The words behind the double colon and the prefix length. */
  lemma ScanBehind(src: string, i: nat, st: State, back: seq<string>, last: string, bits: nat) returns (end: State)
    requires AreWords(back) && (last == "" || IsWord(last)) && bits <= 128
    requires Fresh(src, i, st) && st.tp + 2 * |back| <= 16
    requires var rest := WithColons(back) + (last + ("/" + Decimal(bits))); At(src, i, rest) && i + |rest| == |src|
    ensures Fine(src, end) && Scan(src, i, st) == Scanned(end, bits, false)
    ensures end.tp == st.tp + 2 * |back| && end.colon == st.colon && (end.sawDigit <==> last != "")
  {
    hide Scan, At, Decimal, WithColons, Fresh, Fine, AreWords;
    var slash := "/" + Decimal(bits);
    AtParts(src, i, WithColons(back), last + slash);
    var next := ScanWithColons(src, i, st, back);
    var j := i + |WithColons(back)|;
    AtParts(src, j, last, slash);
    end := ScanDigits(src, j, next, last);
    j := j + |last|;
    AtParts(src, j, "/", Decimal(bits));
    AtRest(src, j, Decimal(bits));
    BitsExactly(src, j + 1, bits);
    ScanSlash(src, j, end, bits);
  }

  lemma Reassociate(src: string, a: string, b: string, c: string, d: string)
    requires src == a + (b + c) + d
    ensures src == a + (b + (c + d))
  {
  }

  lemma AtRest(src: string, i: nat, t: string)
    requires At(src, i, "/") && At(src, i + 1, t) && i + 1 + |t| == |src|
    ensures i < |src| && src[i] == '/' && src[i + 1..] == t
  {
    assert src[i] == src[i..i + 1][0];
  }

  // ----- the theorem

  /** For every text: the shift leaves its buffer exactly if the text has a prefix length
      with too little room for the words behind the double colon. */
  lemma UndefinedExactly(src: string, size: nat)
    ensures Parsed(src, size) == Undefined <==> Overshoots(src)
  {
    hide Parsed;
    if Overshoots(src) {
      var front: seq<string>, back: seq<string>, last: string, bits: nat :|
        HasPrefix(src, front, back, last, bits) && WordsBehind(back, last) > WordCount(bits, false);
      PrefixUndefined(src, front, back, last, bits, size);
    }
    if Parsed(src, size) == Undefined {
      OvershootsOnly(src, size);
    }
  }

  lemma OvershootsWithPrefix(src: string)
    requires Overshoots(src)
    ensures '/' in src
  {
    hide WithGap, Decimal;
    var front: seq<string>, back: seq<string>, last: string, bits: nat :|
      HasPrefix(src, front, back, last, bits) && WordsBehind(back, last) > WordCount(bits, false);
    assert src[|WithGap(front, back, last)|] == '/';
  }

  /** Without a prefix length nothing overshoots. */
  lemma DefinedWithoutPrefix(src: string, size: nat)
    requires '/' !in src
    ensures Parsed(src, size) != Undefined
  {
    hide Parsed;
    UndefinedExactly(src, size);
    assert Overshoots(src) ==> '/' in src by {
      if Overshoots(src) {
        OvershootsWithPrefix(src);
      }
    }
  }

  /** Three words behind the double colon and room for two. */
  lemma ShiftOvershoots(size: nat)
    ensures Parsed("::1:2:3/16", size) == Undefined
  {
    hide Parsed;
    var back := ["1", "2"];
    assert WithColons(["1"]) == "1:" && back[..1] == ["1"];
    assert WithColons(back) == "1:2:";
    assert Decimal(1) == "1" && Decimal(16) == "16";
    assert HasPrefix("::1:2:3/16", [], back, "3", 16);
    PrefixUndefined("::1:2:3/16", [], back, "3", 16, size);
  }
}
