/** Reading back the text that was written for an address gives all of its 128 bits. */
module Ipv6RoundTrip {
  import opened Common
  import opened Ipv6Parse
  import opened Ipv6Text

  // ----- one number

  lemma DigitOfChar(d: nat)
    requires d < 16
    ensures HexDigit("0123456789abcdef"[d]) == Some(d)
    ensures d < 10 ==> DecimalDigit("0123456789"[d]) == Some(d) && HexDigit("0123456789"[d]) == Some(d)
  {
  }

  /** t stands in s at position i. */
  ghost predicate At(s: string, i: nat, t: string) {
    i + |t| <= |s| && s[i..i + |t|] == t
  }

  lemma AtParts(s: string, i: nat, t: string, u: string)
    requires At(s, i, t + u)
    ensures At(s, i, t) && At(s, i + |t|, u)
  {
    assert s[i..i + |t|] == s[i..i + |t + u|][..|t|];
    assert s[i + |t|..i + |t| + |u|] == s[i..i + |t + u|][|t|..];
  }

  lemma AtLast(s: string, i: nat, t: string)
    requires At(s, i, t) && t != []
    ensures i + |t| <= |s| && s[i + |t| - 1] == t[|t| - 1]
  {
    assert s[i + |t| - 1] == s[i..i + |t|][|t| - 1];
  }

  /** Before a word: no digit was seen, and an IPv4 address would begin here. */
  ghost predicate Fresh(src: string, i: nat, st: State) {
    Fine(src, st) && i <= |src| && st.curtok == i && !st.sawDigit && st.val == 0 && st.digits == 0
  }

  ghost function Read(st: State, val: nat, digits: nat): State {
    st.(val := val, digits := digits, sawDigit := true)
  }

  lemma ScanDigit(src: string, i: nat, st: State, d: nat)
    requires i < |src| && Fine(src, st) && HexDigit(src[i]) == Some(d) && d < 16 && st.digits < 4
    ensures Fine(src, AddDigit(st, d)) && Scan(src, i, st) == Scan(src, i + 1, AddDigit(st, d))
  {
  }

  lemma {:induction false} ScanHex(src: string, i: nat, st: State, w: nat)
    requires Fresh(src, i, st) && w < 65536 && At(src, i, Hex(w))
    ensures |Hex(w)| <= 4 && Fine(src, Read(st, w, |Hex(w)|))
    ensures Scan(src, i, st) == Scan(src, i + |Hex(w)|, Read(st, w, |Hex(w)|))
    decreases w
  {
    hide Scan, HexDigit, At;
    HexLength(w);
    DigitOfChar(w % 16);
    if w >= 16 {
      AtParts(src, i, Hex(w / 16), ["0123456789abcdef"[w % 16]]);
      HexLength(w / 16);
      ScanHex(src, i, st, w / 16);
    }
    var n := |Hex(w)| - 1;
    var before := if w < 16 then st else Read(st, w / 16, n);
    AtLast(src, i, Hex(w));
    assert src[i + n] == "0123456789abcdef"[w % 16];
    assert AddDigit(before, w % 16) == Read(st, w, n + 1);
    ScanDigit(src, i + n, before, w % 16);
  }

  // ----- words and colons

  ghost function BytesOf(ws: seq<nat>): (r: seq<Byte>)
    requires AllWords(ws)
    ensures |r| == 2 * |ws|
  {
    if ws == [] then [] else TwoBytes(ws[0]) + BytesOf(ws[1..])
  }

  /** Words, each with a colon after it. */
  ghost function Lead(ws: seq<nat>): string {
    if ws == [] then "" else Hex(ws[0]) + ":" + Lead(ws[1..])
  }

  ghost predicate AllWords(ws: seq<nat>) {
    forall i :: 0 <= i < |ws| ==> ws[i] < 65536
  }

  lemma {:induction false} LeadMore(ws: seq<nat>, w: nat)
    ensures Lead(ws + [w]) == Lead(ws) + (Hex(w) + ":")
  {
    if ws == [] {
      assert Lead([w][1..]) == "";
    } else {
      assert (ws + [w])[1..] == ws[1..] + [w];
      LeadMore(ws[1..], w);
    }
  }

  lemma {:induction false} GroupsLead(ws: seq<nat>)
    requires ws != []
    ensures Groups(ws) + ":" == Lead(ws)
    ensures Groups(ws) == Lead(ws[..|ws| - 1]) + Hex(ws[|ws| - 1])
  {
    var front, last := ws[..|ws| - 1], ws[|ws| - 1];
    assert ws == front + [last];
    LeadMore(front, last);
    if |ws| > 1 {
      GroupsLead(front);
    }
  }

  lemma StoredNothing(s: seq<Byte>, at: nat)
    requires at <= |s|
    ensures Stored(s, at, []) == s
  {
  }

  lemma StoredTwice(s: seq<Byte>, at: nat, t: seq<Byte>, u: seq<Byte>)
    requires at + |t| + |u| <= |s|
    ensures Stored(Stored(s, at, t), at + |t|, u) == Stored(s, at, t + u)
  {
  }

  /** The state after some words were stored and the position after their colons is reached. */
  ghost function After(st: State, bytes: seq<Byte>, i: nat): State
    requires |st.tmp| == 16 && st.tp + |bytes| <= 16
  {
    st.(tmp := Stored(st.tmp, st.tp, bytes), tp := st.tp + |bytes|, curtok := i)
  }

  /** A word with the colon after it. */
  lemma ScanWord(src: string, i: nat, st: State, w: nat)
    requires Fresh(src, i, st) && w < 65536 && At(src, i, Hex(w) + ":") && st.tp + 2 <= 16
    requires i + |Hex(w)| + 1 < |src|
    ensures var j := i + |Hex(w)| + 1; var next := After(st, TwoBytes(w), j);
      Fresh(src, j, next) && Scan(src, i, st) == Scan(src, j, next)
  {
    AtParts(src, i, Hex(w), ":");
    ScanHex(src, i, st, w);
    var j := i + |Hex(w)|;
    assert src[j] == src[j..j + 1][0] == ':';
    assert StoreWord(Read(st, w, |Hex(w)|)).(curtok := j + 1) == After(st, TwoBytes(w), j + 1);
  }

  lemma {:induction false} ScanLead(src: string, i: nat, st: State, ws: seq<nat>)
    requires Fresh(src, i, st) && AllWords(ws) && At(src, i, Lead(ws)) && st.tp + 2 * |ws| <= 16
    requires i + |Lead(ws)| < |src|
    ensures var j := i + |Lead(ws)|; var next := After(st, BytesOf(ws), j);
      Fresh(src, j, next) && Scan(src, i, st) == Scan(src, j, next)
    decreases |ws|
  {
    hide Scan, Hex, Stored, At;
    if ws == [] {
      StoredNothing(st.tmp, st.tp);
    } else {
      AtParts(src, i, Hex(ws[0]) + ":", Lead(ws[1..]));
      ScanWord(src, i, st, ws[0]);
      var j := i + |Hex(ws[0])| + 1;
      var next := After(st, TwoBytes(ws[0]), j);
      StoredTwice(st.tmp, st.tp, TwoBytes(ws[0]), BytesOf(ws[1..]));
      ScanLead(src, j, next, ws[1..]);
    }
  }

  lemma {:induction false} BytesOfMore(ws: seq<nat>, w: nat)
    requires AllWords(ws) && w < 65536
    ensures AllWords(ws + [w]) && BytesOf(ws + [w]) == BytesOf(ws) + TwoBytes(w)
  {
    if ws != [] {
      assert (ws + [w])[1..] == ws[1..] + [w];
      BytesOfMore(ws[1..], w);
    } else {
      assert BytesOf([w][1..]) == [];
    }
  }

  lemma {:induction false} BytesOfJoin(s: seq<nat>, t: seq<nat>)
    requires AllWords(s) && AllWords(t)
    ensures BytesOf(s + t) == BytesOf(s) + BytesOf(t)
  {
    if s == [] {
      assert s + t == t;
    } else {
      assert (s + t)[1..] == s[1..] + t;
      BytesOfJoin(s[1..], t);
    }
  }

  lemma {:induction false} WordsBack(a: seq<Byte>, n: nat)
    requires |a| == 16 && n <= 8
    ensures AllWords(Words(a)[..n]) && BytesOf(Words(a)[..n]) == a[..2 * n]
  {
    WordsSmall(a);
    if n > 0 {
      WordsBack(a, n - 1);
      assert Words(a)[..n] == Words(a)[..n - 1] + [Words(a)[n - 1]];
      BytesOfMore(Words(a)[..n - 1], Words(a)[n - 1]);
      assert TwoBytes(Words(a)[n - 1]) == a[2 * n - 2..2 * n];
    }
  }

  ghost function Zeros(n: nat): (z: seq<Byte>)
    ensures |z| == n && forall i :: 0 <= i < n ==> z[i] == 0
  {
    seq(n, _ => 0)
  }

  lemma {:induction false} ZeroBytes(ws: seq<nat>)
    requires forall i :: 0 <= i < |ws| ==> ws[i] == 0
    ensures BytesOf(ws) == Zeros(2 * |ws|)
  {
    if ws != [] {
      ZeroBytes(ws[1..]);
    }
  }

  /** What the shift makes of the byte at position p, from its i-th turn on. */
  ghost function Moved(tmp: seq<Byte>, colon: nat, n: nat, i: nat, p: nat): Byte
    requires |tmp| == 16 && colon + n < 16 && 1 <= i <= n + 1 && p < 16
  {
    if 16 - n <= p <= 16 - i then tmp[p - (16 - colon - n)] else if colon <= p <= colon + n - i then 0 else tmp[p]
  }

  lemma {:induction false} ShiftedByte(tmp: seq<Byte>, colon: nat, n: nat, i: nat, p: nat)
    requires |tmp| == 16 && colon + n < 16 && 1 <= i <= n + 1 && p < 16
    ensures Shifted(tmp, colon, n, 16, i)[p] == Moved(tmp, colon, n, i, p)
    decreases n + 1 - i
  {
    if i <= n {
      ShiftedByte(tmp[16 - i := tmp[colon + n - i]][colon + n - i := 0], colon, n, i + 1, p);
    }
  }

  /** The bytes in front of the double colon, zeros, and the bytes behind it. */
  lemma ShiftedParts(front: seq<Byte>, back: seq<Byte>, zeros: seq<Byte>)
    requires |front| + |back| + |zeros| == 16 && zeros != [] && forall i :: 0 <= i < |zeros| ==> zeros[i] == 0
    ensures Shifted(front + back + zeros, |front|, |back|, 16, 1) == front + zeros + back
  {
    hide Shifted, Moved;
    var all, want := front + back + zeros, front + zeros + back;
    forall p: nat | p < 16
      ensures Shifted(all, |front|, |back|, 16, 1)[p] == want[p]
    {
      ShiftedByte(all, |front|, |back|, 1, p);
      MovedPart(front, back, zeros, p);
    }
  }

  lemma MovedPart(front: seq<Byte>, back: seq<Byte>, zeros: seq<Byte>, p: nat)
    requires |front| + |back| + |zeros| == 16 && zeros != [] && forall i :: 0 <= i < |zeros| ==> zeros[i] == 0
    requires p < 16
    ensures Moved(front + back + zeros, |front|, |back|, 1, p) == (front + zeros + back)[p]
  {
    var q := |front| + |zeros|;
    if p >= q {
      assert (front + back + zeros)[p - |zeros|] == back[p - q] == (front + zeros + back)[p];
    }
  }

  lemma ScanStops(src: string, st: State)
    requires Fine(src, st)
    ensures Scan(src, |src|, st) == Scanned(st, -1, false)
  {
  }

  /** The last words, up to the end of the text. */
  lemma ScanEnd(src: string, i: nat, st: State, ws: seq<nat>) returns (last: State)
    requires Fresh(src, i, st) && AllWords(ws) && ws != [] && At(src, i, Groups(ws)) && i + |Groups(ws)| == |src|
    requires st.tp + 2 * |ws| <= 16
    ensures Fine(src, last) && Scan(src, i, st) == Scanned(last, -1, false)
    ensures last.sawDigit && last.tp + 2 <= 16 && last.colon == st.colon && last.tp == st.tp + 2 * |ws| - 2
    ensures StoreWord(last).tmp == Stored(st.tmp, st.tp, BytesOf(ws))
  {
    hide Scan, Hex, Lead, Groups, Stored, At, BytesOf;
    var front, w := ws[..|ws| - 1], ws[|ws| - 1];
    GroupsLead(ws);
    AtParts(src, i, Lead(front), Hex(w));
    ScanLead(src, i, st, front);
    var j := i + |Lead(front)|;
    var next := After(st, BytesOf(front), j);
    ScanHex(src, j, next, w);
    last := Read(next, w, |Hex(w)|);
    ScanStops(src, last);
    assert ws == front + [w];
    BytesOfMore(front, w);
    StoredTwice(st.tmp, st.tp, BytesOf(front), TwoBytes(w));
  }

  // ----- the end of the function

  /** The state once a word that was still being read is stored. */
  ghost predicate Flushed(scanned: State, st: State) {
    if scanned.sawDigit then |scanned.tmp| == 16 && scanned.tp + 2 <= 16 && scanned.val < 65536 && st == StoreWord(scanned)
    else st == scanned
  }

  lemma FinishAddress(src: string, last: State, st: State, ipv4: bool, size: nat, a: seq<Byte>)
    requires Fine(src, last) && Flushed(last, st) && |a| == 16 && |st.tmp| == 16
    requires if st.colon == -1 then st.tp == 16 && st.tmp == a
             else 0 <= st.colon <= st.tp < 16 && Shifted(st.tmp, st.colon, st.tp - st.colon, 16, 1) == a
    ensures Finish(src, Scanned(last, -1, ipv4), size) == if size < 16 then Emsgsize else Address(128, a)
  {
    hide Shifted, Fine;
    assert a[..16] == a;
  }

  lemma {:induction false} NoColon(w: nat)
    ensures ':' !in Hex(w)
  {
    if w >= 16 {
      NoColon(w / 16);
    }
  }

  lemma InitialFresh(src: string)
    ensures Fresh(src, Start(src), Initial(src))
  {
  }

  /** An address without a run to shorten. */
  lemma ReadsPlain(a: seq<Byte>, size: nat)
    requires |a| == 16
    ensures Parsed(Groups(Words(a)), size) == if size < 16 then Emsgsize else Address(128, a)
  {
    var ws := Words(a);
    var src := Groups(ws);
    WordsBack(a, 8);
    assert ws[..8] == ws && a[..16] == a;
    GroupsLead(ws);
    assert ws[..7][0] == ws[0];
    NoColon(ws[0]);
    assert src[0] == Hex(ws[0])[0];
    hide Scan, Groups, Words, Stored, Finish;
    assert At(src, 0, src);
    InitialFresh(src);
    var last := ScanEnd(src, 0, Initial(src), ws);
    StoredAll(Initial(src).tmp, a);
    FinishAddress(src, last, StoreWord(last), false, size, a);
  }

  lemma StoredAll(s: seq<Byte>, a: seq<Byte>)
    requires |s| == |a|
    ensures Stored(s, 0, a) == a
  {
  }

  lemma StoredFront(a: seq<Byte>)
    requires |a| <= 16
    ensures Stored(seq(16, _ => 0), 0, a) == a + Zeros(16 - |a|)
  {
  }

  // ----- the double colon

  lemma ScanSecondColon(src: string, i: nat, st: State)
    requires Fresh(src, i, st) && i < |src| && src[i] == ':' && st.colon == -1
    ensures var next := st.(curtok := i + 1, colon := st.tp);
      Fresh(src, i + 1, next) && Scan(src, i, st) == Scan(src, i + 1, next)
  {
  }

  /** The state behind a double colon that follows some words. */
  ghost function Behind(front: seq<nat>, i: nat): State
    requires AllWords(front) && |front| <= 8
  {
    var bytes := BytesOf(front);
    State(bytes + Zeros(16 - |bytes|), |bytes|, |bytes|, i, false, 0, 0)
  }

  lemma ScanFront(src: string, front: seq<nat>, rest: string)
    requires AllWords(front) && |front| <= 7 && src == Groups(front) + "::" + rest
    ensures !BadStart(src)
    ensures var i := |src| - |rest|; var st := Behind(front, i);
      Fresh(src, i, st) && Scan(src, Start(src), Initial(src)) == Scan(src, i, st)
  {
    if front == [] {
      hide Scan;
      assert src == "::" + rest;
      InitialFresh(src);
      ScanSecondColon(src, 1, Initial(src));
      assert Behind([], 2) == Initial(src).(curtok := 2, colon := 0);
    } else {
      GroupsLead(front);
      FrontText(src, Groups(front), Lead(front), rest);
      NoColon(front[0]);
      FirstDigit(front);
      ScanWords(src, front);
    }
  }

  lemma FrontText(src: string, groups: string, lead: string, rest: string)
    requires groups + ":" == lead && src == groups + "::" + rest
    ensures At(src, 0, lead) && |src| == |lead| + 1 + |rest| && src[|lead|] == ':' && (groups != [] ==> src[0] == groups[0])
  {
  }

  lemma ScanWords(src: string, front: seq<nat>)
    requires AllWords(front) && |front| <= 7 && At(src, 0, Lead(front)) && |Lead(front)| < |src|
    requires src[0] != ':' && src[|Lead(front)|] == ':'
    ensures var i := |Lead(front)| + 1; var st := Behind(front, i);
      Fresh(src, i, st) && Scan(src, Start(src), Initial(src)) == Scan(src, i, st)
  {
    hide Scan, Lead, At, Stored, BytesOf;
    InitialFresh(src);
    StoredFront(BytesOf(front));
    var i := |Lead(front)|;
    ScanLead(src, 0, Initial(src), front);
    ScanSecondColon(src, i, After(Initial(src), BytesOf(front), i));
  }

  lemma FirstDigit(ws: seq<nat>)
    requires ws != []
    ensures Groups(ws) != [] && Groups(ws)[0] == Hex(ws[0])[0]
  {
    if |ws| > 1 {
      FirstDigit(ws[..|ws| - 1]);
    }
  }

  lemma ThreeParts<T>(s: seq<T>, base: nat, len: nat)
    requires base + len <= |s|
    ensures s == s[..base] + (s[base..base + len] + s[base + len..])
  {
  }

  /** The three parts of an address with a run of zero words. */
  lemma AddressParts(a: seq<Byte>, base: nat, len: nat)
    requires |a| == 16 && base + len <= 8 && ZeroRun(Words(a), base, len)
    ensures var front, back := Words(a)[..base], Words(a)[base + len..];
      AllWords(front) && AllWords(back) && a == BytesOf(front) + (Zeros(2 * len) + BytesOf(back))
  {
    var ws := Words(a);
    WordsBack(a, 8);
    assert ws[..8] == ws && a[..16] == a;
    hide Words, BytesOf, Zeros;
    ThreeParts(ws, base, len);
    BytesOfThree(ws, ws[..base], ws[base..base + len], ws[base + len..]);
  }

  lemma BytesOfThree(ws: seq<nat>, front: seq<nat>, gap: seq<nat>, back: seq<nat>)
    requires AllWords(ws) && ws == front + (gap + back) && forall i :: 0 <= i < |gap| ==> gap[i] == 0
    ensures AllWords(front) && AllWords(back) && BytesOf(ws) == BytesOf(front) + (Zeros(2 * |gap|) + BytesOf(back))
  {
    hide BytesOf, Zeros;
    assert forall i :: 0 <= i < |front| ==> front[i] == ws[i];
    assert forall i :: 0 <= i < |back| ==> back[i] == ws[|front| + |gap| + i];
    BytesOfJoin(front, gap + back);
    BytesOfJoin(gap, back);
    ZeroBytes(gap);
  }

  /** An address with a run that is shortened, and no IPv4 address in it. */
  lemma ReadsRun(a: seq<Byte>, base: nat, len: nat, size: nat)
    requires |a| == 16 && len >= 2 && base + len <= 8 && ZeroRun(Words(a), base, len)
    ensures Parsed(Groups(Words(a)[..base]) + "::" + Groups(Words(a)[base + len..]), size)
      == if size < 16 then Emsgsize else Address(128, a)
  {
    var front, back, zeros := Words(a)[..base], Words(a)[base + len..], Zeros(2 * len);
    AddressParts(a, base, len);
    hide Words, BytesOf, Scan, Stored, Finish, Zeros;
    ShiftedParts(BytesOf(front), BytesOf(back), zeros);
    Regroup(BytesOf(front), zeros, BytesOf(back));
    if back == [] {
      ReadsToGap(front, BytesOf(back), zeros, size, a);
    } else {
      ReadsBehind(front, back, zeros, size, a);
    }
  }

  lemma Regroup<T>(s: seq<T>, t: seq<T>, u: seq<T>)
    ensures s + (t + u) == s + t + u
  {
  }

  /** The text ends with the double colon. */
  lemma ReadsToGap(front: seq<nat>, back: seq<Byte>, zeros: seq<Byte>, size: nat, a: seq<Byte>)
    requires AllWords(front) && zeros != [] && 2 * |front| + |zeros| == 16 == |a| && back == []
    requires forall i :: 0 <= i < |zeros| ==> zeros[i] == 0
    requires Shifted(BytesOf(front) + back + zeros, 2 * |front|, 0, 16, 1) == a
    ensures Parsed(Groups(front) + "::" + "", size) == if size < 16 then Emsgsize else Address(128, a)
  {
    var src := Groups(front) + "::" + "";
    ScanFront(src, front, "");
    var st := Behind(front, |src|);
    NothingBehind(BytesOf(front), back, zeros);
    hide Scan, Finish, BytesOf, Zeros, Shifted, Groups;
    ScanStops(src, st);
    FinishAddress(src, st, st, false, size, a);
  }

  /** More words follow the double colon. */
  lemma ReadsBehind(front: seq<nat>, back: seq<nat>, zeros: seq<Byte>, size: nat, a: seq<Byte>)
    requires AllWords(front) && AllWords(back) && back != [] && 2 * |front| + 2 * |back| + |zeros| == 16 == |a|
    requires zeros != [] && forall i :: 0 <= i < |zeros| ==> zeros[i] == 0
    requires Shifted(BytesOf(front) + BytesOf(back) + zeros, 2 * |front|, 2 * |back|, 16, 1) == a
    ensures Parsed(Groups(front) + "::" + Groups(back), size) == if size < 16 then Emsgsize else Address(128, a)
  {
    var src := Groups(front) + "::" + Groups(back);
    ScanFront(src, front, Groups(back));
    AtEnd(src, Groups(front) + "::", Groups(back));
    hide Scan, Finish, BytesOf, Groups, Shifted, At, Zeros, BadStart;
    FinishesBehind(src, |src| - |Groups(back)|, front, back, zeros, size, a);
  }

  lemma AtEnd(src: string, head: string, rest: string)
    requires src == head + rest
    ensures |src| == |head| + |rest| && At(src, |head|, rest)
  {
  }

  lemma FinishesBehind(src: string, i: nat, front: seq<nat>, back: seq<nat>, zeros: seq<Byte>, size: nat, a: seq<Byte>)
    requires AllWords(front) && AllWords(back) && back != [] && 2 * |front| + 2 * |back| + |zeros| == 16 == |a|
    requires zeros != [] && forall i :: 0 <= i < |zeros| ==> zeros[i] == 0
    requires Shifted(BytesOf(front) + BytesOf(back) + zeros, 2 * |front|, 2 * |back|, 16, 1) == a
    requires Fresh(src, i, Behind(front, i)) && Scan(src, Start(src), Initial(src)) == Scan(src, i, Behind(front, i))
    requires !BadStart(src) && At(src, i, Groups(back)) && i + |Groups(back)| == |src|
    ensures Parsed(src, size) == if size < 16 then Emsgsize else Address(128, a)
  {
    hide Scan, Stored, Finish, BytesOf, Groups, Shifted, At, Zeros, BadStart, Behind, AllWords, Fresh, Initial, Start;
    BehindStored(front, i, BytesOf(back), zeros);
    var last := ScanEnd(src, i, Behind(front, i), back);
    FinishAddress(src, last, StoreWord(last), false, size, a);
  }

  /** The bytes behind the double colon, stored after those before it. */
  lemma BehindStored(front: seq<nat>, i: nat, back: seq<Byte>, zeros: seq<Byte>)
    requires AllWords(front) && 2 * |front| + |back| + |zeros| == 16 && forall i :: 0 <= i < |zeros| ==> zeros[i] == 0
    ensures var st := Behind(front, i);
      st.tp == st.colon == 2 * |front| && Stored(st.tmp, st.tp, back) == BytesOf(front) + back + zeros
  {
    hide BytesOf, Stored, Zeros;
    StoredBehind(BytesOf(front), back, zeros);
  }

  lemma NothingBehind(front: seq<Byte>, back: seq<Byte>, zeros: seq<Byte>)
    requires back == [] && |front| + |zeros| == 16 && forall i :: 0 <= i < |zeros| ==> zeros[i] == 0
    ensures front + Zeros(16 - |front|) == front + back + zeros
  {
  }

  lemma StoredBehind(front: seq<Byte>, back: seq<Byte>, zeros: seq<Byte>)
    requires |front| + |back| + |zeros| == 16 && forall i :: 0 <= i < |zeros| ==> zeros[i] == 0
    ensures Stored(front + Zeros(16 - |front|), |front|, back) == front + back + zeros
  {
  }

  // ----- an IPv4 address at the end

  /** Its first number is read as hexadecimal digits at first. */
  lemma {:induction false} ScanDecimal(src: string, i: nat, st: State, n: nat) returns (v: nat)
    requires Fresh(src, i, st) && n < 1000 && At(src, i, Decimal(n))
    ensures |Decimal(n)| <= 3 && Fine(src, Read(st, v, |Decimal(n)|))
    ensures Scan(src, i, st) == Scan(src, i + |Decimal(n)|, Read(st, v, |Decimal(n)|))
    decreases n
  {
    hide Scan, HexDigit, At;
    DecimalLength(n);
    DigitOfChar(n % 10);
    var before := st;
    if n >= 10 {
      AtParts(src, i, Decimal(n / 10), ["0123456789"[n % 10]]);
      DecimalLength(n / 10);
      v := ScanDecimal(src, i, st, n / 10);
      before := Read(st, v, |Decimal(n)| - 1);
    }
    var k := |Decimal(n)| - 1;
    AtLast(src, i, Decimal(n));
    assert src[i + k] == "0123456789"[n % 10];
    v := before.val * 16 + n % 10;
    assert AddDigit(before, n % 10) == Read(st, v, k + 1);
    ScanDigit(src, i + k, before, n % 10);
  }

  lemma V4Digit(src: string, i: nat, octets: seq<Byte>, n: nat, val: Byte, d: nat)
    requires i < |src| && |octets| <= 4 && DecimalDigit(src[i]) == Some(d) && (n == 0 || val != 0) && val * 10 + d <= 255
    ensures V4From(src, i, octets, n, val) == V4From(src, i + 1, octets, n + 1, val * 10 + d)
  {
  }

  lemma {:induction false} V4Number(src: string, i: nat, octets: seq<Byte>, o: Byte)
    requires At(src, i, Decimal(o)) && |octets| <= 4
    ensures V4From(src, i, octets, 0, 0) == V4From(src, i + |Decimal(o)|, octets, |Decimal(o)|, o)
    decreases o
  {
    hide V4From, DecimalDigit, At;
    DigitOfChar(o % 10);
    var k := |Decimal(o)| - 1;
    AtLast(src, i, Decimal(o));
    assert src[i + k] == "0123456789"[o % 10];
    if o >= 10 {
      AtParts(src, i, Decimal(o / 10), ["0123456789"[o % 10]]);
      V4Number(src, i, octets, o / 10);
      V4Digit(src, i + k, octets, k, o / 10, o % 10);
    } else {
      V4Digit(src, i, octets, 0, 0, o);
    }
  }

  lemma V4Dot(src: string, i: nat, octets: seq<Byte>, o: Byte)
    requires At(src, i, Decimal(o) + ".") && |octets| <= 3
    ensures V4From(src, i, octets, 0, 0) == V4From(src, i + |Decimal(o)| + 1, octets + [o], 0, 0)
  {
    hide Decimal;
    AtParts(src, i, Decimal(o), ".");
    V4Number(src, i, octets, o);
    var j := i + |Decimal(o)|;
    assert src[j] == src[j..j + 1][0] == '.';
  }

  lemma V4Dotted(src: string, i: nat, a: seq<Byte>)
    requires |a| == 4 && At(src, i, Dotted(a)) && i + |Dotted(a)| == |src|
    ensures V4From(src, i, [], 0, 0) == V4(a, -1)
  {
    hide Decimal, At, V4From;
    var t0, t1, t2, t3 := Decimal(a[0]) + ".", Decimal(a[1]) + ".", Decimal(a[2]) + ".", Decimal(a[3]);
    FourParts(Decimal(a[0]), Decimal(a[1]), Decimal(a[2]), t3);
    AtParts(src, i, t0, t1 + (t2 + t3));
    V4Dot(src, i, [], a[0]);
    AtParts(src, i + |t0|, t1, t2 + t3);
    V4Dot(src, i + |t0|, [a[0]], a[1]);
    AtParts(src, i + |t0| + |t1|, t2, t3);
    V4Dot(src, i + |t0| + |t1|, [a[0], a[1]], a[2]);
    V4Last(src, i + |t0| + |t1| + |t2|, [a[0], a[1], a[2]], a[3]);
    FourOctets(a);
  }

  lemma FourParts(d0: string, d1: string, d2: string, d3: string)
    ensures d0 + "." + d1 + "." + d2 + "." + d3 == (d0 + ".") + ((d1 + ".") + ((d2 + ".") + d3))
  {
  }

  lemma FourOctets(a: seq<Byte>)
    requires |a| == 4
    ensures [] + [a[0]] == [a[0]] && [a[0]] + [a[1]] == [a[0], a[1]] && [a[0], a[1]] + [a[2]] == [a[0], a[1], a[2]]
    ensures [a[0], a[1], a[2]] + [a[3]] == a
  {
  }

  lemma V4Last(src: string, i: nat, octets: seq<Byte>, o: Byte)
    requires At(src, i, Decimal(o)) && i + |Decimal(o)| == |src| && |octets| <= 3
    ensures V4From(src, i, octets, 0, 0) == V4(octets + [o], -1)
  {
    V4Number(src, i, octets, o);
  }

  lemma ScanDotted(src: string, i: nat, st: State, a: seq<Byte>) returns (last: State)
    requires |a| == 4 && Fresh(src, i, st) && At(src, i, Dotted(a)) && i + |Dotted(a)| == |src| && st.tp + 4 <= 16
    ensures Fine(src, last) && Scan(src, i, st) == Scanned(last, -1, true)
    ensures !last.sawDigit && last.colon == st.colon && last.tp == st.tp + 4 && last.tmp == Stored(st.tmp, st.tp, a)
  {
    hide Decimal, V4From;
    V4Dotted(src, i, a);
    var rest := Decimal(a[1]) + "." + Decimal(a[2]) + "." + Decimal(a[3]);
    assert Dotted(a) == Decimal(a[0]) + ("." + rest);
    AtParts(src, i, Decimal(a[0]), "." + rest);
    var v := ScanDecimal(src, i, st, a[0]);
    var j := i + |Decimal(a[0])|;
    AtParts(src, j, ".", rest);
    assert src[j] == src[j..j + 1][0] == '.';
    last := Read(st, v, |Decimal(a[0])|).(tmp := Stored(st.tmp, st.tp, a), tp := st.tp + 4, sawDigit := false);
  }

  /** The state behind a leading double colon, */
  lemma ScanLeading(src: string, tail: string)
    requires src == "::" + tail
    ensures !BadStart(src)
    ensures Fresh(src, 2, Behind([], 2)) && Scan(src, Start(src), Initial(src)) == Scan(src, 2, Behind([], 2))
    ensures Behind([], 2).tmp == Zeros(16)
  {
    assert src == Groups([]) + "::" + tail;
    ScanFront(src, [], tail);
    assert [] + Zeros(16) == Zeros(16);
  }

  /** and behind the mark of a mapped address after it. */
  lemma ScanMapped(src: string, rest: string) returns (st: State)
    requires src == "::" + "ffff:" + rest && rest != ""
    ensures !BadStart(src)
    ensures Fresh(src, 7, st) && Scan(src, Start(src), Initial(src)) == Scan(src, 7, st)
    ensures st.colon == 0 && st.tp == 2 && st.tmp == TwoBytes(0xffff) + Zeros(14)
  {
    assert src == "::" + ("ffff:" + rest);
    ScanLeading(src, "ffff:" + rest);
    PrefixAt(src, rest);
    MarkStored();
    hide Scan, Hex, Zeros, Stored, BadStart, Start, Initial;
    ScanWord(src, 2, Behind([], 2), 0xffff);
    st := After(Behind([], 2), TwoBytes(0xffff), 7);
  }

  lemma MarkStored()
    ensures Hex(0xffff) == "ffff" && Stored(Zeros(16), 0, TwoBytes(0xffff)) == TwoBytes(0xffff) + Zeros(14)
  {
    assert Hex(0xf) == "f" && Hex(0xff) == "ff" && Hex(0xfff) == "fff";
  }

  lemma PrefixAt(src: string, rest: string)
    requires src == "::" + "ffff:" + rest && rest != ""
    ensures At(src, 2, "ffff" + ":") && 7 < |src|
  {
    assert src[2..7] == "ffff:" == "ffff" + ":";
  }

  /** An address that ends in an IPv4 address that is written as such. */
  lemma ReadsEncapsulated(a: seq<Byte>, len: nat, size: nat)
    requires |a| == 16 && ZeroRun(Words(a), 0, len) && (len == 6 || (len == 5 && Words(a)[5] == 0xffff))
    ensures Parsed("::" + (if len == 6 then "" else "ffff:") + Dotted(a[12..]), size)
      == if size < 16 then Emsgsize else Address(128, a)
  {
    var rest := Dotted(a[12..]);
    var prefix: seq<Byte> := if len == 6 then [] else TwoBytes(0xffff);
    EncapsulatedParts(a, len);
    hide Scan, Words, Dotted, Finish, Initial, BadStart, Start, Zeros, Parsed, Fresh, At, Behind;
    if len == 6 {
      var src := "::" + "" + rest;
      assert src == "::" + rest;
      ScanLeading(src, rest);
      AtEnd(src, "::", rest);
      assert Zeros(16) == [] + Zeros(16);
      FinishesDotted(src, 2, Behind([], 2), prefix, len, size, a);
    } else {
      var src := "::" + "ffff:" + rest;
      NonEmpty(a[12..]);
      var st := ScanMapped(src, rest);
      AtEnd(src, "::" + "ffff:", rest);
      FinishesDotted(src, 7, st, prefix, len, size, a);
    }
  }

  lemma NonEmpty(octets: seq<Byte>)
    requires |octets| == 4
    ensures Dotted(octets) != ""
  {
  }

  lemma FinishesDotted(src: string, i: nat, st: State, prefix: seq<Byte>, len: nat, size: nat, a: seq<Byte>)
    requires |a| == 16 && 2 * len + |prefix| == 12 && len > 0 && a == [] + Zeros(2 * len) + (prefix + a[12..])
    requires !BadStart(src) && Fresh(src, i, st) && Scan(src, Start(src), Initial(src)) == Scan(src, i, st)
    requires At(src, i, Dotted(a[12..])) && i + |Dotted(a[12..])| == |src|
    requires st.colon == 0 && st.tp == |prefix| && st.tmp == prefix + Zeros(16 - |prefix|)
    ensures Parsed(src, size) == if size < 16 then Emsgsize else Address(128, a)
  {
    hide Scan, Dotted, Finish, Initial, BadStart, Start, Zeros, Stored, Shifted, At, Fresh;
    var last := ScanDotted(src, i, st, a[12..]);
    StoredBetween(prefix, a[12..]);
    ShiftedParts([], prefix + a[12..], Zeros(2 * len));
    FinishAddress(src, last, last, true, size, a);
  }

  lemma StoredBetween(prefix: seq<Byte>, octets: seq<Byte>)
    requires |prefix| + |octets| <= 16
    ensures var n := 16 - |prefix| - |octets|;
      Stored(prefix + Zeros(16 - |prefix|), |prefix|, octets) == [] + (prefix + octets) + Zeros(n)
  {
  }

  /** Zeros, the mark of a mapped address if there is one, and the IPv4 address. */
  lemma EncapsulatedParts(a: seq<Byte>, len: nat)
    requires |a| == 16 && ZeroRun(Words(a), 0, len) && (len == 6 || (len == 5 && Words(a)[5] == 0xffff))
    ensures a == [] + Zeros(2 * len) + ((if len == 6 then [] else TwoBytes(0xffff)) + a[12..])
  {
    forall i | 0 <= i < 2 * len
      ensures a[i] == 0
    {
      assert Words(a)[i / 2] == 0;
    }
    assert len == 5 ==> a[10] == 255 && a[11] == 255;
  }

  // ----- the theorem

  /** Every address is read back exactly from the text that is written for it, if there is room for it. */
  lemma RoundTrip(a: seq<Byte>, base: int, len: nat, size: nat)
    requires |a| == 16 && BestRun(Words(a), base, len) && (base != -1 ==> 0 <= base && base + len <= 8)
    ensures Parsed(TextOf(a, base, len), size) == if size < 16 then Emsgsize else Address(128, a)
  {
    hide Parsed, Words, Groups, Dotted;
    if base == -1 {
      ReadsPlain(a, size);
    } else if Encapsulated(Words(a), base, len) {
      ReadsEncapsulated(a, len, size);
    } else {
      ReadsRun(a, base, len, size);
    }
  }

  /** Writes an address and reads the text. */
  method WriteAndRead(a: seq<Byte>) returns (r: Result)
    requires |a| == 16
    ensures r == Address(128, a)
  {
    hide Parsed, Words, BestRun, TextOf;
    var text, base, len := InetNtop6(a, TMP_SIZE);
    RoundTrip(a, base, len, 16);
    r := InetNetPtonIpv6(text.value, 16);
  }

  /** Writes the four octets of an IPv4 address and reads the text: they come back whenever the text fits,
      and 16 characters are always enough. */
  method WriteAndReadV4(a: seq<Byte>, size: nat) returns (octets: Option<seq<Byte>>)
    requires |a| == 4
    ensures octets == None || octets == Some(a)
    ensures size >= 16 ==> octets == Some(a)
  {
    hide Dotted, Decimal, V4From;
    DottedLength(a);
    var text := InetNtop4(a, size);
    if text.None? {
      return None;
    }
    V4Dotted(text.value, 0, a);
    var dst := new Byte[4](_ => 0);
    StoredAll(dst[..], a);
    var ok, bits := GetV4(text.value, 0, dst, 0);
    return Some(dst[..]);
  }
}
