/** Addresses in any spelling: digits in either case, with leading zeros. */
module Ipv6Digits {
  import opened Common
  import opened Ipv6Parse
  import opened Ipv6RoundTrip
  import opened Ipv6Prefix

  // ----- digits

  /** c is the digit d, in one of the two cases. */
  ghost predicate IsDigit(c: char, d: nat) {
    d < 16 && (c == "0123456789abcdef"[d] || c == "0123456789ABCDEF"[d])
  }

  lemma DigitExactly(c: char, d: nat)
    ensures HexDigit(c) == Some(d) <==> IsDigit(c, d)
    ensures DecimalDigit(c) == Some(d) <==> d < 10 && c == "0123456789"[d]
  {
  }

  // ----- the case of the digits does not matter

  ghost function LowerDigit(c: char): char {
    if 'A' <= c <= 'F' then "abcdef"[(c - 'A') as int] else c
  }

  ghost function Lowered(src: string): (r: string)
    ensures |r| == |src|
  {
    seq(|src|, i requires 0 <= i < |src| => LowerDigit(src[i]))
  }

  lemma LowerSame(c: char)
    ensures HexDigit(LowerDigit(c)) == HexDigit(c) && DecimalDigit(LowerDigit(c)) == DecimalDigit(c)
    ensures LowerDigit(c) == ':' <==> c == ':'
    ensures LowerDigit(c) == '.' <==> c == '.'
    ensures LowerDigit(c) == '/' <==> c == '/'
  {
  }

  lemma {:induction false} BitsLowered(src: string, i: nat, n: nat, val: nat)
    requires i <= |src| && val <= 128
    ensures BitsFrom(Lowered(src), i, n, val) == BitsFrom(src, i, n, val)
    decreases |src| - i
  {
    hide DecimalDigit;
    if i < |src| {
      LowerSame(src[i]);
      var d := DecimalDigit(src[i]);
      if d.Some? && !((n != 0 && val == 0) || val * 10 + d.value > 128) {
        BitsLowered(src, i + 1, n + 1, val * 10 + d.value);
      }
    }
  }

  lemma {:induction false} V4Lowered(src: string, i: nat, octets: seq<Byte>, n: nat, val: Byte)
    requires i <= |src| && |octets| <= 4
    ensures V4From(Lowered(src), i, octets, n, val) == V4From(src, i, octets, n, val)
    decreases |src| - i
  {
    hide DecimalDigit, BitsFrom;
    if i < |src| {
      LowerSame(src[i]);
      BitsLowered(src, i + 1, 0, 0);
      var d := DecimalDigit(src[i]);
      if d.Some? {
        if !((n != 0 && val == 0) || val * 10 + d.value > 255) {
          V4Lowered(src, i + 1, octets, n + 1, val * 10 + d.value);
        }
      } else if src[i] == '.' && |octets| <= 3 {
        V4Lowered(src, i + 1, octets + [val], 0, 0);
      }
    }
  }

  lemma {:induction false} ScanLowered(src: string, i: nat, st: State)
    requires i <= |src| && Fine(src, st)
    ensures Fine(Lowered(src), st) && Scan(Lowered(src), i, st) == Scan(src, i, st)
    decreases |src| - i
  {
    hide HexDigit, BitsFrom, V4From, Stored;
    if i < |src| {
      LowerSame(src[i]);
      BitsLowered(src, i + 1, 0, 0);
      V4Lowered(src, st.curtok, [], 0, 0);
      var d := HexDigit(src[i]);
      if d.Some? {
        if st.digits < 4 {
          DigitFine(src, i, st, d.value);
          ScanLowered(src, i + 1, AddDigit(st, d.value));
        }
      } else if src[i] == ':' {
        if !st.sawDigit {
          if st.colon == -1 {
            ScanLowered(src, i + 1, st.(curtok := i + 1, colon := st.tp));
          }
        } else if i + 1 < |src| && st.tp + 2 <= 16 {
          ScanLowered(src, i + 1, StoreWord(st).(curtok := i + 1));
        }
      }
    }
  }

  /** Every text is read like the one with its digits in lower case. */
  lemma CaseIrrelevant(src: string, size: nat)
    ensures Parsed(Lowered(src), size) == Parsed(src, size)
  {
    hide Scan, Finish;
    if src != "" {
      LowerSame(src[0]);
    }
    if |src| > 1 {
      LowerSame(src[1]);
    }
    ScanLowered(src, Start(src), Initial(src));
    if !BadStart(src) {
      FinishAnywhere(src, Lowered(src), Scan(src, Start(src), Initial(src)), size);
    }
  }

  /** What follows the main loop does not look at the text. */
  lemma FinishAnywhere(src: string, other: string, scanned: Scanned, size: nat)
    requires |src| == |other| && (scanned.Scanned? ==> Fine(src, scanned.st) && -1 <= scanned.bits <= 128)
    ensures Finish(src, scanned, size) == Finish(other, scanned, size)
  {
    hide Shifted, Stored;
  }

  // ----- the value of a word

  ghost predicate SomeDigit(c: char) {
    exists v :: IsDigit(c, v)
  }

  /** The value of a digit, and of a word: the sum of each digit times its power of 16. */
  ghost function DigitValue(c: char): (d: nat)
    requires SomeDigit(c)
    ensures IsDigit(c, d)
  {
    var v :| IsDigit(c, v);
    v
  }

  ghost predicate AllDigits(t: string) {
    forall i :: 0 <= i < |t| ==> SomeDigit(t[i])
  }

  ghost function WordValue(t: string): nat
    requires AllDigits(t)
  {
    if t == "" then 0 else 16 * WordValue(t[..|t| - 1]) + DigitValue(t[|t| - 1])
  }

  lemma DigitsAreHex(t: string)
    ensures AllHex(t) <==> AllDigits(t)
  {
    forall i | 0 <= i < |t|
      ensures HexDigit(t[i]).Some? <==> SomeDigit(t[i])
    {
      OneDigit(t[i]);
    }
  }

  lemma OneDigit(c: char)
    ensures HexDigit(c).Some? <==> SomeDigit(c)
  {
    if HexDigit(c).Some? {
      DigitExactly(c, HexDigit(c).value);
    }
    if SomeDigit(c) {
      var v :| IsDigit(c, v);
      DigitExactly(c, v);
    }
  }

  lemma {:induction false} WordBounded(t: string)
    requires AllDigits(t) && |t| <= 4
    ensures WordValue(t) < [1, 16, 256, 4096, 65536][|t|]
  {
    if t != "" {
      WordBounded(t[..|t| - 1]);
    }
  }

  lemma {:induction false} ScanValue(src: string, i: nat, st: State, t: string)
    requires Fresh(src, i, st) && AllDigits(t) && 0 < |t| <= 4 && At(src, i, t)
    ensures Fine(src, Read(st, WordValue(t), |t|)) && Scan(src, i, st) == Scan(src, i + |t|, Read(st, WordValue(t), |t|))
    decreases |t|
  {
    hide Scan, HexDigit, At;
    WordBounded(t);
    var k := |t| - 1;
    assert t == t[..k] + [t[k]];
    AtLast(src, i, t);
    AtParts(src, i, t[..k], [t[k]]);
    var before := if k == 0 then st else Read(st, WordValue(t[..k]), k);
    if k > 0 {
      ScanValue(src, i, st, t[..k]);
    }
    var d := DigitValue(t[k]);
    DigitExactly(t[k], d);
    assert AddDigit(before, d) == Read(st, WordValue(t), k + 1);
    ScanDigit(src, i + k, before, d);
  }

  // ----- whole addresses

  /** The values of the words. */
  ghost predicate Spell(ts: seq<string>, ws: seq<nat>) {
    |ts| == |ws| && forall i :: 0 <= i < |ts| ==> 1 <= |ts[i]| <= 4 && AllDigits(ts[i]) && ws[i] == WordValue(ts[i])
  }

  lemma SpellsWords(ts: seq<string>, ws: seq<nat>)
    requires Spell(ts, ws)
    ensures AllWords(ws)
  {
    forall i | 0 <= i < |ws|
      ensures ws[i] < 65536
    {
      WordBounded(ts[i]);
    }
  }

  lemma ScanSpelled(src: string, i: nat, st: State, t: string)
    requires Fresh(src, i, st) && AllDigits(t) && 0 < |t| <= 4 && At(src, i, t + ":") && st.tp + 2 <= 16
    requires i + |t| + 1 < |src|
    ensures WordValue(t) < 65536
    ensures var j := i + |t| + 1; var next := After(st, TwoBytes(WordValue(t)), j);
      Fresh(src, j, next) && Scan(src, i, st) == Scan(src, j, next)
  {
    WordBounded(t);
    AtParts(src, i, t, ":");
    ScanValue(src, i, st, t);
    var j := i + |t|;
    assert src[j] == src[j..j + 1][0] == ':';
    assert StoreWord(Read(st, WordValue(t), |t|)).(curtok := j + 1) == After(st, TwoBytes(WordValue(t)), j + 1);
  }

  lemma {:induction false} ScanSpelledAll(src: string, i: nat, st: State, ts: seq<string>, ws: seq<nat>)
    requires Fresh(src, i, st) && Spell(ts, ws) && AllWords(ws) && At(src, i, WithColons(ts)) && st.tp + 2 * |ts| <= 16
    requires i + |WithColons(ts)| < |src|
    ensures var j := i + |WithColons(ts)|; var next := After(st, BytesOf(ws), j);
      Fresh(src, j, next) && Scan(src, i, st) == Scan(src, j, next)
    decreases |ts|
  {
    hide Scan, WordValue, Stored, At, BytesOf;
    if ts == [] {
      StoredNothing(st.tmp, st.tp);
      NoBytes(ws);
    } else {
      var k := |ts| - 1;
      var text := WithColons(ts[..k]);
      assert WithColons(ts) == text + (ts[k] + ":");
      AtParts(src, i, text, ts[k] + ":");
      ScanSpelledAll(src, i, st, ts[..k], ws[..k]);
      var next := After(st, BytesOf(ws[..k]), i + |text|);
      ScanSpelled(src, i + |text|, next, ts[k]);
      assert ws == ws[..k] + [ws[k]];
      BytesOfMore(ws[..k], ws[k]);
      StoredTwice(st.tmp, st.tp, BytesOf(ws[..k]), TwoBytes(ws[k]));
    }
  }

  lemma NoBytes(ws: seq<nat>)
    requires ws == []
    ensures BytesOf(ws) == []
  {
  }

  /** The last words, up to the end of the text. */
  lemma ScanSpelledEnd(src: string, i: nat, st: State, ts: seq<string>, ws: seq<nat>) returns (last: State)
    requires Fresh(src, i, st) && Spell(ts, ws) && AllWords(ws) && ts != []
    requires At(src, i, Spelled(ts)) && i + |Spelled(ts)| == |src| && st.tp + 2 * |ts| <= 16
    ensures Fine(src, last) && Scan(src, i, st) == Scanned(last, -1, false)
    ensures last.sawDigit && last.tp + 2 <= 16 && last.colon == st.colon && last.tp == st.tp + 2 * |ts| - 2
    ensures StoreWord(last).tmp == Stored(st.tmp, st.tp, BytesOf(ws))
  {
    hide Scan, WordValue, Stored, At, BytesOf, WithColons;
    var k := |ts| - 1;
    var text := WithColons(ts[..k]);
    AtParts(src, i, text, ts[k]);
    ScanSpelledAll(src, i, st, ts[..k], ws[..k]);
    var j := i + |text|;
    var next := After(st, BytesOf(ws[..k]), j);
    ScanValue(src, j, next, ts[k]);
    last := Read(next, WordValue(ts[k]), |ts[k]|);
    ScanStops(src, last);
    assert ws == ws[..k] + [ws[k]];
    BytesOfMore(ws[..k], ws[k]);
    StoredTwice(st.tmp, st.tp, BytesOf(ws[..k]), TwoBytes(ws[k]));
  }

  /** Words with colons between them. */
  ghost function Spelled(ts: seq<string>): string {
    if ts == [] then "" else WithColons(ts[..|ts| - 1]) + ts[|ts| - 1]
  }

  lemma AreSpelled(ts: seq<string>, ws: seq<nat>)
    requires Spell(ts, ws)
    ensures AreWords(ts)
  {
    forall k | 0 <= k < |ts|
      ensures IsWord(ts[k])
    {
      DigitsAreHex(ts[k]);
    }
  }

  /** Eight words in any spelling are read as the address of their values. */
  lemma ReadsSpelled(ts: seq<string>, ws: seq<nat>, size: nat)
    requires Spell(ts, ws) && |ts| == 8
    ensures AllWords(ws) && Parsed(Spelled(ts), size) == if size < 16 then Emsgsize else Address(128, BytesOf(ws))
  {
    var src := Spelled(ts);
    SpellsWords(ts, ws);
    AreSpelled(ts, ws);
    FirstChar(ts[..7]);
    assert src[0] == WithColons(ts[..7])[0];
    hide Scan, Spelled, Stored, Finish, BytesOf;
    assert At(src, 0, src);
    InitialFresh(src);
    var last := ScanSpelledEnd(src, 0, Initial(src), ts, ws);
    StoredAll(Initial(src).tmp, BytesOf(ws));
    FinishAddress(src, last, StoreWord(last), false, size, BytesOf(ws));
  }

  /** The state behind a double colon. */
  lemma ScanSpelledGap(src: string, head: string, front: seq<string>, fs: seq<nat>, rest: string)
    requires Spell(front, fs) && AllWords(fs) && |front| == |fs| <= 7
    requires head == WithColons(front) + DoubleColon(front) && src == head + rest
    ensures !BadStart(src) && At(src, |head|, rest) && |src| == |head| + |rest|
    ensures var st := Behind(fs, |head|);
      Fresh(src, |head|, st) && Scan(src, Start(src), Initial(src)) == Scan(src, |head|, st)
  {
    hide Scan, WithColons, Spell, AreWords, Behind, Fresh, Initial, Start, BadStart, At, AllWords, IsWord;
    AtEnd(src, head, rest);
    if front == [] {
      NoFront();
      NoneSpelled(fs);
      ScanLeading(src, rest);
    } else {
      AreSpelled(front, fs);
      FirstChar(front);
      AtStart(src, WithColons(front), ":", rest);
      ScanSpelledWords(src, front, fs);
    }
  }

  lemma NoneSpelled(ws: seq<nat>)
    ensures Spell([], ws) ==> ws == []
  {
  }

  lemma ScanSpelledWords(src: string, front: seq<string>, fs: seq<nat>)
    requires Spell(front, fs) && AllWords(fs) && |front| <= 7 && At(src, 0, WithColons(front)) && |WithColons(front)| < |src|
    requires src[0] != ':' && src[|WithColons(front)|] == ':'
    ensures !BadStart(src)
    ensures var i := |WithColons(front)| + 1; var st := Behind(fs, i);
      Fresh(src, i, st) && Scan(src, Start(src), Initial(src)) == Scan(src, i, st)
  {
    hide Scan, WithColons, At, Stored, BytesOf;
    InitialFresh(src);
    StoredFront(BytesOf(fs));
    var i := |WithColons(front)|;
    ScanSpelledAll(src, 0, Initial(src), front, fs);
    ScanSecondColon(src, i, After(Initial(src), BytesOf(fs), i));
  }

  /** Words in any spelling around a double colon are read as the address with zeros in the gap. */
  lemma ReadsSpelledGap(front: seq<string>, fs: seq<nat>, back: seq<string>, bs: seq<nat>, size: nat)
    requires Spell(front, fs) && Spell(back, bs) && |front| + |back| <= 7
    ensures AllWords(fs) && AllWords(bs)
    ensures var a := BytesOf(fs) + Zeros(16 - 2 * |front| - 2 * |back|) + BytesOf(bs);
      Parsed(WithColons(front) + DoubleColon(front) + Spelled(back), size) == if size < 16 then Emsgsize else Address(128, a)
  {
    SpellsWords(front, fs);
    SpellsWords(back, bs);
    hide Spell, BytesOf, Zeros, Parsed, WithColons, Spelled, AllWords;
    var head := WithColons(front) + DoubleColon(front);
    ReadsBehindGap(head + Spelled(back), head, front, fs, back, bs, size);
  }

  lemma ReadsBehindGap(src: string, head: string, front: seq<string>, fs: seq<nat>, back: seq<string>, bs: seq<nat>, size: nat)
    requires Spell(front, fs) && Spell(back, bs) && |front| + |back| <= 7 && AllWords(fs) && AllWords(bs)
    requires head == WithColons(front) + DoubleColon(front) && src == head + Spelled(back)
    ensures Parsed(src, size) == if size < 16 then Emsgsize
      else Address(128, BytesOf(fs) + Zeros(16 - 2 * |front| - 2 * |back|) + BytesOf(bs))
  {
    hide Spell, Scan, Stored, Finish, BytesOf, Shifted, At, BadStart, Behind, AllWords, Fresh, Initial, Start, Zeros, Parsed, WithColons, Spelled;
    hide DoubleColon, WordValue;
    SameCount(front, fs);
    SameCount(back, bs);
    ScanSpelledGap(src, head, front, fs, Spelled(back));
    var st, a := GapFilled(fs, bs, |head|, 16 - 2 * |front| - 2 * |back|);
    FinishSpelledGap(src, |head|, st, back, bs, size, a);
  }

  lemma SameCount(ts: seq<string>, ws: seq<nat>)
    requires Spell(ts, ws)
    ensures |ts| == |ws|
  {
  }

  /** What the shift makes of the words behind the double colon, stored after those before it. */
  lemma GapFilled(fs: seq<nat>, bs: seq<nat>, i: nat, gap: nat) returns (st: State, a: seq<Byte>)
    requires AllWords(fs) && AllWords(bs) && 2 * |fs| + 2 * |bs| + gap == 16 && gap > 0
    ensures st == Behind(fs, i) && |st.tmp| == 16 && st.tp == st.colon == 2 * |fs|
    ensures |a| == 16 && a == BytesOf(fs) + Zeros(gap) + BytesOf(bs)
    ensures Shifted(Stored(st.tmp, st.tp, BytesOf(bs)), st.tp, 2 * |bs|, 16, 1) == a
  {
    st := Behind(fs, i);
    a := BytesOf(fs) + Zeros(gap) + BytesOf(bs);
    hide BytesOf, Stored, Shifted, Zeros;
    BehindStored(fs, i, BytesOf(bs), Zeros(gap));
    ShiftedParts(BytesOf(fs), BytesOf(bs), Zeros(gap));
  }

  lemma FinishSpelledGap(src: string, i: nat, st: State, back: seq<string>, bs: seq<nat>, size: nat, a: seq<Byte>)
    requires Spell(back, bs) && AllWords(bs) && |back| == |bs| && |a| == 16
    requires Fresh(src, i, st) && |st.tmp| == 16 && 0 <= st.colon == st.tp && st.tp + 2 * |bs| < 16
    requires Shifted(Stored(st.tmp, st.tp, BytesOf(bs)), st.tp, 2 * |bs|, 16, 1) == a
    requires !BadStart(src) && Scan(src, Start(src), Initial(src)) == Scan(src, i, st)
    requires At(src, i, Spelled(back)) && i + |Spelled(back)| == |src|
    ensures Parsed(src, size) == if size < 16 then Emsgsize else Address(128, a)
  {
    hide Scan, Stored, Finish, BytesOf, Shifted, At, BadStart, AllWords, Initial, Start, Spell;
    if back == [] {
      NoBytes(bs);
      StoredNothing(st.tmp, st.tp);
      ScanStops(src, st);
      FinishAddress(src, st, st, false, size, a);
    } else {
      hide Spelled, Fresh;
      var last := ScanSpelledEnd(src, i, st, back, bs);
      FinishAddress(src, last, StoreWord(last), false, size, a);
    }
  }
}
