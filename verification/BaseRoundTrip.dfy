/** Encoding, grouping and decoding together: the bytes come back. */
module BaseRoundTrip {
  import opened BaseCode
  import opened BaseDecoder
  import opened BaseEncoder
  import opened BitPacking
  import opened ByteBits
  import opened Grouping
  import opened LookupTables
  import opened Pieces

  ghost predicate NoValue(s: seq<Byte>, lookup: seq<int>)
    requires |lookup| == 256
  {
    forall i :: 0 <= i < |s| ==> !(0 <= lookup[s[i] as int] < 256)
  }

  /** The table finds each letter of the alphabet. */
  ghost predicate Inverts(lookup: seq<int>, alphabet: seq<Byte>)
    requires |lookup| == 256
  {
    |alphabet| <= 256 && forall i :: 0 <= i < |alphabet| ==> lookup[alphabet[i] as int] == i
  }

  lemma {:induction false} SignificantJoin(s: seq<Byte>, t: seq<Byte>, lookup: seq<int>)
    requires |lookup| == 256
    ensures Significant(s + t, lookup) == Significant(s, lookup) + Significant(t, lookup)
    decreases |t|
  {
    if t == [] {
      assert s + t == s;
    } else {
      assert (s + t)[..|s + t| - 1] == s + t[..|t| - 1];
      SignificantJoin(s, t[..|t| - 1], lookup);
    }
  }

  lemma {:induction false} NothingSignificant(s: seq<Byte>, lookup: seq<int>)
    requires |lookup| == 256 && NoValue(s, lookup)
    ensures Significant(s, lookup) == []
  {
    if s != [] {
      NothingSignificant(s[..|s| - 1], lookup);
    }
  }

  lemma OneSignificant(text: seq<Byte>, c: Byte, value: Byte, lookup: seq<int>)
    requires |lookup| == 256 && lookup[c as int] == value as int
    ensures Significant(text + [c], lookup) == Significant(text, lookup) + [value]
  {
    assert (text + [c])[..|text|] == text;
    assert (value as int) as Byte == value;
  }

  lemma {:induction false} LettersSignificant(values: seq<Byte>, alphabet: seq<Byte>, lookup: seq<int>)
    requires |lookup| == 256 && Inverts(lookup, alphabet) && AllSmall(values, |alphabet|)
    ensures Significant(Letters(values, alphabet), lookup) == values
  {
    if values != [] {
      var front, last := values[..|values| - 1], values[|values| - 1];
      LettersSignificant(front, alphabet, lookup);
      OneSignificant(Letters(front, alphabet), alphabet[last as int], last, lookup);
      hide Significant, Inverts;
      assert Letters(values, alphabet) == Letters(front, alphabet) + [alphabet[last as int]];
      assert values == front + [last];
    }
  }

  lemma {:induction false} GroupsSignificant(m: seq<Byte>, g: nat, separator: seq<Byte>, lookup: seq<int>)
    requires |lookup| == 256 && NoValue(separator, lookup)
    ensures Significant(Grouped(m, g, separator), lookup) == Significant(m, lookup)
    decreases |m|
  {
    if g > 0 && |m| > g {
      var head, rest := m[..g], m[g..];
      GroupsSignificant(rest, g, separator, lookup);
      SignificantJoin(head + separator, Grouped(rest, g, separator), lookup);
      SignificantJoin(head, separator, lookup);
      NothingSignificant(separator, lookup);
      SignificantJoin(head, rest, lookup);
      assert m == head + rest;
      assert Significant(head, lookup) + [] == Significant(head, lookup);
    }
  }

  /** The values are all that matters in the text, whatever padding, separators and terminator were put in. */
  lemma TextSignificant(values: seq<Byte>, alphabet: seq<Byte>, padding: Padding, block: nat, g: nat,
      separator: seq<Byte>, terminator: seq<Byte>, lookup: seq<int>)
    requires |lookup| == 256 && Inverts(lookup, alphabet) && AllSmall(values, |alphabet|) && block > 0
    requires NoValue(separator, lookup) && NoValue(terminator, lookup)
    requires padding.PadWith? ==> NoValue([padding.letter], lookup)
    ensures Significant(Grouped(Text(values, alphabet, padding, block), g, separator) + terminator, lookup) == values
  {
    var text := Text(values, alphabet, padding, block);
    var pads := Pads(PadCount(|values|, block), padding);
    SignificantJoin(Grouped(text, g, separator), terminator, lookup);
    NothingSignificant(terminator, lookup);
    GroupsSignificant(text, g, separator, lookup);
    SignificantJoin(Letters(values, alphabet), pads, lookup);
    LettersSignificant(values, alphabet, lookup);
    assert padding.PadWith? ==> [padding.letter][0] == padding.letter;
    NothingSignificant(pads, lookup);
    assert values + [] == values;
  }

  /** Encodes a message that comes in pieces. */
  method Encode(k: nat, alphabet: seq<Byte>, padding: Padding, pieces: seq<seq<Byte>>)
    returns (text: seq<Byte>, ghost values: seq<Byte>)
    requires 1 <= k <= 7 && |alphabet| == Base(k)
    ensures IsEncoding(Joined(pieces), values, k) && AllSmall(values, |alphabet|)
    ensures text == Text(values, alphabet, padding, Characters(k))
    ensures forall v :: IsEncoding(Joined(pieces), v, k) ==>
      AllSmall(v, |alphabet|) && text == Text(v, alphabet, padding, Characters(k))
  {
    hide IsEncoding, AllSmall, Text, Base, BlockBits, Characters;
    var encoder := new BaseNEncoder(k, alphabet, padding);
    hide BaseNEncoder.Valid;
    JoinAll(pieces);
    for i := 0 to |pieces|
      invariant fresh(encoder) && fresh(encoder.outBuf) && encoder.Valid() && encoder.before == []
      invariant encoder.message == Joined(pieces[..i])
    {
      JoinNext(pieces, i);
      values := encoder.Put(pieces[i], false);
    }
    JoinNothing(Joined(pieces));
    values := encoder.Put([], true);
    text := encoder.output;
    JoinNothing(Text(values, alphabet, padding, Characters(k)));
    forall v | IsEncoding(Joined(pieces), v, k)
      ensures v == values
    {
      EncodingUnique(Joined(pieces), v, values, k);
    }
  }

  lemma JoinNothing(s: seq<Byte>)
    ensures s + [] == s && [] + s == s
  {
  }

  /** Cuts a text that comes in pieces into groups. */
  method Group(g: nat, separator: seq<Byte>, terminator: seq<Byte>, pieces: seq<seq<Byte>>) returns (text: seq<Byte>)
    ensures text == Grouped(Joined(pieces), g, separator) + terminator
  {
    var grouper := new Grouper(g, separator, terminator);
    hide Grouper.Valid, Grouped;
    JoinAll(pieces);
    for i := 0 to |pieces|
      invariant fresh(grouper) && grouper.Valid() && grouper.before == [] && grouper.message == Joined(pieces[..i])
    {
      JoinNext(pieces, i);
      grouper.Put(pieces[i], false);
    }
    JoinNothing(Joined(pieces));
    grouper.Put([], true);
    JoinNothing(Grouped(Joined(pieces), g, separator));
    text := grouper.output;
  }

  /** Decodes a text that comes in pieces. */
  method Decode(k: nat, lookup: seq<int>, pieces: seq<seq<Byte>>) returns (bytes: seq<Byte>)
    requires 1 <= k <= 7 && IsLookup(lookup, k)
    ensures IsDecoding(Significant(Joined(pieces), lookup), bytes, k)
  {
    hide IsDecoding, Significant;
    var decoder := new BaseNDecoder(k, lookup);
    hide BaseNDecoder.Valid;
    JoinAll(pieces);
    ghost var out: seq<Byte> := [];
    for i := 0 to |pieces|
      invariant fresh(decoder) && fresh(decoder.outBuf) && decoder.Valid() && decoder.before == []
      invariant decoder.text == Joined(pieces[..i])
    {
      JoinNext(pieces, i);
      out := decoder.Put(pieces[i], false);
    }
    JoinNothing(Joined(pieces));
    out := decoder.Put([], true);
    JoinNothing(out);
    bytes := decoder.output;
  }

  /** For every width, alphabet, padding and grouping, and for every way in which the message and then the
      text are cut into pieces, decoding gives the message back, as long as nothing that was put in
      between has a value of its own. */
  lemma RoundTrip(k: nat, alphabet: seq<Byte>, padding: Padding, g: nat, separator: seq<Byte>, terminator: seq<Byte>,
      lookup: seq<int>, pieces: seq<seq<Byte>>, values: seq<Byte>, textPieces: seq<seq<Byte>>, bytes: seq<Byte>)
    requires 1 <= k <= 7 && |alphabet| == Base(k) && |lookup| == 256 && Inverts(lookup, alphabet)
    requires NoValue(separator, lookup) && NoValue(terminator, lookup)
    requires padding.PadWith? ==> NoValue([padding.letter], lookup)
    requires IsEncoding(Joined(pieces), values, k) && AllSmall(values, |alphabet|)
    requires Joined(textPieces) == Grouped(Text(values, alphabet, padding, Characters(k)), g, separator) + terminator
    requires IsDecoding(Significant(Joined(textPieces), lookup), bytes, k)
    ensures bytes == Joined(pieces)
  {
    hide IsEncoding, IsDecoding, AllSmall, Text, Base, Inverts, NoValue, Significant, Grouped;
    TextSignificant(values, alphabet, padding, Characters(k), g, separator, terminator, lookup);
    DecodingUndoesEncoding(Joined(pieces), values, bytes, k);
  }

  /** A table for an alphabet of the right size finds all its letters exactly if no character stands for two
      values, and its values have k bits in any case. */
  lemma TableInverts(lookup: seq<int>, alphabet: seq<Byte>, caseInsensitive: bool, k: nat)
    requires k <= 7 && |alphabet| == Base(k) && |lookup| == 256
    requires IsTable(lookup, Codes(alphabet), |alphabet|, caseInsensitive)
    ensures Inverts(lookup, alphabet) <==> Unambiguous(Codes(alphabet), |alphabet|, caseInsensitive)
    ensures IsLookup(lookup, k)
  {
    hide IsTable, Matches, Base;
    BaseIsSmall(k);
    var codes := Codes(alphabet);
    if Unambiguous(codes, |codes|, caseInsensitive) {
      forall i | 0 <= i < |alphabet|
        ensures lookup[alphabet[i] as int] == i
      {
        EntryOfLetter(lookup, codes, i, caseInsensitive);
      }
    }
    if Inverts(lookup, alphabet) {
      forall i: nat, j: nat, c: int | i < j < |codes| && Matches(codes[i], c, caseInsensitive)
        ensures !Matches(codes[j], c, caseInsensitive)
      {
        EntryOfTwo(lookup, codes, i, j, c, caseInsensitive);
        assert lookup[alphabet[i] as int] == i;
      }
    }
    ValuesFit(lookup, codes, caseInsensitive, k);
  }

  lemma BaseIsSmall(k: nat)
    requires k <= 7
    ensures Base(k) <= 256
  {
  }

  lemma EntryOfLetter(lookup: seq<int>, codes: seq<int>, i: nat, caseInsensitive: bool)
    requires |lookup| == 256 && i < |codes| && 0 <= codes[i] < 256 && IsTable(lookup, codes, |codes|, caseInsensitive)
    ensures i <= lookup[codes[i]] < |codes| && Matches(codes[i], codes[i], caseInsensitive)
    ensures Matches(codes[lookup[codes[i]]], codes[i], caseInsensitive)
  {
    var c := codes[i];
    assert Matches(c, c, caseInsensitive);
    assert IsEntry(lookup[c], codes, |codes|, c, caseInsensitive);
  }

  lemma EntryOfTwo(lookup: seq<int>, codes: seq<int>, i: nat, j: nat, c: int, caseInsensitive: bool)
    requires |lookup| == 256 && i < j < |codes| && 0 <= codes[i] < 256 && IsTable(lookup, codes, |codes|, caseInsensitive)
    requires Matches(codes[i], c, caseInsensitive)
    ensures Matches(codes[j], c, caseInsensitive) ==> lookup[codes[i]] >= j
  {
    MatchesAlike(codes[i], codes[j], c, caseInsensitive);
    assert IsEntry(lookup[codes[i]], codes, |codes|, codes[i], caseInsensitive);
  }

  lemma MatchesAlike(a: int, b: int, c: int, caseInsensitive: bool)
    requires Matches(a, c, caseInsensitive)
    ensures Matches(b, c, caseInsensitive) ==> Matches(b, a, caseInsensitive)
  {
  }

  lemma ValuesFit(lookup: seq<int>, codes: seq<int>, caseInsensitive: bool, k: nat)
    requires k <= 7 && |codes| == Base(k) && |lookup| == 256 && IsTable(lookup, codes, |codes|, caseInsensitive)
    ensures IsLookup(lookup, k)
  {
    hide Base;
    forall c | 0 <= c < 256 && 0 <= lookup[c] < 256
      ensures Fits(lookup[c] as Byte, k)
    {
      assert IsEntry(lookup[c], codes, |codes|, c, caseInsensitive);
      SmallFits(lookup[c], k);
    }
  }

  /** No character of s stands for a value. */
  ghost predicate Foreign(s: seq<Byte>, alphabet: seq<Byte>, caseInsensitive: bool) {
    forall i, j :: 0 <= i < |s| && 0 <= j < |alphabet| ==> !Matches(alphabet[j] as int, s[i] as int, caseInsensitive)
  }

  lemma ForeignHasNoValue(s: seq<Byte>, lookup: seq<int>, alphabet: seq<Byte>, caseInsensitive: bool)
    requires |lookup| == 256 && Foreign(s, alphabet, caseInsensitive)
    requires IsTable(lookup, Codes(alphabet), |alphabet|, caseInsensitive)
    ensures NoValue(s, lookup)
  {
    forall i | 0 <= i < |s|
      ensures !(0 <= lookup[s[i] as int] < 256)
    {
      assert IsEntry(lookup[s[i] as int], Codes(alphabet), |alphabet|, s[i] as int, caseInsensitive);
    }
  }

  /** Cuts a text into pieces, anywhere. */
  method CutUp(s: seq<Byte>) returns (pieces: seq<seq<Byte>>)
    ensures Joined(pieces) == s
  {
    pieces := [];
    var done := 0;
    while done < |s|
      invariant done <= |s| && Joined(pieces) == s[..done]
    {
      var next: nat :| done < next <= |s|;
      assert (pieces + [s[done..next]])[..|pieces|] == pieces;
      assert s[..next] == s[..done] + s[done..next];
      pieces, done := pieces + [s[done..next]], next;
    }
    assert s[..done] == s;
  }

  /** From a message in pieces to its grouped text, and from that in pieces back to the message. */
  method EncodeAndDecode(k: nat, alphabet: seq<Byte>, caseInsensitive: bool, padding: Padding, g: nat, separator: seq<Byte>,
                         terminator: seq<Byte>, pieces: seq<seq<Byte>>) returns (bytes: seq<Byte>)
    requires 1 <= k <= 7 && |alphabet| == Base(k) && Unambiguous(Codes(alphabet), |alphabet|, caseInsensitive)
    requires Foreign(separator, alphabet, caseInsensitive) && Foreign(terminator, alphabet, caseInsensitive)
    requires padding.PadWith? ==> Foreign([padding.letter], alphabet, caseInsensitive)
    ensures bytes == Joined(pieces)
  {
    hide IsEncoding, IsDecoding, AllSmall, Text, Base, Inverts, NoValue, Significant, Grouped, Foreign, IsTable, IsLookup, Joined;
    hide Unambiguous;
    var table := new int[256](_ => -1);
    var ok := InitializeDecodingLookupArray(table, alphabet, caseInsensitive);
    var lookup := table[..];
    TableInverts(lookup, alphabet, caseInsensitive, k);
    ForeignHasNoValue(separator, lookup, alphabet, caseInsensitive);
    ForeignHasNoValue(terminator, lookup, alphabet, caseInsensitive);
    if padding.PadWith? {
      ForeignHasNoValue([padding.letter], lookup, alphabet, caseInsensitive);
    }
    var text, values := Encode(k, alphabet, padding, pieces);
    var textPieces := CutUp(text);
    var grouped := Group(g, separator, terminator, textPieces);
    var groupedPieces := CutUp(grouped);
    bytes := Decode(k, lookup, groupedPieces);
    RoundTrip(k, alphabet, padding, g, separator, terminator, lookup, pieces, values, groupedPieces, bytes);
  }

  lemma SmallFits(v: int, k: nat)
    requires k <= 7 && 0 <= v < Base(k)
    ensures Fits(v as Byte, k)
  {
    var b := v as Byte;
    if {
      case k == 0 => assert b < 1;
      case k == 1 => assert b < 2;
      case k == 2 => assert b < 4;
      case k == 3 => assert b < 8;
      case k == 4 => assert b < 16;
      case k == 5 => assert b < 32;
      case k == 6 => assert b < 64;
      case k == 7 => assert b < 128;
    }
  }
}
