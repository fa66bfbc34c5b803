/** The decoding table of an alphabet. */
module LookupTables {
  import opened ByteBits

  predicate IsLetter(c: int) {
    65 <= c <= 90 || 97 <= c <= 122
  }

  function Upper(c: int): int {
    if 97 <= c <= 122 then c - 32 else c
  }

  function Lower(c: int): int {
    if 65 <= c <= 90 then c + 32 else c
  }

  /** Character c stands for what `letter` of the alphabet stands for. */
  predicate Matches(letter: int, c: int, caseInsensitive: bool) {
    if caseInsensitive && IsLetter(letter) then c == Upper(letter) || c == Lower(letter) else c == letter
  }

  /** The letters are those from A to Z in both cases, and each has the same distance to the first of its case. */
  lemma LettersInOrder(c: int)
    ensures IsLetter(c) <==> 'A' as int <= c <= 'Z' as int || 'a' as int <= c <= 'z' as int
    ensures 'A' as int <= c <= 'Z' as int ==> Upper(c) == c && Lower(c) - 'a' as int == c - 'A' as int
    ensures 'a' as int <= c <= 'z' as int ==> Lower(c) == c && Upper(c) - 'A' as int == c - 'a' as int
  {
  }

  ghost function Codes(alphabet: seq<Byte>): (codes: seq<int>)
    ensures |codes| == |alphabet| && forall i :: 0 <= i < |codes| ==> 0 <= codes[i] < 256
  {
    seq(|alphabet|, i requires 0 <= i < |alphabet| => alphabet[i] as int)
  }

  /** No character stands for two of the first n values. */
  ghost predicate Unambiguous(codes: seq<int>, n: nat, caseInsensitive: bool)
    requires n <= |codes|
  {
    forall i: nat, j: nat, c: int :: i < j < n && Matches(codes[i], c, caseInsensitive) ==> !Matches(codes[j], c, caseInsensitive)
  }

  /** The table finds for each character the last value it stands for, and has -1 for the others. */
  ghost predicate IsTable(lookup: seq<int>, codes: seq<int>, n: nat, caseInsensitive: bool)
    requires |lookup| == 256 && n <= |codes|
  {
    forall c :: 0 <= c < 256 ==> IsEntry(lookup[c], codes, n, c, caseInsensitive)
  }

  ghost predicate IsEntry(value: int, codes: seq<int>, n: nat, c: int, caseInsensitive: bool)
    requires n <= |codes|
  {
    && (value == -1 || (0 <= value < n && Matches(codes[value], c, caseInsensitive)))
    && forall i :: 0 <= i < n && Matches(codes[i], c, caseInsensitive) ==> i <= value
  }

  lemma NextEntry(value: int, codes: seq<int>, n: nat, c: int, caseInsensitive: bool)
    requires n < |codes| && IsEntry(value, codes, n, c, caseInsensitive)
    ensures IsEntry(if Matches(codes[n], c, caseInsensitive) then n else value, codes, n + 1, c, caseInsensitive)
  {
  }

  lemma NextTable(before: seq<int>, after: seq<int>, codes: seq<int>, n: nat, caseInsensitive: bool)
    requires |before| == |after| == 256 && n < |codes| && IsTable(before, codes, n, caseInsensitive)
    requires forall c :: 0 <= c < 256 ==> after[c] == if Matches(codes[n], c, caseInsensitive) then n else before[c]
    ensures IsTable(after, codes, n + 1, caseInsensitive)
  {
    hide Matches, IsEntry;
    forall c | 0 <= c < 256
      ensures IsEntry(after[c], codes, n + 1, c, caseInsensitive)
    {
      NextEntry(before[c], codes, n, c, caseInsensitive);
    }
  }

  /** Builds the table; ok says whether all of its assertions held, which is so exactly if no character
      stands for two values. */
  method InitializeDecodingLookupArray(lookup: array<int>, alphabet: seq<Byte>, caseInsensitive: bool) returns (ok: bool)
    requires lookup.Length == 256
    modifies lookup
    ensures IsTable(lookup[..], Codes(alphabet), |alphabet|, caseInsensitive)
    ensures ok <==> Unambiguous(Codes(alphabet), |alphabet|, caseInsensitive)
  {
    hide Unambiguous, IsEntry;
    forall c | 0 <= c < 256 {
      lookup[c] := -1;
    }
    ok := true;
    EmptyTable(lookup[..], Codes(alphabet), caseInsensitive);
    for i := 0 to |alphabet|
      invariant IsTable(lookup[..], Codes(alphabet), i, caseInsensitive)
      invariant ok <==> Unambiguous(Codes(alphabet), i, caseInsensitive)
    {
      OneMore(lookup[..], Codes(alphabet), i, caseInsensitive);
      var free := EnterLetter(lookup, alphabet[i] as int, i, Codes(alphabet), caseInsensitive);
      ok := ok && free;
    }
  }

  lemma EmptyTable(lookup: seq<int>, codes: seq<int>, caseInsensitive: bool)
    requires |lookup| == 256 && forall c :: 0 <= c < 256 ==> lookup[c] == -1
    ensures IsTable(lookup, codes, 0, caseInsensitive) && Unambiguous(codes, 0, caseInsensitive)
  {
  }

  /** The entries of a letter have still their first value. */
  ghost predicate IsFree(lookup: seq<int>, letter: int, caseInsensitive: bool)
    requires |lookup| == 256
  {
    forall c :: 0 <= c < 256 && Matches(letter, c, caseInsensitive) ==> lookup[c] == -1
  }

  lemma OneMore(lookup: seq<int>, codes: seq<int>, n: nat, caseInsensitive: bool)
    requires |lookup| == 256 && n < |codes| && 0 <= codes[n] < 256 && IsTable(lookup, codes, n, caseInsensitive)
    ensures Unambiguous(codes, n + 1, caseInsensitive) <==>
      Unambiguous(codes, n, caseInsensitive) && IsFree(lookup, codes[n], caseInsensitive)
  {
    hide Matches;
    forall c: int | Matches(codes[n], c, caseInsensitive)
      ensures 0 <= c < 256 && IsEntry(lookup[c], codes, n, c, caseInsensitive)
    {
      MatchesByte(codes[n], c, caseInsensitive);
    }
  }

  lemma MatchesByte(letter: int, c: int, caseInsensitive: bool)
    requires 0 <= letter < 256 && Matches(letter, c, caseInsensitive)
    ensures 0 <= c < 256
  {
  }

  /** One turn of that loop; free says whether its assertions held. */
  method EnterLetter(lookup: array<int>, letter: int, i: nat, ghost codes: seq<int>, caseInsensitive: bool) returns (free: bool)
    requires lookup.Length == 256 && i < |codes| && letter == codes[i] && 0 <= letter < 256
    requires IsTable(lookup[..], codes, i, caseInsensitive)
    modifies lookup
    ensures free <==> IsFree(old(lookup[..]), letter, caseInsensitive)
    ensures IsTable(lookup[..], codes, i + 1, caseInsensitive)
  {
    hide IsEntry, IsTable;
    ghost var before := lookup[..];
    if caseInsensitive && IsLetter(letter) {
      free := lookup[Upper(letter)] == -1;
      lookup[Upper(letter)] := i;
      free := free && lookup[Lower(letter)] == -1;
      lookup[Lower(letter)] := i;
    } else {
      free := lookup[letter] == -1;
      lookup[letter] := i;
    }
    NextTable(before, lookup[..], codes, i, caseInsensitive);
  }
}
