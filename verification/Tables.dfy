/** Tables of lists: what the list heads of a channel look like to their users. A table has one
    list per bucket; a member is in at most one of them, and `at` says in which. How one list is
    kept as a ring of nodes is in LinkedLists, and a whole table in RingTables. */
module Tables {

  type Ref = nat
  type Table = seq<seq<Ref>>

  ghost predicate NoDuplicates(s: seq<Ref>) {
    forall i, j :: 0 <= i < j < |s| ==> s[i] != s[j]
  }

  /** Every list holds exactly the members placed in its bucket, each of them once. */
  ghost predicate Placed(t: Table, at: map<Ref, nat>) {
    && (forall b :: 0 <= b < |t| ==> NoDuplicates(t[b]))
    && (forall b, r :: 0 <= b < |t| ==> (r in t[b] <==> r in at && at[r] == b))
    && (forall r :: r in at ==> at[r] < |t|)
  }

  /** The list without r. */
  function Without(s: seq<Ref>, r: Ref): (s': seq<Ref>)
    ensures forall x :: x in s' <==> x in s && x != r
    ensures |s'| <= |s|
  {
    if s == [] then []
    else
      assert s == [s[0]] + s[1..];
      if s[0] == r then Without(s[1..], r) else [s[0]] + Without(s[1..], r)
  }

  lemma {:induction false} WithoutKeepsDistinct(s: seq<Ref>, r: Ref)
    requires NoDuplicates(s)
    ensures NoDuplicates(Without(s, r))
  {
    if s != [] {
      WithoutKeepsDistinct(s[1..], r);
      assert forall j :: 0 < j < |s| ==> s[0] != s[j];
      assert s[0] !in s[1..];
    }
  }

  lemma {:induction false} WithoutAbsent(s: seq<Ref>, r: Ref)
    requires r !in s
    ensures Without(s, r) == s
  {
    if s != [] {
      assert s == [s[0]] + s[1..];
      WithoutAbsent(s[1..], r);
    }
  }

  /** In a list without duplicates, only the one occurrence goes. */
  lemma {:induction false} WithoutAt(s: seq<Ref>, i: nat)
    requires NoDuplicates(s) && i < |s|
    ensures Without(s, s[i]) == s[..i] + s[i + 1..]
  {
    if i == 0 {
      assert s[0] !in s[1..];
      WithoutAbsent(s[1..], s[0]);
      assert s[..0] + s[1..] == s[1..];
    } else {
      WithoutAt(s[1..], i - 1);
      assert s[..i] + s[i + 1..] == [s[0]] + (s[1..][..i - 1] + s[1..][i..]);
    }
  }

  /** `ares__remove_from_list`: out of whichever list it is in, if any. */
  function Remove(t: Table, r: Ref): (t': Table)
    ensures |t'| == |t|
  {
    seq(|t|, b requires 0 <= b < |t| => Without(t[b], r))
  }

  /** `ares__insert_in_list` before a head: at the end of that list. */
  function Append(t: Table, b: nat, r: Ref): (t': Table)
    requires b < |t|
    ensures |t'| == |t|
  {
    t[b := t[b] + [r]]
  }

  /** `swap_lists` on two heads. */
  function Swap(t: Table, a: nat, b: nat): (t': Table)
    requires a < |t| && b < |t|
    ensures |t'| == |t|
  {
    t[a := t[b]][b := t[a]]
  }

  lemma RemovePlaced(t: Table, at: map<Ref, nat>, r: Ref)
    requires Placed(t, at)
    ensures Placed(Remove(t, r), at - {r})
  {
    forall b | 0 <= b < |t|
      ensures NoDuplicates(Remove(t, r)[b])
    {
      WithoutKeepsDistinct(t[b], r);
    }
  }

  lemma AppendPlaced(t: Table, at: map<Ref, nat>, r: Ref, b: nat)
    requires Placed(t, at) && r !in at && b < |t|
    ensures Placed(Append(t, b, r), at[r := b])
  {
  }

  /** Removing the first member of a bucket shortens just that bucket. */
  lemma RemoveFirst(t: Table, at: map<Ref, nat>, b: nat, other: nat)
    requires Placed(t, at) && b < |t| && other < |t| && other != b && t[b] != []
    ensures var r := t[b][0];
      r in at && r !in t[other] && Remove(t, r)[b] == t[b][1..] && Remove(t, r)[other] == t[other]
  {
    var first := t[b];
    assert first[0] in first && at[first[0]] == b;
    WithoutAt(first, 0);
    assert first[..0] + first[1..] == first[1..];
    WithoutAbsent(t[other], first[0]);
  }

  ghost function Renamed(at: map<Ref, nat>, a: nat, b: nat): map<Ref, nat> {
    map r | r in at :: if at[r] == a then b else at[r]
  }

  /** Moving the members of bucket a to an empty bucket b. */
  lemma SwapPlaced(t: Table, at: map<Ref, nat>, a: nat, b: nat)
    requires Placed(t, at) && a < |t| && b < |t| && t[b] == []
    ensures Placed(Swap(t, a, b), Renamed(at, a, b))
  {
  }

  /** Removing and appending to another list, as re-sending a query does. */
  lemma MovePlaced(t: Table, at: map<Ref, nat>, r: Ref, b: nat)
    requires Placed(t, at) && b < |t|
    ensures Placed(Append(Remove(t, r), b, r), at[r := b])
  {
    RemovePlaced(t, at, r);
    AppendPlaced(Remove(t, r), at - {r}, r, b);
    assert (at - {r})[r := b] == at[r := b];
  }
}
