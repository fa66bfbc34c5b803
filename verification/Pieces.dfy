/** Messages that arrive in pieces. */
module Pieces {

  ghost function Joined<T>(pieces: seq<seq<T>>): seq<T> {
    if pieces == [] then [] else Joined(pieces[..|pieces| - 1]) + pieces[|pieces| - 1]
  }

  lemma JoinNext<T>(pieces: seq<seq<T>>, i: nat)
    requires i < |pieces|
    ensures Joined(pieces[..i + 1]) == Joined(pieces[..i]) + pieces[i]
  {
    assert pieces[..i + 1][..i] == pieces[..i];
  }

  lemma JoinAll<T>(pieces: seq<seq<T>>)
    ensures Joined(pieces[..|pieces|]) == Joined(pieces) && Joined(pieces[..0]) == []
  {
    assert pieces[..|pieces|] == pieces;
  }
}
