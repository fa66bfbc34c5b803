/** The records of the query engine (`ares_private.h`), and the invariants that tie the list tables,
    the queries and the send queues of a channel together. Queries stand in a map from references
    (the addresses of the structs); a reference is live while it is in the map. */
module EngineState {
  import opened Tables
  import opened Clock
  import opened Common
  import TcpFraming

  // The programs use the names of constants, here and in AresStatus; what they are proved against has the
  // numbers written out.
  const QID_TABLE_SIZE := 2048
  const TIMEOUT_TABLE_SIZE := 1024

  /** Per-server state of a query. */
  datatype ServerInfo = ServerInfo(skipServer: bool, tcpGeneration: nat)

  datatype Query = Query(
    qid: nat,
    timeout: Time,
    tcpbuf: seq<Byte>,
    tryCount: nat,
    server: nat,
    serverInfo: seq<ServerInfo>,
    usingTcp: bool,
    errorStatus: int,
    timeouts: nat)

  /** A queued request: the bytes still to be sent, which lie in the buffer of the owner or, once
      the owner is gone, in a copy. */
  datatype SendRequest = SendRequest(data: seq<Byte>, owner: Option<Ref>, dataStorage: bool)

  datatype Server = Server(
    tcpOpen: bool,
    udpOpen: bool,
    queue: seq<SendRequest>,
    generation: nat,
    isBroken: bool)

  /** All list heads. The second list of `all` is the head copy in `ares_cancel`; the last list of
      `toServer` is the temporary head in `handle_error`. */
  datatype Lists = Lists(all: Table, byQid: Table, byTimeout: Table, toServer: Table)

  /** In which list each query is linked, for each of its four links. */
  datatype Where = Where(all: map<Ref, nat>, qid: map<Ref, nat>, timeout: map<Ref, nat>, server: map<Ref, nat>)

  // ----- the links

  ghost predicate Shape(l: Lists, nservers: nat) {
    |l.all| == 2 && |l.byQid| == 2048 && |l.byTimeout| == 1024 && |l.toServer| == nservers + 1
  }

  ghost predicate Consistent(l: Lists, w: Where) {
    Placed(l.all, w.all) && Placed(l.byQid, w.qid) && Placed(l.byTimeout, w.timeout) && Placed(l.toServer, w.server)
  }

  /** A request with its length in two bytes in front. */
  ghost predicate IsFrame(tcpbuf: seq<Byte>) {
    && |tcpbuf| >= 2 && TcpFraming.FitsFrame(tcpbuf[2..]) && tcpbuf == TcpFraming.Frame(tcpbuf[2..])
  }

  ghost predicate WellFormedQuery(q: Query, nservers: nat) {
    && |q.serverInfo| == nservers && q.server < nservers && Valid(q.timeout)
    && q.errorStatus in {11, 12} && IsFrame(q.tcpbuf)
  }

  /** A live query sits in the list of all queries and in its qid bucket. */
  ghost predicate Registered(queries: map<Ref, Query>, w: Where, nservers: nat) {
    && w.all.Keys == queries.Keys && w.qid.Keys == queries.Keys
    && w.timeout.Keys <= queries.Keys && w.server.Keys <= queries.Keys
    && forall r :: r in queries ==> WellFormedQuery(queries[r], nservers) && w.qid[r] == queries[r].qid % 2048
  }

  /** A query that has been sent sits in its timeout bucket and in the list of its server. */
  ghost predicate Sent(q: Query, w: Where, r: Ref) {
    && r in w.timeout && w.timeout[r] == q.timeout.sec % 1024
    && r in w.server && w.server[r] == q.server
  }

  /** As `Sent`, but taken off the list of its server by `handle_error`. */
  ghost predicate Stolen(q: Query, w: Where, r: Ref, nservers: nat) {
    && r in w.timeout && w.timeout[r] == q.timeout.sec % 1024
    && r in w.server && w.server[r] == nservers
  }

  /** Every live query but those in `except` is linked where its fields say. */
  ghost predicate AtHome(queries: map<Ref, Query>, w: Where, nservers: nat, except: set<Ref>) {
    forall r :: r in queries && r !in except ==> Sent(queries[r], w, r) || Stolen(queries[r], w, r, nservers)
  }

  ghost predicate LinksOk(l: Lists, w: Where, queries: map<Ref, Query>, nservers: nat, except: set<Ref>) {
    Shape(l, nservers) && Consistent(l, w) && Registered(queries, w, nservers) && AtHome(queries, w, nservers, except)
  }

  /** Between steps no list is stolen. */
  ghost predicate NothingStolen(l: Lists, nservers: nat) {
    Shape(l, nservers) && l.all[1] == [] && l.toServer[nservers] == []
  }

  /** What the invariant says of each live query between steps: it is linked exactly once in the
      list of all queries, in bucket qid mod 2048, in bucket deadline second mod 1024, and in the
      list of its own server, and in no other list; and nothing else is linked anywhere. */
  lemma LinkedExactlyOnce(l: Lists, w: Where, queries: map<Ref, Query>, nservers: nat, r: Ref)
    requires LinksOk(l, w, queries, nservers, {}) && NothingStolen(l, nservers)
    ensures r in l.all[0] <==> r in queries
    ensures forall b :: 0 <= b < 2048 ==>
      (r in l.byQid[b] <==> r in queries && b == queries[r].qid % 2048)
    ensures forall b :: 0 <= b < 1024 ==>
      (r in l.byTimeout[b] <==> r in queries && b == queries[r].timeout.sec % 1024)
    ensures forall s :: 0 <= s < nservers ==>
      (r in l.toServer[s] <==> r in queries && s == queries[r].server)
    ensures NoDuplicates(l.all[0]) && (forall b :: 0 <= b < 2048 ==> NoDuplicates(l.byQid[b]))
    ensures forall b :: 0 <= b < 1024 ==> NoDuplicates(l.byTimeout[b])
    ensures forall s :: 0 <= s < nservers ==> NoDuplicates(l.toServer[s])
  {
    assert r !in l.toServer[nservers] && r !in l.all[1];
    assert r in queries ==> Sent(queries[r], w, r) || Stolen(queries[r], w, r, nservers);
  }

  /** Without live queries every list is empty. */
  lemma EmptyLists(l: Lists, w: Where, queries: map<Ref, Query>, nservers: nat, except: set<Ref>)
    requires LinksOk(l, w, queries, nservers, except)
    ensures Shape(l, nservers)
    ensures queries == map[] ==>
      && (forall b :: 0 <= b < 2 ==> l.all[b] == []) && (forall b :: 0 <= b < 2048 ==> l.byQid[b] == [])
      && (forall b :: 0 <= b < 1024 ==> l.byTimeout[b] == [])
      && (forall s :: 0 <= s <= nservers ==> l.toServer[s] == [])
  {
    if queries == map[] {
      NothingPlaced(l.all, w.all);
      NothingPlaced(l.byQid, w.qid);
      NothingPlaced(l.byTimeout, w.timeout);
      NothingPlaced(l.toServer, w.server);
    }
  }

  lemma NonemptyHasMember(s: seq<Ref>)
    ensures s != [] ==> exists r :: r in s
  {
    if s != [] {
      assert s[0] in s;
    }
  }

  lemma NothingPlaced(t: Table, at: map<Ref, nat>)
    requires Placed(t, at) && at.Keys == {}
    ensures forall b :: 0 <= b < |t| ==> t[b] == []
  {
    forall b | 0 <= b < |t|
      ensures t[b] == []
    {
      assert forall r :: r in t[b] ==> r in at.Keys;
      NonemptyHasMember(t[b]);
    }
  }

  lemma NotLinked(l: Lists, w: Where, queries: map<Ref, Query>, nservers: nat, except: set<Ref>, r: Ref)
    requires LinksOk(l, w, queries, nservers, except) && r !in queries
    ensures Shape(l, nservers) && r !in l.all[1] && r !in l.toServer[nservers]
  {
  }

  // ----- the transitions of the links

  /** `ares__free_query`: out of all four lists. */
  function Unlink(l: Lists, r: Ref): Lists {
    Lists(Remove(l.all, r), Remove(l.byQid, r), Remove(l.byTimeout, r), Remove(l.toServer, r))
  }

  ghost function Forget(w: Where, r: Ref): Where {
    Where(w.all - {r}, w.qid - {r}, w.timeout - {r}, w.server - {r})
  }

  lemma FreeKeepsLinks(l: Lists, w: Where, queries: map<Ref, Query>, nservers: nat, except: set<Ref>, r: Ref)
    requires LinksOk(l, w, queries, nservers, except + {r})
    ensures LinksOk(Unlink(l, r), Forget(w, r), queries - {r}, nservers, except)
  {
    RemovePlaced(l.all, w.all, r);
    RemovePlaced(l.byQid, w.qid, r);
    RemovePlaced(l.byTimeout, w.timeout, r);
    RemovePlaced(l.toServer, w.server, r);
    var queries', w' := queries - {r}, Forget(w, r);
    forall x | x in queries' && x !in except
      ensures Sent(queries'[x], w', x) || Stolen(queries'[x], w', x, nservers)
    {
      assert x in queries && x !in except + {r};
    }
  }

  /** The end of `ares__send_query`: into the bucket of the new deadline and the list of the server. */
  function Relink(l: Lists, r: Ref, bucket: nat, server: nat): Lists
    requires bucket < |l.byTimeout| && server < |l.toServer|
  {
    l.(byTimeout := Append(Remove(l.byTimeout, r), bucket, r), toServer := Append(Remove(l.toServer, r), server, r))
  }

  ghost function Settle(w: Where, r: Ref, bucket: nat, server: nat): Where {
    w.(timeout := w.timeout[r := bucket], server := w.server[r := server])
  }

  lemma RelinkKeepsLinks(l: Lists, w: Where, queries: map<Ref, Query>, nservers: nat, except: set<Ref>, r: Ref, q: Query)
    requires LinksOk(l, w, queries, nservers, except + {r}) && r in queries
    requires WellFormedQuery(q, nservers) && q.qid == queries[r].qid
    ensures var bucket := q.timeout.sec % TIMEOUT_TABLE_SIZE;
      LinksOk(Relink(l, r, bucket, q.server), Settle(w, r, bucket, q.server), queries[r := q], nservers, except)
  {
    var bucket := q.timeout.sec % TIMEOUT_TABLE_SIZE;
    MovePlaced(l.byTimeout, w.timeout, r, bucket);
    MovePlaced(l.toServer, w.server, r, q.server);
    var queries', w' := queries[r := q], Settle(w, r, bucket, q.server);
    forall x | x in queries' && x !in except
      ensures Sent(queries'[x], w', x) || Stolen(queries'[x], w', x, nservers)
    {
      if x == r {
        assert Sent(queries'[x], w', x);
      } else {
        assert x in queries && x !in except + {r};
      }
    }
  }

  /** Changing the fields of a query that is being moved, or fields no link depends on. */
  lemma UpdateKeepsLinks(l: Lists, w: Where, queries: map<Ref, Query>, nservers: nat, except: set<Ref>, r: Ref, q: Query)
    requires LinksOk(l, w, queries, nservers, except) && r in queries
    requires WellFormedQuery(q, nservers) && q.qid == queries[r].qid
    requires r in except || (q.server == queries[r].server && q.timeout == queries[r].timeout)
    ensures LinksOk(l, w, queries[r := q], nservers, except)
  {
    var queries' := queries[r := q];
    forall x | x in queries' && x !in except
      ensures Sent(queries'[x], w, x) || Stolen(queries'[x], w, x, nservers)
    {
      assert x in queries;
    }
  }

  lemma MoreExcepted(l: Lists, w: Where, queries: map<Ref, Query>, nservers: nat, except: set<Ref>, r: Ref)
    requires LinksOk(l, w, queries, nservers, except)
    ensures LinksOk(l, w, queries, nservers, except + {r})
  {
  }

  /** `ares_send` before the first send: into the list of all queries and the qid bucket. */
  lemma RegisterKeepsLinks(l: Lists, w: Where, queries: map<Ref, Query>, nservers: nat, except: set<Ref>, r: Ref, q: Query)
    requires LinksOk(l, w, queries, nservers, except) && r !in queries && WellFormedQuery(q, nservers)
    ensures var bucket := q.qid % QID_TABLE_SIZE;
      LinksOk(l.(all := Append(l.all, 0, r), byQid := Append(l.byQid, bucket, r)),
              w.(all := w.all[r := 0], qid := w.qid[r := bucket]), queries[r := q], nservers, except + {r})
  {
    var bucket := q.qid % QID_TABLE_SIZE;
    AppendPlaced(l.all, w.all, r, 0);
    AppendPlaced(l.byQid, w.qid, r, bucket);
    var queries' := queries[r := q];
    var w' := w.(all := w.all[r := 0], qid := w.qid[r := bucket]);
    forall x | x in queries' && x !in except + {r}
      ensures Sent(queries'[x], w', x) || Stolen(queries'[x], w', x, nservers)
    {
      assert x in queries;
    }
  }

  /** `handle_error` takes the list of a server away. */
  ghost function StealFrom(w: Where, server: nat, nservers: nat): Where {
    w.(server := Renamed(w.server, server, nservers))
  }

  lemma StealKeepsLinks(l: Lists, w: Where, queries: map<Ref, Query>, nservers: nat, server: nat)
    requires LinksOk(l, w, queries, nservers, {}) && NothingStolen(l, nservers) && server < nservers
    ensures LinksOk(l.(toServer := Swap(l.toServer, server, nservers)), StealFrom(w, server, nservers), queries, nservers, {})
  {
    SwapPlaced(l.toServer, w.server, server, nservers);
    var w' := StealFrom(w, server, nservers);
    forall x | x in queries
      ensures Sent(queries[x], w', x) || Stolen(queries[x], w', x, nservers)
    {
      assert Sent(queries[x], w, x) || Stolen(queries[x], w, x, nservers);
    }
  }

  // ----- callbacks, attempts and deadlines

  /** A request handed in gets exactly one callback: what was handed out and is no longer live has
      fired, once, and nothing live has. */
  ghost predicate CallbacksOk(live: set<Ref>, fired: seq<(Ref, int)>, nextRef: Ref) {
    && (forall i, j :: 0 <= i < j < |fired| ==> fired[i].0 != fired[j].0)
    && (forall r :: r in live ==> r < nextRef)
    && (forall i :: 0 <= i < |fired| ==> fired[i].0 < nextRef && fired[i].0 !in live)
    && (forall r: Ref :: r < nextRef && r !in live ==> exists i :: 0 <= i < |fired| && fired[i].0 == r)
  }

  lemma FireKeepsCallbacks(live: set<Ref>, fired: seq<(Ref, int)>, nextRef: Ref, r: Ref, status: int)
    requires CallbacksOk(live, fired, nextRef) && r in live
    ensures CallbacksOk(live - {r}, fired + [(r, status)], nextRef)
  {
    var fired' := fired + [(r, status)];
    forall x: Ref | x < nextRef && x !in live - {r}
      ensures exists i :: 0 <= i < |fired'| && fired'[i].0 == x
    {
      if x == r {
        assert fired'[|fired|].0 == r;
      } else {
        var i :| 0 <= i < |fired| && fired[i].0 == x;
        assert fired'[i].0 == x;
      }
    }
  }

  lemma AcceptKeepsCallbacks(live: set<Ref>, fired: seq<(Ref, int)>, nextRef: Ref)
    requires CallbacksOk(live, fired, nextRef)
    ensures CallbacksOk(live + {nextRef}, fired, nextRef + 1) && nextRef !in live
  {
  }

  lemma RefuseKeepsCallbacks(live: set<Ref>, fired: seq<(Ref, int)>, nextRef: Ref, status: int)
    requires CallbacksOk(live, fired, nextRef)
    ensures CallbacksOk(live, fired + [(nextRef, status)], nextRef + 1)
  {
    AcceptKeepsCallbacks(live, fired, nextRef);
    FireKeepsCallbacks(live + {nextRef}, fired, nextRef + 1, nextRef, status);
    assert live + {nextRef} - {nextRef} == live;
  }

  /** How many requests were handed in: as many as are live or have been called back. */
  lemma CallbacksConserved(live: set<Ref>, fired: seq<(Ref, int)>, nextRef: Ref)
    requires CallbacksOk(live, fired, nextRef)
    ensures nextRef == |live| + |fired|
  {
    var dead := set i | 0 <= i < |fired| :: fired[i].0;
    FiredAreDistinct(fired, dead);
    assert Below(nextRef) == live + dead;
  }

  lemma {:induction false} FiredAreDistinct(fired: seq<(Ref, int)>, dead: set<Ref>)
    requires forall i, j :: 0 <= i < j < |fired| ==> fired[i].0 != fired[j].0
    requires dead == set i | 0 <= i < |fired| :: fired[i].0
    ensures |dead| == |fired|
  {
    if fired != [] {
      var n := |fired| - 1;
      var before := set i | 0 <= i < n :: fired[i].0;
      assert before == set i | 0 <= i < n :: fired[..n][i].0;
      FiredAreDistinct(fired[..n], before);
      assert dead == before + {fired[n].0};
    }
  }

  ghost function Below(n: nat): (s: set<Ref>)
    ensures |s| == n && forall r: Ref :: r in s <==> r < n
  {
    if n == 0 then {}
    else
      var s := Below(n - 1);
      assert n - 1 !in s;
      s + {n - 1}
  }

  /** The number of tries a query has: once through all servers for each of `tries`. */
  function Limit(nservers: nat, tries: nat): nat {
    nservers * tries
  }

  /** The server that is k tries after the first one. */
  function Rotate(first: nat, k: nat, nservers: nat): nat
    requires nservers >= 1
  {
    if k == 0 then first else (Rotate(first, k - 1, nservers) + 1) % nservers
  }

  /** Each count of `try_count` is the turn of one server, from the first one on. How many turns ended with
      the query entering `ares__send_query`, and how many passed a server over that was of no use. */
  datatype Account = Account(entered: nat, passed: nat, first: nat)

  /** How often a query can enter `ares__send_query`: once per try, at least once, and once more over TCP. */
  function MostEntries(limit: nat): nat {
    (if limit == 0 then 1 else limit) + 1
  }

  /** Each turn is accounted for: the first one, one per count of `tryCount`, and one more entry for the
      switch to TCP. A live query has tries left, and they go round the servers. */
  ghost predicate AttemptOk(q: Query, account: Account, switched: bool, limit: nat, nservers: nat)
    requires nservers >= 1
  {
    && (q.tryCount == 0 || q.tryCount < limit)
    && account.entered + account.passed == q.tryCount + 1 + (if switched then 1 else 0)
    && (switched ==> q.usingTcp)
    && q.server == Rotate(account.first, q.tryCount, nservers)
  }

  ghost predicate AttemptsOk(queries: map<Ref, Query>, accounts: map<Ref, Account>, switched: set<Ref>, limit: nat,
                             nservers: nat, except: set<Ref>)
    requires nservers >= 1
  {
    && queries.Keys <= accounts.Keys
    && (forall r :: r in accounts ==> accounts[r].entered <= MostEntries(limit))
    && forall r :: r in queries && r !in except ==> AttemptOk(queries[r], accounts[r], r in switched, limit, nservers)
  }

  /** Every turn that a query has, which is one at least, was spent. */
  ghost predicate AllTriesUsed(account: Account, switched: bool, limit: nat) {
    account.entered + account.passed == (if limit == 0 then 1 else limit) + (if switched then 1 else 0)
  }

  /** No query has failed with tries left. */
  ghost predicate FailuresOk(fired: seq<(Ref, int)>, accounts: map<Ref, Account>, switched: set<Ref>, limit: nat) {
    forall i :: 0 <= i < |fired| && fired[i].1 in {11, 12} ==>
      fired[i].0 in accounts && AllTriesUsed(accounts[fired[i].0], fired[i].0 in switched, limit)
  }

  lemma FiredKeepsFailures(fired: seq<(Ref, int)>, accounts: map<Ref, Account>, switched: set<Ref>, limit: nat, r: Ref, status: int)
    requires FailuresOk(fired, accounts, switched, limit)
    requires status in {11, 12} ==> r in accounts && AllTriesUsed(accounts[r], r in switched, limit)
    ensures FailuresOk(fired + [(r, status)], accounts, switched, limit)
  {
  }

  /** The account of a query that has not ended may change. */
  lemma AccountKeepsFailures(fired: seq<(Ref, int)>, accounts: map<Ref, Account>, switched: set<Ref>, limit: nat,
                             live: set<Ref>, nextRef: Ref, r: Ref, account: Account)
    requires FailuresOk(fired, accounts, switched, limit) && CallbacksOk(live, fired, nextRef) && (r in live || r >= nextRef)
    ensures FailuresOk(fired, accounts[r := account], switched, limit)
    ensures FailuresOk(fired, accounts[r := account], switched + {r}, limit)
    ensures FailuresOk(fired, accounts[r := account], switched - {r}, limit)
  {
  }

  /** A whole run: no query, live or ended, was sent more than nservers * tries + 1 times, and each live one
      waits at the server that its count of tries says. */
  lemma EntriesBounded(queries: map<Ref, Query>, accounts: map<Ref, Account>, switched: set<Ref>, nservers: nat, tries: nat)
    requires nservers >= 1 && tries >= 1
    requires AttemptsOk(queries, accounts, switched, Limit(nservers, tries), nservers, {})
    ensures forall r :: r in accounts ==> accounts[r].entered <= nservers * tries + 1
    ensures forall r :: r in queries ==>
      r in accounts && queries[r].server == Rotate(accounts[r].first, queries[r].tryCount, nservers)
  {
    assert nservers * tries >= 1;
  }

  /** Every deadline lies in a second that has still to be scanned. */
  ghost predicate DeadlinesOk(queries: map<Ref, Query>, lastTimeoutProcessed: nat, except: set<Ref>) {
    forall r :: r in queries && r !in except ==> queries[r].timeout.sec >= lastTimeoutProcessed && queries[r].timeout.sec > 0
  }

  /** `ares_cancel` takes the list of all queries away. */
  ghost function StealAllFrom(w: Where): Where {
    w.(all := Renamed(w.all, 0, 1))
  }

  lemma StealAllKeepsLinks(l: Lists, w: Where, queries: map<Ref, Query>, nservers: nat)
    requires LinksOk(l, w, queries, nservers, {}) && NothingStolen(l, nservers)
    ensures LinksOk(l.(all := Swap(l.all, 0, 1)), StealAllFrom(w), queries, nservers, {})
  {
    hide Swap, Placed;
    SwapPlaced(l.all, w.all, 0, 1);
  }

  /** Ending the first query of one of the two lists of all queries. */
  lemma FirstEnded(l: Lists, w: Where, queries: map<Ref, Query>, nservers: nat, list: nat)
    requires LinksOk(l, w, queries, nservers, {}) && list < 2
    ensures Shape(l, nservers)
    ensures l.all[list] != [] ==> var r := l.all[list][0];
      && r in queries
      && Unlink(l, r).all[list] == l.all[list][1..] && r !in l.all[1 - list]
      && Unlink(l, r).all[1 - list] == l.all[1 - list]
      && Unlink(l, r).toServer[nservers] == Without(l.toServer[nservers], r)
  {
    if l.all[list] != [] {
      RemoveFirst(l.all, w.all, list, 1 - list);
      assert l.all[list][0] in w.all.Keys;
    }
  }
}
