/** The query engine of a channel (`ares_send.c`, `ares_process.c`, `ares_cancel.c`,
    `ares_destroy.c`, `ares__close_sockets.c`) as a state machine over its steps. Sockets, memory,
    the random backoff and the servers' answers are arbitrary inputs. */
module Engine {
  import opened AresStatus
  import opened Tables
  import opened Clock
  import opened Common
  import opened EngineState
  import opened SendQueues
  import Bits
  import TcpFraming

  // The programs use the names of constants, here and in AresStatus; the contracts have the numbers written
  // out: 0 success, 7 bad query, 11 connection refused, 12 timeout, 15 no memory, 16 destruction, 24 cancelled.
  const PACKETSZ := 512
  const SERVFAIL := 2
  const NOTIMP := 4
  const REFUSED := 5

  datatype Transmission = Transmitted | TryNext | NoMemory

  /** How opening a socket can end: a configured callback may fail with a code of its own, which the
      caller does not take for a failure. */
  datatype OpenOutcome = Opened | Failed | CallbackFailed

  /** How a write can end. */
  datatype WriteOutcome = Wrote(count: nat) | TryAgain | WriteFailed

  /** Everything that can happen to a channel between its creation and its end, at a time. */
  datatype Event =
    | Submit(now: Time, qbuf: seq<Byte>)
    | Cancel(now: Time, submissions: Ref -> seq<seq<Byte>>)
    | Answer(now: Time, abuf: seq<Byte>, matches: Ref -> bool, whichServer: nat, tcp: bool, requests: seq<seq<Byte>>,
             memory: (nat, nat) -> bool)
    | Writable(now: Time, server: nat, outcome: WriteOutcome)
    | ReadError(now: Time, server: nat)
    | Timeouts(now: Time)
    | Broken(now: Time)

  /** The times of the events, from the time of the clock on. */
  ghost predicate InOrder(clock: Time, events: seq<Event>) {
    && (forall i :: 0 <= i < |events| ==> events[i].now.usec < 1_000_000)
    && (events != [] ==> Micros(clock) <= Micros(events[0].now))
    && forall i :: 0 < i < |events| ==> Micros(events[i - 1].now) <= Micros(events[i].now)
  }

  /** The part of a channel that the contracts compare before and after a step. */
  datatype Snapshot = Snapshot(
    queries: map<Ref, Query>,
    lists: Lists,
    fired: seq<(Ref, int)>,
    nextRef: Ref,
    lastServer: nat,
    lastTimeoutProcessed: nat,
    clock: Time)

  /** The part of a channel that has to do with its connections. */
  datatype Connections = Connections(
    servers: seq<Server>,
    written: seq<Option<seq<Byte>>>,
    requested: seq<seq<seq<Byte>>>,
    resets: seq<nat>,
    handed: seq<(Ref, nat)>)

  /** Nothing but what concerns r has changed in the queries and the lists. */
  ghost predicate OnlyConcerns(r: Ref, s0: Snapshot, s1: Snapshot) {
    && s1.nextRef == s0.nextRef && s1.lastServer == s0.lastServer
    && s1.lastTimeoutProcessed == s0.lastTimeoutProcessed && s1.clock == s0.clock
    && s1.queries.Keys <= s0.queries.Keys
    && (forall x :: x in s0.queries && x != r ==> x in s1.queries && s1.queries[x] == s0.queries[x])
  }

  /** r has ended: one callback has fired for it and it is in no list. */
  ghost predicate Ended(r: Ref, s0: Snapshot, s1: Snapshot) {
    && OnlyConcerns(r, s0, s1)
    && s1.queries == s0.queries - {r} && s1.lists == Unlink(s0.lists, r)
    && |s1.fired| == |s0.fired| + 1 && s1.fired[..|s0.fired|] == s0.fired && s1.fired[|s0.fired|].0 == r
  }

  /** A server that was skipped for a query stays skipped. */
  ghost predicate SkipsKept(q0: Query, q1: Query) {
    && |q1.serverInfo| == |q0.serverInfo|
    && forall i :: 0 <= i < |q0.serverInfo| && q0.serverInfo[i].skipServer ==> q1.serverInfo[i].skipServer
  }

  ghost predicate Skipped(q: Query, s: nat, nservers: nat) {
    nservers > 1 ==> s < |q.serverInfo| && q.serverInfo[s].skipServer
  }

  /** What never changes in a query while it is moved, and what only grows. */
  ghost predicate Progress(q0: Query, q1: Query) {
    && q1.qid == q0.qid && q1.tcpbuf == q0.tcpbuf && q1.timeouts == q0.timeouts
    && q1.errorStatus == q0.errorStatus && q1.tryCount >= q0.tryCount
    && (q0.usingTcp ==> q1.usingTcp) && SkipsKept(q0, q1)
  }

  /** The deadline lies ahead by the exponential backoff with its random share. */
  ghost predicate DeadlineSet(q: Query, now: Time, timeoutMs: nat, nservers: nat) {
    && nservers >= 1
    && exists random: nat :: random < 8 && Micros(q.timeout) == Micros(now) + 1000 * Backoff(timeoutMs, q.tryCount / nservers, random)
  }

  /** r has been sent (again) and waits in the bucket of its deadline and the list of its server. */
  ghost predicate Waiting(r: Ref, s0: Snapshot, s1: Snapshot, timeoutMs: nat) {
    && OnlyConcerns(r, s0, s1)
    && r in s0.queries && r in s1.queries && s1.fired == s0.fired && |s0.lists.toServer| >= 1
    && Progress(s0.queries[r], s1.queries[r])
    && DeadlineSet(s1.queries[r], s1.clock, timeoutMs, |s0.lists.toServer| - 1)
    && Valid(s1.queries[r].timeout) && Micros(s1.queries[r].timeout) >= Micros(s1.clock)
    && (timeoutMs >= 2 ==> Micros(s1.queries[r].timeout) > Micros(s1.clock))
    && s1.queries[r].server < |s0.lists.toServer|
    && |s0.lists.byTimeout| == TIMEOUT_TABLE_SIZE
    && s1.lists == Relink(s0.lists, r, s1.queries[r].timeout.sec % TIMEOUT_TABLE_SIZE, s1.queries[r].server)
  }

  /** r has ended with the error it carries, or for lack of memory. */
  ghost predicate GivenUp(r: Ref, s0: Snapshot, s1: Snapshot) {
    Ended(r, s0, s1) && r in s0.queries && s1.fired[|s0.fired|].1 in {s0.queries[r].errorStatus, 15}
  }

  /** A step on r leaves it given up or waiting. */
  ghost predicate Handled(r: Ref, s0: Snapshot, s1: Snapshot, timeoutMs: nat) {
    GivenUp(r, s0, s1) || Waiting(r, s0, s1, timeoutMs)
  }

  /** Only fields of r changed, and none that decides where r is linked by its qid or what it sends. */
  ghost predicate Touched(r: Ref, s0: Snapshot, s1: Snapshot) {
    && r in s0.queries && r in s1.queries
    && s1 == s0.(queries := s0.queries[r := s1.queries[r]])
    && Progress(s0.queries[r], s1.queries[r])
  }

  /** The account of r has grown, and no other has changed. */
  ghost predicate AccountsStep(a0: map<Ref, Account>, a1: map<Ref, Account>, r: Ref) {
    && a1.Keys == a0.Keys && (forall x :: x in a0 && x != r ==> a1[x] == a0[x])
    && (r in a0 ==> a1[r].first == a0[r].first && a1[r].entered >= a0[r].entered && a1[r].passed >= a0[r].passed)
  }

  lemma AccountsTwice(a0: map<Ref, Account>, a1: map<Ref, Account>, a2: map<Ref, Account>, r: Ref)
    requires AccountsStep(a0, a1, r) && AccountsStep(a1, a2, r)
    ensures AccountsStep(a0, a2, r)
  {
  }

  lemma SkippedKept(q0: Query, q1: Query, s: nat, nservers: nat)
    requires Skipped(q0, s, nservers) && SkipsKept(q0, q1)
    ensures Skipped(q1, s, nservers)
  {
  }

  lemma ProgressTwice(q0: Query, q1: Query, q2: Query)
    requires Progress(q0, q1) && Progress(q1, q2)
    ensures Progress(q0, q2)
  {
  }

  /** The fields of r that a step may change before it is handled do not matter for the outcome. */
  lemma HandledAfterTouched(r: Ref, s: Snapshot, s0: Snapshot, s1: Snapshot, timeoutMs: nat)
    requires Touched(r, s, s0) && Handled(r, s0, s1, timeoutMs)
    ensures Handled(r, s, s1, timeoutMs)
  {
    assert s0.queries - {r} == s.queries - {r};
    if Waiting(r, s0, s1, timeoutMs) {
      ProgressTwice(s.queries[r], s0.queries[r], s1.queries[r]);
    }
  }

  lemma TouchedNothing(r: Ref, s: Snapshot)
    requires r in s.queries
    ensures Touched(r, s, s)
  {
    assert s.queries[r := s.queries[r]] == s.queries;
  }

  lemma TouchedTwice(r: Ref, s: Snapshot, s0: Snapshot, s1: Snapshot)
    requires Touched(r, s, s0) && Touched(r, s0, s1)
    ensures Touched(r, s, s1)
  {
    ProgressTwice(s.queries[r], s0.queries[r], s1.queries[r]);
  }

  lemma EndedIsHandled(r: Ref, s0: Snapshot, s1: Snapshot, timeoutMs: nat)
    requires Ended(r, s0, s1) && r in s0.queries && s1.fired[|s0.fired|].1 in {s0.queries[r].errorStatus, 15}
    ensures Handled(r, s0, s1, timeoutMs) && r !in s1.queries
  {
  }

  /** After a step r has at least as many tries counted as before, and at least as many servers skipped. */
  lemma HandledTries(r: Ref, s0: Snapshot, s1: Snapshot, timeoutMs: nat)
    requires Handled(r, s0, s1, timeoutMs) && r in s0.queries
    ensures r in s1.queries ==> s1.queries[r].tryCount >= s0.queries[r].tryCount && SkipsKept(s0.queries[r], s1.queries[r])
    ensures r in s1.queries ==> s0.queries[r].usingTcp ==> s1.queries[r].usingTcp
  {
  }

  /** A deadline that lies ahead (with a channel timeout below two milliseconds it may be this very
      moment). */
  ghost predicate IsFresh(q: Query, now: nat, timeoutMs: nat) {
    if timeoutMs >= 2 then Micros(q.timeout) > now else Micros(q.timeout) >= now
  }

  /** While a bucket is scanned, with the first i of its members done: nothing but what had expired
      has changed, and what has changed or is done is fresh. */
  ghost predicate ScanState(before: map<Ref, Query>, queries: map<Ref, Query>, bucket: seq<Ref>, i: nat, now: nat,
                            timeoutMs: nat) {
    && i <= |bucket| && queries.Keys <= before.Keys
    && (forall x :: x in queries ==> queries[x] == before[x] || IsFresh(queries[x], now, timeoutMs))
    && (forall x :: x in before && Micros(before[x].timeout) > now ==> x in queries && queries[x] == before[x])
    && (forall k :: 0 <= k < i ==> bucket[k] in queries && IsFresh(queries[bucket[k]], now, timeoutMs))
  }

  /** Timing out the i-th member keeps the scan going: at the same position, or, if it was the last
      one, at the end of the list even if it came back there. */
  lemma ScanContinues(before: map<Ref, Query>, q0: map<Ref, Query>, q1: map<Ref, Query>, l0: seq<Ref>, l1: seq<Ref>,
                      i: nat, back: bool, now: nat, timeoutMs: nat)
    requires ScanState(before, q0, l0, i, now, timeoutMs) && i < |l0| && NoDuplicates(l0)
    requires l1 == l0[..i] + l0[i + 1..] + if back then [l0[i]] else []
    requires l0[i] in q0 && Micros(q0[l0[i]].timeout) <= now && q1.Keys <= q0.Keys
    requires forall x :: x in q0 && x != l0[i] ==> x in q1 && q1[x] == q0[x]
    requires l0[i] in q1 ==> IsFresh(q1[l0[i]], now, timeoutMs)
    requires back ==> l0[i] in q1
    ensures ScanState(before, q1, l1, if i + 1 == |l0| then |l1| else i, now, timeoutMs)
  {
    var next := if i + 1 == |l0| then |l1| else i;
    forall k | 0 <= k < next
      ensures l1[k] in q1 && IsFresh(q1[l1[k]], now, timeoutMs)
    {
      if k < i {
        assert l1[k] == l0[k] && l0[k] != l0[i];
      } else {
        assert l1[k] == l0[i];
      }
    }
  }

  lemma ScanPasses(before: map<Ref, Query>, queries: map<Ref, Query>, bucket: seq<Ref>, i: nat, now: nat, timeoutMs: nat)
    requires ScanState(before, queries, bucket, i, now, timeoutMs) && i < |bucket|
    requires bucket[i] in queries && IsFresh(queries[bucket[i]], now, timeoutMs)
    ensures ScanState(before, queries, bucket, i + 1, now, timeoutMs)
  {
  }

  /** While the seconds before t are done: what has a deadline in one of them is fresh, and nothing but
      what had expired has changed. */
  ghost predicate SweepState(before: map<Ref, Query>, queries: map<Ref, Query>, t: nat, now: nat, timeoutMs: nat) {
    && queries.Keys <= before.Keys
    && (forall x :: x in queries ==> queries[x].timeout.sec >= t || IsFresh(queries[x], now, timeoutMs))
    && (forall x :: x in queries ==>
          queries[x] == before[x] || (IsFresh(queries[x], now, timeoutMs) && Micros(before[x].timeout) <= now))
    && (forall x :: x in before && Micros(before[x].timeout) > now ==> x in queries && queries[x] == before[x])
  }

  /** Scanning the bucket of second t is enough for all deadlines in that second. */
  lemma SweepContinues(before: map<Ref, Query>, q0: map<Ref, Query>, q1: map<Ref, Query>, t: nat, now: nat, timeoutMs: nat)
    requires SweepState(before, q0, t, now, timeoutMs) && q1.Keys <= q0.Keys
    requires forall x :: x in q1 ==> q1[x] == q0[x] || IsFresh(q1[x], now, timeoutMs)
    requires forall x :: x in q0 && Micros(q0[x].timeout) > now ==> x in q1 && q1[x] == q0[x]
    requires forall x :: x in q1 && q1[x].timeout.sec % TIMEOUT_TABLE_SIZE == t % TIMEOUT_TABLE_SIZE ==> IsFresh(q1[x], now, timeoutMs)
    ensures SweepState(before, q1, t + 1, now, timeoutMs)
  {
  }

  /** While the queries of server s are moved on: those on the list are as before, like all queries of other
      servers, and the others have ended, or have used up a try and skip the server. */
  ghost predicate MovedOn(before: map<Ref, Query>, queries: map<Ref, Query>, list: seq<Ref>, s: nat, nservers: nat) {
    && queries.Keys <= before.Keys && (forall x :: x in list ==> x in queries && before[x].server == s)
    && forall x :: x in before ==>
         if before[x].server != s || x in list then x in queries && queries[x] == before[x]
         else x in queries ==> queries[x].tryCount > before[x].tryCount && Skipped(queries[x], s, nservers)
  }

  lemma NoneMovedOn(queries: map<Ref, Query>, list: seq<Ref>, s: nat, nservers: nat)
    requires forall x :: x in list <==> x in queries && queries[x].server == s
    ensures MovedOn(queries, queries, list, s, nservers)
  {
  }

  lemma MovedOnFirst(before: map<Ref, Query>, queries: map<Ref, Query>, list: seq<Ref>, s: nat, nservers: nat)
    requires MovedOn(before, queries, list, s, nservers) && list != []
    ensures list[0] in queries && list[0] in before && queries[list[0]].server == s
  {
    assert list[0] in list;
  }

  lemma MovedOnNext(before: map<Ref, Query>, q0: map<Ref, Query>, q1: map<Ref, Query>, list: seq<Ref>, s: nat, nservers: nat)
    requires MovedOn(before, q0, list, s, nservers) && list != [] && list[0] !in list[1..] && q1.Keys <= q0.Keys
    requires forall x :: x in q0 && x != list[0] ==> x in q1 && q1[x] == q0[x]
    requires list[0] in q1 ==> list[0] in q0 && q1[list[0]].tryCount > q0[list[0]].tryCount && Skipped(q1[list[0]], s, nservers)
    ensures MovedOn(before, q1, list[1..], s, nservers)
  {
    hide Skipped;
    assert list == [list[0]] + list[1..];
    assert list[0] in list;
  }

  lemma AllMovedOn(before: map<Ref, Query>, queries: map<Ref, Query>, s: nat, nservers: nat)
    requires MovedOn(before, queries, [], s, nservers)
    ensures queries.Keys <= before.Keys
    ensures forall x :: x in before ==>
      if before[x].server != s then x in queries && queries[x] == before[x]
      else x in queries ==> queries[x].tryCount > before[x].tryCount && Skipped(queries[x], s, nservers)
  {
  }

  /** All list heads, with empty lists. */
  function NoLists(nservers: nat): Lists {
    Lists([[], []], seq(QID_TABLE_SIZE, _ => []), seq(TIMEOUT_TABLE_SIZE, _ => []), seq(nservers + 1, _ => []))
  }

  lemma NothingLinked(nservers: nat)
    ensures LinksOk(NoLists(nservers), Where(map[], map[], map[], map[]), map[], nservers, {})
    ensures NothingStolen(NoLists(nservers), nservers)
  {
  }

  /** How a bucket looks after its i-th member left it, or came back at its end. */
  lemma BucketAfter(t0: Table, t1: Table, r: Ref, b: nat, i: nat, back: bool, bucket: nat)
    requires b < |t0| && bucket < |t0| && NoDuplicates(t0[b]) && i < |t0[b]| && t0[b][i] == r
    requires t1 == if back then Append(Remove(t0, r), bucket, r) else Remove(t0, r)
    ensures |t1| == |t0| && t1[b] == t0[b][..i] + t0[b][i + 1..] + if back && bucket == b then [r] else []
  {
    WithoutAt(t0[b], i);
  }

  /** Since position `from` of the log, x has been called back with the status. */
  ghost predicate CalledBack(x: Ref, status: int, from: nat, fired: seq<(Ref, int)>) {
    exists i :: from <= i < |fired| && fired[i] == (x, status)
  }

  lemma StillCalledBack(status: int, from: nat, fired0: seq<(Ref, int)>, fired1: seq<(Ref, int)>)
    requires fired0 <= fired1
    ensures forall x: Ref :: CalledBack(x, status, from, fired0) ==> CalledBack(x, status, from, fired1)
  {
    forall x: Ref | CalledBack(x, status, from, fired0)
      ensures CalledBack(x, status, from, fired1)
    {
      var i :| from <= i < |fired0| && fired0[i] == (x, status);
      assert fired1[i] == (x, status);
    }
  }

  /** From position `from` of the log on, all callbacks are those of new requests that came to nothing. */
  ghost predicate OnlyNewcomers(fired: seq<(Ref, int)>, from: nat, next: Ref) {
    forall i :: from <= i < |fired| ==> fired[i].0 >= next && fired[i].1 in {7, 11, 15}
  }

  /** From position `from` of the log on, all callbacks are cancellations. */
  ghost predicate OnlyCancelled(fired: seq<(Ref, int)>, from: nat) {
    forall i :: from <= i < |fired| ==> fired[i].1 == 24
  }

  /** Every callback of a new request shows in the log. */
  lemma OthersFailed(start: seq<(Ref, int)>, fired0: seq<(Ref, int)>, fired1: seq<(Ref, int)>, next: Ref, r: Ref)
    requires CalledBackLast(fired0, fired1, next, r, 24) && start <= fired0
    ensures OnlyCancelled(fired1, |start|) ==> OnlyCancelled(fired0, |start|) && |fired1| == |fired0| + 1
  {
    if |fired1| > |fired0| + 1 {
      assert fired1[..|fired1| - 1][|fired0|] == fired1[|fired0|];
      assert fired1[|fired0|].1 in {7, 11, 15};
    }
    if OnlyCancelled(fired1, |start|) {
      assert forall i :: |start| <= i < |fired0| ==> fired0[i] == fired1[i];
    }
  }

  /** r was called back, and before its callback returned some of the requests it handed in came to nothing. */
  ghost predicate CalledBackLast(fired0: seq<(Ref, int)>, fired1: seq<(Ref, int)>, next: Ref, r: Ref, status: int) {
    && fired0 <= fired1 && |fired0| < |fired1| && fired1[|fired1| - 1] == (r, status)
    && OnlyNewcomers(fired1[..|fired1| - 1], |fired0|, next)
  }

  /** From position `from` of the log on, all callbacks are failures of queries. */
  ghost predicate OnlyFailures(fired: seq<(Ref, int)>, from: nat) {
    forall i :: from <= i < |fired| ==> fired[i].1 in {11, 12, 15}
  }

  /** A query that is handled either waits, or has failed. */
  lemma HandledLogs(r: Ref, s0: Snapshot, s1: Snapshot, w: Where, nservers: nat, except: set<Ref>, timeoutMs: nat)
    requires Handled(r, s0, s1, timeoutMs) && LinksOk(s0.lists, w, s0.queries, nservers, except)
    ensures s0.fired <= s1.fired
    ensures forall from: nat :: from <= |s0.fired| && OnlyFailures(s0.fired, from) ==> OnlyFailures(s1.fired, from)
  {
  }

  /** All owners of queued requests that were none before are new queries. */
  ghost predicate NewOwners(s0: seq<Server>, s1: seq<Server>, next: Ref) {
    forall x :: x in Owners(s1) ==> x in Owners(s0) || x >= next
  }

  lemma SameOwners(servers: seq<Server>, next: Ref)
    ensures NewOwners(servers, servers, next)
  {
  }

  lemma OneMoreOwner(s: seq<Server>, s0: seq<Server>, s1: seq<Server>, n0: seq<nat>, n1: seq<nat>, next: Ref, r: Ref)
    requires NewOwners(s, s0, next) && ServersStep(s0, s1, n0, n1, {r}) && next <= r
    ensures NewOwners(s, s1, next)
  {
  }

  lemma StillNoOwner(s0: seq<Server>, s1: seq<Server>, next: Ref, r: Ref)
    requires NewOwners(s0, s1, next) && r < next
    ensures r !in Owners(s0) ==> r !in Owners(s1)
  {
  }

  /** The query that is being cancelled owns no request if no query did when the cancellation began. */
  lemma NotAmongNew(s: seq<Server>, s0: seq<Server>, s1: seq<Server>, before: map<Ref, Query>, queries: map<Ref, Query>,
                    list: seq<Ref>, fired0: seq<(Ref, int)>, fired: seq<(Ref, int)>, next0: Ref, next: Ref, r: Ref)
    requires NewOwners(s, s0, next0) && NewOwners(s0, s1, next)
    requires CancelState(before, queries, list, fired0, fired, next0, next) && r in list
    ensures NewOwners(s, s1, next0) && (NoOwners(s) ==> r !in Owners(s0))
  {
    NoOwnersEmpty(s);
  }

  /** While `ares_cancel` runs: of the queries present on entry, those still on the list are live, and
      the others are gone and have been called back; all other live queries are new. */
  ghost predicate CancelState(before: map<Ref, Query>, queries: map<Ref, Query>, list: seq<Ref>,
                              fired0: seq<(Ref, int)>, fired: seq<(Ref, int)>, next0: Ref, next: Ref) {
    && next0 <= next && fired0 <= fired
    && (forall x :: x in list ==> x in before && x in queries)
    && (forall x :: x in before && x !in list ==> x !in queries && CalledBack(x, 24, |fired0|, fired))
    && (forall i :: |fired0| <= i < |fired| && fired[i].1 == 24 ==> fired[i].0 in before)
    && (forall x :: x in queries && x !in list ==> x >= next0)
    && (forall x :: x in before ==> x < next0)
  }

  lemma StartCancelling(queries: map<Ref, Query>, list: seq<Ref>, fired: seq<(Ref, int)>, next: Ref)
    requires CallbacksOk(queries.Keys, fired, next) && forall x :: x in list <==> x in queries
    ensures CancelState(queries, queries, list, fired, fired, next, next)
  {
  }

  lemma KeepCancelling(before: map<Ref, Query>, q0: map<Ref, Query>, q1: map<Ref, Query>, list: seq<Ref>,
                       firedStart: seq<(Ref, int)>, fired0: seq<(Ref, int)>, fired1: seq<(Ref, int)>,
                       nextStart: Ref, next0: Ref, next1: Ref, r: Ref)
    requires CancelState(before, q0, list, firedStart, fired0, nextStart, next0)
    requires list != [] && r == list[0] && r !in list[1..] && r !in q1
    requires CalledBackLast(fired0, fired1, next0, r, 24) && next0 <= next1
    requires forall x :: x in q0 && x != r ==> x in q1
    requires forall x :: x in q1 ==> x in q0 || x >= next0
    ensures CancelState(before, q1, list[1..], firedStart, fired1, nextStart, next1)
  {
    var last := |fired1| - 1;
    assert fired1[last] == (r, 24);
    assert forall i :: |fired0| <= i < last ==> fired1[..last][i] == fired1[i];
    StillCalledBack(24, |firedStart|, fired0, fired1);
    assert list == [list[0]] + list[1..];
  }

  lemma AllCancelled(before: map<Ref, Query>, queries: map<Ref, Query>, fired0: seq<(Ref, int)>, fired: seq<(Ref, int)>,
                     next0: Ref, next: Ref)
    requires CancelState(before, queries, [], fired0, fired, next0, next)
    ensures next0 <= next && fired0 <= fired
    ensures forall x :: x in before ==> x !in queries && CalledBack(x, 24, |fired0|, fired)
    ensures forall i :: |fired0| <= i < |fired| && fired[i].1 == 24 ==> fired[i].0 in before
    ensures forall x :: x in queries ==> x >= next0
    ensures queries.Keys <= before.Keys ==> queries == map[]
  {
    if queries.Keys <= before.Keys {
      assert forall x :: x in queries ==> x in before;
    }
  }

  lemma NowCalledBack(x: Ref, status: int, from: nat, fired: seq<(Ref, int)>, i: nat)
    requires from <= i < |fired| && fired[i] == (x, status)
    ensures CalledBack(x, status, from, fired)
  {
  }

  lemma FirstDistinct(l: Lists, w: Where, queries: map<Ref, Query>, nservers: nat)
    requires LinksOk(l, w, queries, nservers, {})
    ensures Shape(l, nservers) && (l.all[0] != [] ==> l.all[0][0] !in l.all[0][1..])
  {
  }

  lemma RefsBelow(live: set<Ref>, fired: seq<(Ref, int)>, nextRef: Ref)
    requires CallbacksOk(live, fired, nextRef)
    ensures forall x :: x in live ==> x < nextRef
  {
  }

  lemma SingleMember(list: seq<Ref>, r: Ref)
    requires (forall x :: x in list <==> x == r) && (list != [] ==> list[0] !in list[1..])
    ensures list == [r]
  {
    assert r in list && list[0] in list && list == [list[0]] + list[1..];
    NonemptyHasMember(list[1..]);
    assert forall x :: x in list[1..] ==> x in list;
  }

  lemma StolenDistinct(l: Lists, w: Where, queries: map<Ref, Query>, nservers: nat)
    requires LinksOk(l, w, queries, nservers, {})
    ensures Shape(l, nservers) && (l.all[1] != [] ==> l.all[1][0] !in l.all[1][1..])
  {
  }

  // ----- the budget of all live queries: what bounds one pass over the timeouts

  ghost function Budget(refs: seq<Ref>, queries: map<Ref, Query>, limit: nat): nat {
    if refs == [] then 0
    else (if refs[0] in queries && queries[refs[0]].tryCount < limit then limit - queries[refs[0]].tryCount + 1 else 1)
         + Budget(refs[1..], queries, limit)
  }

  lemma {:induction false} BudgetMonotonic(refs: seq<Ref>, q0: map<Ref, Query>, q1: map<Ref, Query>, limit: nat)
    requires forall x :: x in refs && x in q1 ==> x in q0 && q1[x].tryCount >= q0[x].tryCount
    ensures Budget(refs, q1, limit) <= Budget(refs, q0, limit)
  {
    if refs != [] {
      BudgetMonotonic(refs[1..], q0, q1, limit);
    }
  }

  /** A query that has used up a try lowers the budget. */
  lemma {:induction false} BudgetTried(refs: seq<Ref>, q0: map<Ref, Query>, q1: map<Ref, Query>, limit: nat, r: Ref)
    requires forall x :: x in refs && x in q1 ==> x in q0 && q1[x].tryCount >= q0[x].tryCount
    requires r in refs && r in q0 && r in q1 && q0[r].tryCount < q1[r].tryCount < limit
    ensures Budget(refs, q1, limit) < Budget(refs, q0, limit)
  {
    if refs[0] == r {
      BudgetMonotonic(refs[1..], q0, q1, limit);
    } else {
      BudgetTried(refs[1..], q0, q1, limit, r);
    }
  }

  /** So does a query that has ended. */
  lemma {:induction false} BudgetEnded(refs: seq<Ref>, q0: map<Ref, Query>, q1: map<Ref, Query>, limit: nat, r: Ref)
    requires forall x :: x in refs && x in q1 ==> x in q0 && q1[x].tryCount >= q0[x].tryCount
    ensures Budget(Without(refs, r), q1, limit) <= Budget(refs, q0, limit)
    ensures r in refs ==> Budget(Without(refs, r), q1, limit) < Budget(refs, q0, limit)
  {
    if refs != [] {
      BudgetEnded(refs[1..], q0, q1, limit, r);
    }
  }

  lemma EndedNothingStolen(r: Ref, s0: Snapshot, s1: Snapshot, nservers: nat)
    requires Ended(r, s0, s1) && NothingStolen(s0.lists, nservers)
    ensures NothingStolen(s1.lists, nservers)
  {
  }

  lemma StillNothingStolen(r: Ref, s0: Snapshot, s1: Snapshot, w: Where, nservers: nat, timeoutMs: nat)
    requires Handled(r, s0, s1, timeoutMs) && NothingStolen(s0.lists, nservers)
    requires LinksOk(s1.lists, w, s1.queries, nservers, {})
    ensures NothingStolen(s1.lists, nservers)
  {
  }

  /** Handling the first stolen query takes just it off the temporary list. */
  lemma StolenAdvances(l: Lists, w: Where, queries: map<Ref, Query>, nservers: nat, r: Ref, s0: Snapshot, w0: Where,
                       s1: Snapshot, timeoutMs: nat)
    requires Handled(r, s0, s1, timeoutMs) && s1.lists == l && s1.queries == queries && LinksOk(l, w, queries, nservers, {})
    requires Shape(s0.lists, nservers) && s0.lists.toServer[nservers] != [] && s0.lists.toServer[nservers][0] == r
    requires s0.lists.all[1] == []
    requires LinksOk(s0.lists, w0, s0.queries, nservers, {})
    ensures Shape(l, nservers) && l.toServer[nservers] == s0.lists.toServer[nservers][1..] && l.all[1] == []
    ensures r !in l.toServer[nservers]
    ensures s1.nextRef == s0.nextRef && s1.clock == s0.clock && s0.fired <= s1.fired && queries.Keys <= s0.queries.Keys
    ensures forall x :: x in s0.queries && x != r ==> x in queries && queries[x] == s0.queries[x]
  {
    hide Progress, DeadlineSet, AtHome;
    var stolen := s0.lists.toServer[nservers];
    WithoutAt(stolen, 0);
    assert stolen[..0] + stolen[1..] == stolen[1..];
    WithoutAbsent(s0.lists.all[1], r);
  }

  /** Ending a query that is being moved, and adding one that is about to be, do not touch the others. */
  lemma EndKeepsRest(queries: map<Ref, Query>, accounts: map<Ref, Account>, switched: set<Ref>, limit: nat, nservers: nat,
                     last: nat, r: Ref)
    requires nservers >= 1
    requires AttemptsOk(queries, accounts, switched, limit, nservers, {r}) && DeadlinesOk(queries, last, {r})
    ensures AttemptsOk(queries - {r}, accounts, switched, limit, nservers, {}) && DeadlinesOk(queries - {r}, last, {})
  {
  }

  lemma NewKeepsRest(queries: map<Ref, Query>, accounts: map<Ref, Account>, switched: set<Ref>, limit: nat, nservers: nat,
                     last: nat, fired: seq<(Ref, int)>, servers: seq<Server>, r: Ref, q: Query)
    requires nservers >= 1 && CallbacksOk(queries.Keys, fired, r)
    requires AttemptsOk(queries, accounts, switched, limit, nservers, {}) && DeadlinesOk(queries, last, {})
    requires FailuresOk(fired, accounts, switched, limit)
    ensures AttemptsOk(queries[r := q], accounts[r := Account(0, 0, q.server)], switched - {r}, limit, nservers, {r})
    ensures DeadlinesOk(queries[r := q], last, {r})
    ensures FailuresOk(fired, accounts[r := Account(0, 0, q.server)], switched - {r}, limit)
    ensures AllOwnersOk(servers, queries) ==> AllOwnersOk(servers, queries[r := q])
    ensures CallbacksOk(queries[r := q].Keys, fired, r + 1) && r !in queries
  {
    hide AllOwnersOk, CallbacksOk, FailuresOk;
    AcceptKeepsCallbacks(queries.Keys, fired, r);
    AccountKeepsFailures(fired, accounts, switched, limit, queries.Keys, r, r, Account(0, 0, q.server));
    assert queries[r := q].Keys == queries.Keys + {r};
    if AllOwnersOk(servers, queries) {
      OwnersKept(servers, queries, queries[r := q]);
    }
  }

  /** Changing the query that is being moved does not touch the others. */
  lemma OthersKept(q0: map<Ref, Query>, q1: map<Ref, Query>, accounts: map<Ref, Account>, switched: set<Ref>, limit: nat,
                   nservers: nat, last: nat, r: Ref)
    requires nservers >= 1 && r in q0 && r in q1 && q1 == q0[r := q1[r]]
    requires AttemptsOk(q0, accounts, switched, limit, nservers, {r}) && DeadlinesOk(q0, last, {r})
    ensures AttemptsOk(q1, accounts, switched, limit, nservers, {r}) && DeadlinesOk(q1, last, {r})
  {
  }

  /** The request as it goes over TCP: after its length. */
  function LengthPrefixed(qbuf: seq<Byte>): seq<Byte>
    requires |qbuf| < 65536
  {
    [|qbuf| / 256, |qbuf| % 256] + qbuf
  }

  /** The query asks what qbuf says: with its id, after its length, and over TCP if it is wanted or long. */
  ghost predicate IsRequestFor(q: Query, qbuf: seq<Byte>, useVc: bool) {
    && |qbuf| >= 12 && q.qid == Word16(qbuf, 0)
    && |q.tcpbuf| >= 2 && Word16(q.tcpbuf, 0) == |qbuf| && q.tcpbuf[2..] == qbuf
    && (q.usingTcp <==> useVc || |qbuf| > 512)
  }

  /** The requests were handed in one after the other: each is a live query that asks for it, or has ended. */
  ghost predicate Submitted(queries: map<Ref, Query>, requests: seq<seq<Byte>>, next: Ref, useVc: bool) {
    forall i: nat :: i < |requests| && next + i in queries ==> IsRequestFor(queries[next + i], requests[i], useVc)
  }

  lemma NoneSubmitted(queries: map<Ref, Query>, next: Ref, useVc: bool)
    ensures Submitted(queries, [], next, useVc)
  {
  }

  lemma OneMoreSubmitted(q0: map<Ref, Query>, q1: map<Ref, Query>, requests: seq<seq<Byte>>, next: Ref, useVc: bool, i: nat)
    requires i < |requests| && Submitted(q0, requests[..i], next, useVc) && q1.Keys <= q0.Keys + {next + i}
    requires forall x :: x in q0 ==> x in q1 && q1[x] == q0[x]
    requires next + i in q1 ==> IsRequestFor(q1[next + i], requests[i], useVc)
    ensures Submitted(q1, requests[..i + 1], next, useVc)
  {
  }

  lemma StillSubmitted(q0: map<Ref, Query>, q1: map<Ref, Query>, requests: seq<seq<Byte>>, next: Ref, useVc: bool)
    requires Submitted(q0, requests, next, useVc) && forall x :: x in q1 ==> x in q0 && q1[x] == q0[x]
    ensures Submitted(q1, requests, next, useVc)
  {
  }

  lemma SameRequest(q0: Query, q1: Query, qbuf: seq<Byte>, useVc: bool)
    requires q1.qid == q0.qid && q1.tcpbuf == q0.tcpbuf && q1.usingTcp == q0.usingTcp && IsRequestFor(q0, qbuf, useVc)
    ensures IsRequestFor(q1, qbuf, useVc)
  {
  }

  /** It starts with that server, with no tries and no server skipped, and fails with a refused connection. */
  ghost predicate IsInitial(q: Query, server: nat, nservers: nat) {
    && q.server == server && q.tryCount == 0 && q.timeouts == 0 && q.errorStatus == 11 && |q.serverInfo| == nservers
    && forall i :: 0 <= i < nservers ==> q.serverInfo[i] == ServerInfo(false, 0)
  }

  /** A query before its first send: no deadline, no tries, no server skipped. */
  function InitialQuery(qbuf: seq<Byte>, server: nat, nservers: nat, useVc: bool): Query
    requires 12 <= |qbuf| < 65536
  {
    Query(AnswerId(qbuf), Time(0, 0), LengthPrefixed(qbuf), 0, server, seq(nservers, _ => ServerInfo(false, 0)),
          useVc || |qbuf| > PACKETSZ, ARES_ECONNREFUSED, 0)
  }

  /** A newly registered query that has been handled: the detached lists are as before. */
  lemma NewcomerSent(r: Ref, s0: Snapshot, s1: Snapshot, w: Where, nservers: nat, timeoutMs: nat)
    requires Handled(r, s0, s1, timeoutMs) && Shape(s0.lists, nservers)
    requires r !in s0.lists.all[1] && r !in s0.lists.toServer[nservers]
    requires LinksOk(s1.lists, w, s1.queries, nservers, {})
    ensures Shape(s1.lists, nservers)
    ensures s1.lists.all[1] == s0.lists.all[1] && s1.lists.toServer[nservers] == s0.lists.toServer[nservers]
    ensures s1.nextRef == s0.nextRef && s1.clock == s0.clock && s0.fired <= s1.fired && s1.queries.Keys <= s0.queries.Keys
    ensures forall x :: x in s0.queries && x != r ==> x in s1.queries && s1.queries[x] == s0.queries[x]
    ensures r in s1.queries ==>
      r in s0.queries && s1.queries[r].qid == s0.queries[r].qid && s1.queries[r].tcpbuf == s0.queries[r].tcpbuf
    ensures r in s1.queries ==> s1.fired == s0.fired
    ensures r !in s1.queries ==>
      && |s1.fired| == |s0.fired| + 1 && s1.fired[|s0.fired|].0 == r
      && r in s0.queries && s1.fired[|s0.fired|].1 in {s0.queries[r].errorStatus, 15}
  {
    WithoutAbsent(s0.lists.all[1], r);
    WithoutAbsent(s0.lists.toServer[nservers], r);
  }

  function AnswerId(abuf: seq<Byte>): nat
    requires |abuf| >= 12
  {
    var high: int := abuf[0];
    high * 256 + abuf[1]
  }

  /** `timeout << tries so far`, times 9/16 to 16/16. */
  function Backoff(timeoutMs: nat, rounds: nat, random: nat): (ms: nat)
    requires random < 8
    ensures timeoutMs >= 2 ==> ms >= 1
    ensures var full := Bits.Shl(timeoutMs, rounds); 9 * full - 16 < 16 * ms <= 16 * full
  {
    ShlAtLeast(timeoutMs, rounds);
    Bits.Shl(timeoutMs, rounds) * (9 + random) / 16
  }

  lemma {:induction false} ShlAtLeast(v: nat, p: nat)
    ensures Bits.Shl(v, p) >= v
  {
    if p > 0 {
      ShlAtLeast(v, p - 1);
    }
  }

  lemma QueryWellFormed(l: Lists, w: Where, queries: map<Ref, Query>, nservers: nat, except: set<Ref>, r: Ref)
    requires LinksOk(l, w, queries, nservers, except) && r in queries
    ensures WellFormedQuery(queries[r], nservers) && Shape(l, nservers)
  {
  }

  lemma DetachKeepsOwners(before: seq<SendRequest>, after: seq<SendRequest>, queries: map<Ref, Query>, r: Ref)
    requires |after| == |before|
    requires forall i :: 0 <= i < |after| ==>
      if before[i].owner == Some(r) then
        after[i].owner == None && (after[i].dataStorage || after[i].data == [])
      else after[i] == before[i]
    ensures OwnersOk(before, queries) ==> OwnersOk(after, queries)
  {
    if OwnersOk(before, queries) {
      forall i | 0 <= i < |after|
        ensures RequestOk(after[i], queries)
      {
        assert RequestOk(before[i], queries);
      }
    }
  }

  class Channel {
    // Configuration
    const nservers: nat
    const tries: nat
    const timeoutMs: nat
    const rotate: bool
    const stayOpen: bool
    const useVc: bool
    const ignoreTruncation: bool
    const noCheckResponse: bool

    var queries: map<Ref, Query>
    var lists: Lists
    var servers: seq<Server>
    var lastServer: nat
    var lastTimeoutProcessed: nat
    var tcpGeneration: nat
    var nextRef: Ref
    // The latest time anyone has read
    var clock: Time

    // Where every query is linked
    ghost var w: Where
    // The callbacks so far, in order
    ghost var fired: seq<(Ref, int)>
    // Entries into SendQuery per query and its first server, and the queries that a truncated answer moved to TCP
    ghost var accounts: map<Ref, Account>
    ghost var switched: set<Ref>
    // Per connection: the bytes written to it, as far as they are known, and the requests handed to it
    ghost var written: seq<Option<seq<Byte>>>
    ghost var requested: seq<seq<seq<Byte>>>
    // Per server: how often its connections were closed
    ghost var resets: seq<nat>
    // The queries handed over to a server so far, queued for TCP or sent over UDP
    ghost var handed: seq<(Ref, nat)>
    // The queries that there was no memory for so far
    ghost var lacked: seq<Ref>

    ghost function Now(): Snapshot
      reads this
    {
      Snapshot(queries, lists, fired, nextRef, lastServer, lastTimeoutProcessed, clock)
    }

    ghost predicate Inv(except: set<Ref>)
      reads this
    {
      && nservers >= 1 && |servers| == nservers && lastServer < nservers
      && LinksOk(lists, w, queries, nservers, except)
      && CallbacksOk(queries.Keys, fired, nextRef)
      && AttemptsOk(queries, accounts, switched, Limit(nservers, tries), nservers, except)
      && FailuresOk(fired, accounts, switched, Limit(nservers, tries))
      && DeadlinesOk(queries, lastTimeoutProcessed, except)
      && Valid(clock) && clock.sec > 0 && lastTimeoutProcessed <= clock.sec
      && StreamsOk(servers, written, requested) && |resets| == nservers
    }

    /** Every queued request belongs to a live query or has its own copy, and so did all that was written. */
    ghost predicate OwnersValid()
      reads this
    {
      AllOwnersOk(servers, queries) && AllKnown(written)
    }

    /** Between steps. */
    ghost predicate AtRest()
      reads this
    {
      Inv({}) && NothingStolen(lists, nservers)
    }

    /** A channel as `ares_init` leaves it: no queries, no connections. */
    constructor (nservers: nat, tries: nat, timeoutMs: nat, rotate: bool, stayOpen: bool, useVc: bool,
                 ignoreTruncation: bool, noCheckResponse: bool, now: Time)
      requires nservers >= 1 && Valid(now) && now.sec > 0
      ensures AtRest() && OwnersValid() && queries == map[] && fired == [] && nextRef == 0 && clock == now
      ensures |servers| == nservers && forall i :: 0 <= i < nservers ==> servers[i] == Server(false, false, [], i + 1, false)
      ensures lastServer == 0 && tcpGeneration == nservers && lastTimeoutProcessed == now.sec && handed == [] && lacked == []
      ensures forall s :: 0 <= s < |resets| ==> resets[s] == 0
      ensures this.nservers == nservers && this.tries == tries && this.timeoutMs == timeoutMs && this.rotate == rotate
      ensures this.stayOpen == stayOpen && this.useVc == useVc
      ensures this.ignoreTruncation == ignoreTruncation && this.noCheckResponse == noCheckResponse
    {
      this.nservers, this.tries, this.timeoutMs, this.rotate := nservers, tries, timeoutMs, rotate;
      this.stayOpen, this.useVc := stayOpen, useVc;
      this.ignoreTruncation, this.noCheckResponse := ignoreTruncation, noCheckResponse;
      queries, fired, nextRef, accounts, switched := map[], [], 0, map[], {};
      lists := NoLists(nservers);
      w := Where(map[], map[], map[], map[]);
      servers := seq(nservers, (i: nat) => Server(false, false, [], i + 1, false));
      written, requested := seq(nservers, _ => Some([])), seq(nservers, _ => []);
      resets, handed, lacked := seq(nservers, _ => 0), [], [];
      lastServer, tcpGeneration, lastTimeoutProcessed, clock := 0, nservers, now.sec, now;
      new;
      hide LinksOk, NoLists;
      NothingLinked(nservers);
    }

    /** `ares__close_sockets`: drains the queue and starts a new connection generation. */
    method CloseSockets(s: nat)
      requires s < |servers| == |resets| && StreamsOk(servers, written, requested)
      modifies this`servers, this`tcpGeneration, this`written, this`requested, this`resets
      ensures |servers| == |old(servers)| && StreamsOk(servers, written, requested)
      ensures ServersStep(old(servers), servers, old(resets), resets, {}) && resets == old(resets)[s := old(resets)[s] + 1]
      ensures written == old(written)[s := Some([])] && (old(AllKnown(written)) ==> AllKnown(written))
      ensures !servers[s].tcpOpen && !servers[s].udpOpen && servers[s].queue == [] && !servers[s].isBroken
      ensures if old(servers[s].tcpOpen) then tcpGeneration == old(tcpGeneration) + 1 && servers[s].generation == tcpGeneration
              else tcpGeneration == old(tcpGeneration) && servers[s].generation == old(servers[s].generation)
      ensures forall i :: 0 <= i < |servers| && i != s ==>
        servers[i] == old(servers[i]) && requested[i] == old(requested[i])
      ensures old(AllOwnersOk(servers, queries)) ==> AllOwnersOk(servers, queries)
    {
      var server := servers[s];
      server := server.(queue := [], isBroken := false);
      if server.tcpOpen {
        tcpGeneration := tcpGeneration + 1;
        server := server.(tcpOpen := false, generation := tcpGeneration);
      }
      if server.udpOpen {
        server := server.(udpOpen := false);
      }
      StepReset(servers, servers[s := server], resets, s);
      servers := servers[s := server];
      written, requested, resets := written[s := Some([])], requested[s := []], resets[s := resets[s] + 1];
    }

    method CloseAllSockets()
      requires StreamsOk(servers, written, requested) && |servers| == |resets|
      modifies this`servers, this`tcpGeneration, this`written, this`requested, this`resets
      ensures |servers| == |old(servers)| && StreamsOk(servers, written, requested)
      ensures ServersStep(old(servers), servers, old(resets), resets, {}) && AllKnown(written) && |resets| == |old(resets)|
      ensures forall s :: 0 <= s < |servers| ==> servers[s].queue == [] && !servers[s].tcpOpen && !servers[s].udpOpen
      ensures AllOwnersOk(servers, queries)
    {
      hide ServersStep, StreamOk;
      var i := 0;
      StepSame(servers, servers, resets, {});
      while i < |servers|
        invariant 0 <= i <= |servers| == |old(servers)| == |resets| && StreamsOk(servers, written, requested)
        invariant ServersStep(old(servers), servers, old(resets), resets, {})
        invariant forall s :: 0 <= s < i ==> written[s].Some?
        invariant forall s :: 0 <= s < i ==> servers[s].queue == [] && !servers[s].tcpOpen && !servers[s].udpOpen
      {
        ghost var s0, n0 := servers, resets;
        CloseSockets(i);
        StepTwice(old(servers), s0, servers, old(resets), n0, resets, {});
        i := i + 1;
      }
    }

    /** The first loop of `end_query`: no queued request points to r any more. */
    method DetachAll(r: Ref, success: bool, memory: (nat, nat) -> bool)
      requires StreamsOk(servers, written, requested) && |servers| == |resets|
      modifies this`servers
      ensures |servers| == |old(servers)| && StreamsOk(servers, written, requested)
      ensures ServersStep(old(servers), servers, resets, resets, {}) && Kept(old(servers), servers, r)
      ensures success && (forall s, i :: memory(s, i)) ==> NoneBreaks(old(servers), servers)
      ensures !success ==> forall s :: 0 <= s < |servers| && HasRequest(old(servers)[s], r) ==> servers[s].isBroken
      ensures forall s, i :: 0 <= s < |servers| && 0 <= i < |servers[s].queue| ==> servers[s].queue[i].owner != Some(r)
      ensures old(AllOwnersOk(servers, queries)) ==> AllOwnersOk(servers, queries)
    {
      hide ServersStep, KeptServer, StreamOk, NoOwnedCopies, HasRequest, Loses, DetachedServer, OwnersOk, Kept, NoneBreaks;
      ghost var before, plenty := servers, forall k, i :: memory(k, i);
      var s := 0;
      StepSame(servers, servers, resets, {});
      while s < |servers|
        invariant 0 <= s <= |servers| == |before| && StreamsOk(servers, written, requested)
        invariant ServersStep(before, servers, resets, resets, {})
        invariant forall k :: 0 <= k < s ==> DetachedServer(before[k], servers[k], r, success, plenty)
        invariant forall k :: s <= k < |servers| ==> servers[k] == before[k]
        invariant AllOwnersOk(before, queries) ==> AllOwnersOk(servers, queries)
      {
        ghost var s0 := servers;
        DetachFrom(s, r, success, memory, plenty);
        StepTwice(before, s0, servers, resets, resets, resets, {});
        s := s + 1;
      }
      AllDetached(before, servers, r, success, plenty);
    }

    /** The requests of r in the queue of one server. */
    method DetachFrom(s: nat, r: Ref, success: bool, memory: (nat, nat) -> bool, ghost plenty: bool)
      requires s < |servers| == |resets| && StreamsOk(servers, written, requested)
      requires plenty ==> forall k, i :: memory(k, i)
      modifies this`servers
      ensures |servers| == |old(servers)| && StreamsOk(servers, written, requested)
      ensures ServersStep(old(servers), servers, resets, resets, {}) && servers == old(servers)[s := servers[s]]
      ensures DetachedServer(old(servers)[s], servers[s], r, success, plenty)
      ensures old(AllOwnersOk(servers, queries)) ==> AllOwnersOk(servers, queries)
    {
      hide ServersStep, StreamOk, NoOwnedCopies, DetachedServer;
      ghost var server, s0 := servers[s], servers;
      StreamCopies(servers[s], written[s], requested[s]);
      var queue, isBroken := DetachRequests(servers[s].queue, r, success, (i: nat) => memory(s, i), servers[s].isBroken);
      DetachKeepsOwners(server.queue, queue, queries, r);
      DetachKeepsServer(server, queue, isBroken, r, success, (i: nat) => memory(s, i), plenty);
      DetachKeepsStream(server, queue, isBroken, written[s], requested[s]);
      servers := servers[s := servers[s].(queue := queue, isBroken := isBroken)];
      StepDetached(s0, servers, resets, s);
    }

    /** The callback of a query followed by `ares__free_query`: out of all four lists. */
    method CallBackAndFree(r: Ref, status: int)
      requires LinksOk(lists, w, queries, nservers, {r}) && CallbacksOk(queries.Keys, fired, nextRef) && r in queries
      modifies this`fired, this`lists, this`queries, this`w
      ensures LinksOk(lists, w, queries, nservers, {}) && CallbacksOk(queries.Keys, fired, nextRef)
      ensures Ended(r, old(Now()), Now()) && fired == old(fired) + [(r, status)]
    {
      hide LinksOk, CallbacksOk, Unlink, Forget;
      assert {} + {r} == {r};
      FireKeepsCallbacks(queries.Keys, fired, nextRef, r, status);
      FreeKeepsLinks(lists, w, queries, nservers, {}, r);
      fired := fired + [(r, status)];
      lists, w, queries := Unlink(lists, r), Forget(w, r), queries - {r};
      assert queries.Keys == old(queries).Keys - {r};
    }

    /** All turns of r are used up. */
    ghost predicate TriesUsed(r: Ref)
      reads this
    {
      r in accounts && AllTriesUsed(accounts[r], r in switched, Limit(nservers, tries))
    }

    /** `end_query` leaves the sockets open. */
    ghost predicate SocketsStay()
      reads this
    {
      stayOpen || (|lists.all| > 0 && lists.all[0] != [])
    }

    /** `end_query`: detaches queued requests, fires the callback, frees the query, and closes all
        sockets if it was the last one and the channel does not stay open. Otherwise every connection
        stays as it is, with all that it still has to send, or it breaks with a request of the query. */
    method EndQuery(r: Ref, status: int, memory: (nat, nat) -> bool)
      requires Inv({r}) && r in queries
      requires status in {11, 12} ==> TriesUsed(r)
      modifies this
      ensures Inv({}) && Ended(r, old(Now()), Now())
      ensures |fired| == |old(fired)| + 1 && fired[|old(fired)|] == (r, status)
      ensures ServersStep(old(servers), servers, old(resets), resets, {}) && handed == old(handed)
      ensures accounts == old(accounts) && switched == old(switched) && lacked == old(lacked)
      ensures SocketsStay() ==>
        Kept(old(servers), servers, r) && requested == old(requested) && written == old(written) && resets == old(resets)
      ensures SocketsStay() && status == 0 && (forall s, i :: memory(s, i)) ==> NoneBreaks(old(servers), servers)
      ensures !SocketsStay() ==> forall s :: 0 <= s < |servers| ==> !servers[s].tcpOpen && !servers[s].udpOpen
      ensures old(OwnersValid()) ==> OwnersValid()
    {
      hide LinksOk, CallbacksOk, AttemptsOk, DeadlinesOk, StreamsOk, AllOwnersOk, ServersStep, AllKnown, FailuresOk, Kept, Ended, NoneBreaks, HasRequest;
      DetachAll(r, status == ARES_SUCCESS, memory);
      ghost var s1, n1 := servers, resets;
      FreeEnded(r, status);
      StepTwice(old(servers), s1, servers, old(resets), n1, resets, {});
    }

    /** The callback of a query without queued requests, and what `end_query` does after it. */
    method FreeEnded(r: Ref, status: int)
      requires Inv({r}) && r in queries
      requires forall s, i :: 0 <= s < |servers| && 0 <= i < |servers[s].queue| ==> servers[s].queue[i].owner != Some(r)
      requires status in {11, 12} ==> TriesUsed(r)
      modifies this
      ensures Inv({}) && Ended(r, old(Now()), Now())
      ensures |fired| == |old(fired)| + 1 && fired[|old(fired)|] == (r, status)
      ensures ServersStep(old(servers), servers, old(resets), resets, {}) && handed == old(handed)
      ensures accounts == old(accounts) && switched == old(switched) && lacked == old(lacked)
      ensures SocketsStay() ==>
        servers == old(servers) && requested == old(requested) && written == old(written) && resets == old(resets)
      ensures !SocketsStay() ==> forall s :: 0 <= s < |servers| ==> !servers[s].tcpOpen && !servers[s].udpOpen
      ensures old(OwnersValid()) ==> OwnersValid()
    {
      hide LinksOk, CallbacksOk, AttemptsOk, DeadlinesOk, StreamsOk, AllOwnersOk, ServersStep, AllKnown, FailuresOk;
      EndKeepsRest(queries, accounts, switched, Limit(nservers, tries), nservers, lastTimeoutProcessed, r);
      FiredKeepsFailures(fired, accounts, switched, Limit(nservers, tries), r, status);
      if AllOwnersOk(servers, queries) {
        OwnersSurviveFree(servers, queries, r);
      }
      CallBackAndFree(r, status);
      EmptyLists(lists, w, queries, nservers, {});
      CloseIfUnused();
    }

    /** The end of `end_query`. */
    method CloseIfUnused()
      requires StreamsOk(servers, written, requested) && |servers| == |resets| && |lists.all| > 0
      modifies this`servers, this`tcpGeneration, this`written, this`requested, this`resets
      ensures |servers| == |old(servers)| == |resets| && StreamsOk(servers, written, requested)
      ensures ServersStep(old(servers), servers, old(resets), resets, {})
      ensures SocketsStay() ==>
        servers == old(servers) && requested == old(requested) && written == old(written) && resets == old(resets)
      ensures !SocketsStay() ==> forall s :: 0 <= s < |servers| ==> !servers[s].tcpOpen && !servers[s].udpOpen
      ensures old(AllOwnersOk(servers, queries)) ==> AllOwnersOk(servers, queries)
      ensures old(AllKnown(written)) ==> AllKnown(written)
    {
      hide StreamsOk, ServersStep, AllOwnersOk, AllKnown;
      StepSame(servers, servers, resets, {});
      if !stayOpen && lists.all[0] == [] {
        CloseAllSockets();
      }
    }

    /** `open_tcp_socket`: the connection is there, or nothing has changed. */
    method OpenTcpSocket(s: nat, outcome: OpenOutcome)
      requires s < |servers| && StreamsOk(servers, written, requested)
      modifies this`servers, this`tcpGeneration
      ensures |servers| == |old(servers)| && StreamsOk(servers, written, requested)
      ensures if outcome == Opened then
                && tcpGeneration == old(tcpGeneration) + 1
                && servers == old(servers)[s := old(servers)[s].(tcpOpen := true, generation := tcpGeneration)]
              else servers == old(servers) && tcpGeneration == old(tcpGeneration)
    {
      if outcome == Opened {
        TcpOpened(s);
      }
    }

    /** The connection is there. */
    method TcpOpened(s: nat)
      requires s < |servers| && StreamsOk(servers, written, requested)
      modifies this`servers, this`tcpGeneration
      ensures servers == old(servers)[s := old(servers)[s].(tcpOpen := true, generation := tcpGeneration)]
      ensures StreamsOk(servers, written, requested) && tcpGeneration == old(tcpGeneration) + 1
    {
      tcpGeneration := tcpGeneration + 1;
      servers := servers[s := servers[s].(tcpOpen := true, generation := tcpGeneration)];
    }

    /** The TCP request of r goes to the end of its server's queue; the query remembers in which
        incarnation of the connection. */
    method QueueRequest(r: Ref)
      requires r in queries && queries[r].server < |servers| && queries[r].server < |queries[r].serverInfo|
      requires IsFrame(queries[r].tcpbuf)
      requires StreamsOk(servers, written, requested) && |servers| == |resets|
      modifies this`servers, this`requested, this`queries
      ensures |servers| == |old(servers)| && StreamsOk(servers, written, requested)
      ensures ServersStep(old(servers), servers, resets, resets, {r})
      ensures var q := old(queries)[r];
        && queries == old(queries)[r := q.(serverInfo :=
             q.serverInfo[q.server := q.serverInfo[q.server].(tcpGeneration := servers[q.server].generation)])]
        && servers == WithRequest(old(servers), q.server, SendRequest(q.tcpbuf, Some(r), false))
        && |q.tcpbuf| >= 2 && q.server < |old(requested)|
        && requested == old(requested)[q.server := old(requested)[q.server] + [q.tcpbuf[2..]]]
      ensures old(AllOwnersOk(servers, queries)) ==> AllOwnersOk(servers, queries)
    {
      var q := queries[r];
      var s := q.server;
      var sendreq := SendRequest(q.tcpbuf, Some(r), false);
      QueuedKeepsStream(servers[s], written[s], requested[s], sendreq);
      StepQueued(servers, resets, s, sendreq, r);
      servers := servers[s := servers[s].(queue := servers[s].queue + [sendreq])];
      requested := requested[s := requested[s] + [q.tcpbuf[2..]]];
      queries := queries[r := q.(serverInfo := q.serverInfo[s := q.serverInfo[s].(tcpGeneration := servers[s].generation)])];
      if old(AllOwnersOk(servers, queries)) {
        OwnersKept(old(servers), old(queries), queries);
        assert RequestOk(sendreq, queries);
      }
    }

    /** The end of `ares__send_query`: the deadline, with exponential backoff and a random share, and
        the two lists it decides. */
    method LinkByDeadline(r: Ref, now: Time)
      requires nservers >= 1 && LinksOk(lists, w, queries, nservers, {r}) && r in queries && Valid(now) && now == clock
      modifies this`queries, this`lists, this`w
      ensures LinksOk(lists, w, queries, nservers, {})
      ensures Waiting(r, old(Now()), Now(), timeoutMs)
      ensures queries == old(queries)[r := old(queries)[r].(timeout := queries[r].timeout)]
    {
      hide LinksOk, Relink, Settle;
      var q := queries[r];
      var random: nat :| random < 8;
      var timeplus: nat := Backoff(timeoutMs, q.tryCount / nservers, random);
      var deadline := TimeAdd(now, timeplus);
      q := q.(timeout := deadline);
      assert {} + {r} == {r};
      QueryWellFormed(lists, w, queries, nservers, {r}, r);
      RelinkKeepsLinks(lists, w, queries, nservers, {}, r, q);
      var bucket := deadline.sec % TIMEOUT_TABLE_SIZE;
      lists, w := Relink(lists, r, bucket, q.server), Settle(w, r, bucket, q.server);
      queries := queries[r := q];
    }

    method Schedule(r: Ref, now: Time, ghost log: seq<(Ref, nat)>)
      requires Inv({r}) && r in queries && now == clock && HandedOver(r, log)
      requires r in accounts && AttemptOk(queries[r], accounts[r], r in switched, Limit(nservers, tries), nservers)
      modifies this`queries, this`lists, this`w
      ensures Inv({}) && Handled(r, old(Now()), Now(), timeoutMs)
      ensures r in queries && HandedOver(r, log) && queries[r] == old(queries)[r].(timeout := queries[r].timeout)
      ensures old(OwnersValid()) ==> OwnersValid()
    {
      hide LinksOk, CallbacksOk, StreamsOk, AllOwnersOk, Relink, AllKnown;
      LinkByDeadline(r, now);
      SecondsMonotonic(now, queries[r].timeout);
      assert queries.Keys == old(queries).Keys;
      if old(AllOwnersOk(servers, queries)) {
        OwnersKept(servers, old(queries), queries);
      }
    }

    /** Stores the changed fields of a query that is being moved. */
    method UpdateQuery(r: Ref, q: Query)
      requires Inv({r}) && r in queries
      requires WellFormedQuery(q, nservers) && q.qid == queries[r].qid && q.tcpbuf == queries[r].tcpbuf
      modifies this`queries
      ensures Inv({r}) && queries == old(queries)[r := q]
      ensures Progress(old(queries)[r], q) ==> Touched(r, old(Now()), Now())
      ensures old(OwnersValid()) ==> OwnersValid()
    {
      hide LinksOk, CallbacksOk, StreamsOk, AllOwnersOk;
      UpdateKeepsLinks(lists, w, queries, nservers, {r}, r, q);
      queries := queries[r := q];
      assert queries.Keys == old(queries).Keys;
      if old(AllOwnersOk(servers, queries)) {
        OwnersKept(servers, old(queries), queries);
      }
    }

    /** `skip_server`: no effect with only one server. */
    method SkipServer(r: Ref, s: nat)
      requires Inv({r}) && r in queries && s < nservers
      modifies this`queries
      ensures Inv({r}) && Touched(r, old(Now()), Now())
      ensures |old(queries)[r].serverInfo| == nservers
      ensures var q := old(queries)[r];
        queries == old(queries)[r :=
          if nservers > 1 then q.(serverInfo := q.serverInfo[s := q.serverInfo[s].(skipServer := true)]) else q]
      ensures old(OwnersValid()) ==> OwnersValid()
    {
      QueryWellFormed(lists, w, queries, nservers, {r}, r);
      var q := queries[r];
      assert queries[r := q] == queries;
      if nservers > 1 {
        UpdateQuery(r, q.(serverInfo := q.serverInfo[s := q.serverInfo[s].(skipServer := true)]));
      }
    }

    /** The request of r is the last one in the queue of its server, for this connection. */
    ghost predicate LastQueued(r: Ref)
      reads this
      requires r in queries
    {
      var q := queries[r];
      && q.server < |servers| && q.server < |q.serverInfo| && |servers[q.server].queue| > 0
      && servers[q.server].queue[|servers[q.server].queue| - 1] == SendRequest(q.tcpbuf, Some(r), false)
      && q.serverInfo[q.server].tcpGeneration == servers[q.server].generation
      && q.server < |requested| && |requested[q.server]| > 0 && |q.tcpbuf| >= 2
      && requested[q.server][|requested[q.server]| - 1] == q.tcpbuf[2..]
    }

    /** Since the log was `before`, r has been handed over once, to the server it now waits at (over TCP
        as the last request in its queue), or it has ended without that. */
    ghost predicate HandedOver(r: Ref, before: seq<(Ref, nat)>)
      reads this
    {
      if r in queries then
        handed == before + [(r, queries[r].server)] && (queries[r].usingTcp ==> LastQueued(r))
      else
        handed == before
    }

    /** The attempt to hand r to its server: over TCP it is queued, over UDP it is sent at once. */
    method Transmit(r: Ref) returns (result: Transmission)
      requires Inv({r}) && r in queries
      modifies this`servers, this`tcpGeneration, this`requested, this`queries, this`handed, this`lacked
      ensures Inv({r}) && Touched(r, old(Now()), Now())
      ensures var q := old(queries)[r]; queries == old(queries)[r := q.(serverInfo := queries[r].serverInfo)]
      ensures ServersStep(old(servers), servers, resets, resets, {r})
      ensures old(OwnersValid()) ==> OwnersValid()
      ensures if result == Transmitted then HandedOver(r, old(handed)) else requested == old(requested) && handed == old(handed)
      ensures lacked == if result == NoMemory then old(lacked) + [r] else old(lacked)
    {
      hide LinksOk, CallbacksOk, AttemptsOk, StreamsOk, DeadlinesOk, AllOwnersOk, ServersStep, AllKnown;
      if queries[r].usingTcp {
        var outcome: OpenOutcome, gotMemory: bool := *, *;
        result := TransmitTcp(r, outcome, gotMemory);
      } else {
        var gotSocket: bool, wrote: bool := *, *;
        result := TransmitUdp(r, gotSocket, wrote);
      }
      if result == Transmitted {
        handed := handed + [(r, queries[r].server)];
      }
    }

    /** Opens the connection to a server if there is none. */
    method OpenIfClosed(s: nat, outcome: OpenOutcome) returns (ready: bool)
      requires s < |servers| == |resets| && StreamsOk(servers, written, requested)
      modifies this`servers, this`tcpGeneration
      ensures |servers| == |old(servers)| && StreamsOk(servers, written, requested)
      ensures ready <==> old(servers)[s].tcpOpen || outcome != Failed
      ensures if !old(servers)[s].tcpOpen && outcome == Opened then
                && tcpGeneration == old(tcpGeneration) + 1
                && servers == old(servers)[s := old(servers)[s].(tcpOpen := true, generation := tcpGeneration)]
              else servers == old(servers) && tcpGeneration == old(tcpGeneration)
      ensures ServersStep(old(servers), servers, resets, resets, {})
      ensures old(AllOwnersOk(servers, queries)) ==> AllOwnersOk(servers, queries)
    {
      hide StreamsOk, ServersStep, AllOwnersOk;
      StepSame(servers, servers, resets, {});
      ready := true;
      if !servers[s].tcpOpen {
        OpenTcpSocket(s, outcome);
        OwnersOfSameQueues(old(servers), servers, queries);
        StepSame(old(servers), servers, resets, {});
        ready := outcome != Failed;
      }
    }

    /** Over TCP, for every outcome of opening the connection and every answer of the allocator: only a failure to
        open it makes the query try the next server. */
    method TransmitTcp(r: Ref, outcome: OpenOutcome, gotMemory: bool) returns (result: Transmission)
      requires Inv({r}) && r in queries
      modifies this`servers, this`tcpGeneration, this`requested, this`queries, this`lacked
      ensures Inv({r}) && Touched(r, old(Now()), Now())
      ensures var q := old(queries)[r]; queries == old(queries)[r := q.(serverInfo := queries[r].serverInfo)]
      ensures ServersStep(old(servers), servers, resets, resets, {r})
      ensures old(OwnersValid()) ==> OwnersValid()
      ensures if result == Transmitted then LastQueued(r) else requested == old(requested)
      ensures |old(servers)| == nservers > old(queries)[r].server
      ensures var open := old(servers)[old(queries)[r].server].tcpOpen;
        && result == (if !open && outcome == Failed then TryNext else if !gotMemory then NoMemory else Transmitted)
        && |servers| == nservers && var after := servers[old(queries)[r].server];
           if !open && outcome == Opened then after.tcpOpen && after.generation == tcpGeneration == old(tcpGeneration) + 1
           else after.tcpOpen == open && tcpGeneration == old(tcpGeneration)
      ensures lacked == if result == NoMemory then old(lacked) + [r] else old(lacked)
    {
      hide LinksOk, CallbacksOk, AttemptsOk, StreamsOk, AllOwnersOk, DeadlinesOk, ServersStep, AllKnown, FailuresOk, Touched;
      TouchedNothing(r, Now());
      QueryWellFormed(lists, w, queries, nservers, {r}, r);
      var s := queries[r].server;
      assert queries[r := queries[r]] == queries;
      ghost var s0 := servers;
      var ready := OpenIfClosed(s, outcome);
      StepMore(s0, servers, resets, resets, {}, {r});
      if !ready {
        return TryNext;
      }
      if !gotMemory {
        lacked := lacked + [r];
        return NoMemory;
      }
      ghost var s1 := servers;
      Enqueue(r);
      StepTwice(s0, s1, servers, resets, resets, resets, {r});
      result := Transmitted;
    }

    /** Queues the TCP request of a query that is being moved. */
    method Enqueue(r: Ref)
      requires Inv({r}) && r in queries
      modifies this`servers, this`requested, this`queries
      ensures Inv({r}) && Touched(r, old(Now()), Now()) && LastQueued(r)
      ensures old(queries)[r].server < |old(servers)|
      ensures servers == WithRequest(old(servers), old(queries)[r].server, SendRequest(old(queries)[r].tcpbuf, Some(r), false))
      ensures var q := old(queries)[r]; queries == old(queries)[r := q.(serverInfo := queries[r].serverInfo)]
      ensures ServersStep(old(servers), servers, resets, resets, {r})
      ensures old(OwnersValid()) ==> OwnersValid()
    {
      hide LinksOk, CallbacksOk, StreamsOk, AllOwnersOk, DeadlinesOk, ServersStep, AllKnown;
      QueryWellFormed(lists, w, queries, nservers, {r}, r);
      ghost var q0 := queries;
      QueueRequest(r);
      UpdateKeepsLinks(lists, w, q0, nservers, {r}, r, queries[r]);
      assert queries.Keys == q0.Keys;
      OthersKept(q0, queries, accounts, switched, Limit(nservers, tries), nservers, lastTimeoutProcessed, r);
    }

    /** Over UDP: opens a socket if there is none, and writes. */
    method TransmitUdp(r: Ref, gotSocket: bool, wrote: bool) returns (result: Transmission)
      requires Inv({r}) && r in queries
      modifies this`servers
      ensures Inv({r}) && (old(OwnersValid()) ==> OwnersValid())
      ensures ServersStep(old(servers), servers, resets, resets, {r})
      ensures |old(servers)| == nservers > old(queries)[r].server
      ensures var s := old(queries)[r].server; var open := old(servers)[s].udpOpen || gotSocket;
        && result == (if open && wrote then Transmitted else TryNext)
        && servers == old(servers)[s := old(servers)[s].(udpOpen := open)]
    {
      hide LinksOk, CallbacksOk, StreamsOk, AllOwnersOk, AttemptsOk, DeadlinesOk, ServersStep, AllKnown;
      QueryWellFormed(lists, w, queries, nservers, {r}, r);
      var s := queries[r].server;
      assert servers[s := servers[s].(udpOpen := servers[s].udpOpen)] == servers;
      StepSame(servers, servers, resets, {r});
      if !servers[s].udpOpen {
        if !gotSocket {
          return TryNext;
        }
        UdpKeepsStreams(servers, written, requested, s);
        servers := servers[s := servers[s].(udpOpen := true)];
        OwnersOfSameQueues(old(servers), servers, queries);
        StepSame(old(servers), servers, resets, {r});
      }
      result := if wrote then Transmitted else TryNext;
    }

    /** What is left of the tries of r: bounds the mutual recursion of sending and moving on. */
    ghost function TriesLeft(r: Ref): nat
      reads this
      requires r in queries
    {
      if queries[r].tryCount < Limit(nservers, tries) then Limit(nservers, tries) - queries[r].tryCount else 0
    }

    /** r may enter `ares__send_query` once more. */
    ghost predicate MayEnter(r: Ref, paid: nat)
      reads this
    {
      && r in queries && r in accounts && nservers >= 1
      && (queries[r].tryCount == 0 || queries[r].tryCount < Limit(nservers, tries))
      && accounts[r].entered + accounts[r].passed == queries[r].tryCount + paid + (if r in switched then 1 else 0)
      && (r in switched ==> queries[r].usingTcp)
      && queries[r].server == Rotate(accounts[r].first, queries[r].tryCount, nservers)
    }

    /** The server of q is not broken, not skipped for q, and has not been sent q over this connection. */
    ghost predicate Usable(q: Query)
      reads this
    {
      && q.server < |servers| && q.server < |q.serverInfo|
      && var info := q.serverInfo[q.server];
      && !servers[q.server].isBroken && !info.skipServer
      && !(q.usingTcp && info.tcpGeneration == servers[q.server].generation)
    }

    /** Counts the entry of r into `ares__send_query`. */
    ghost method Enter(r: Ref)
      requires Inv({r}) && MayEnter(r, 0)
      modifies this`accounts
      ensures Inv({r}) && accounts == old(accounts)[r := old(accounts)[r].(entered := old(accounts)[r].entered + 1)]
      ensures AttemptOk(queries[r], accounts[r], r in switched, Limit(nservers, tries), nservers) && MayEnter(r, 1)
      ensures AccountsStep(old(accounts), accounts, r)
      ensures old(OwnersValid()) ==> OwnersValid()
    {
      hide LinksOk, CallbacksOk, StreamsOk, AllOwnersOk, DeadlinesOk, AllKnown, FailuresOk;
      var account := accounts[r].(entered := accounts[r].entered + 1);
      AccountKeepsFailures(fired, accounts, switched, Limit(nservers, tries), queries.Keys, nextRef, r, account);
      accounts := accounts[r := account];
    }

    /** Counts the turn of a server that is of no use for r, in the state q that r would have there. */
    ghost method Pass(r: Ref, q: Query)
      requires Inv({r}) && r in queries && r in accounts && !Usable(q)
      requires q.server == Rotate(accounts[r].first, q.tryCount, nservers)
      modifies this`accounts
      ensures Inv({r}) && accounts == old(accounts)[r := old(accounts)[r].(passed := old(accounts)[r].passed + 1)]
      ensures old(OwnersValid()) ==> OwnersValid()
    {
      hide LinksOk, CallbacksOk, StreamsOk, AllOwnersOk, DeadlinesOk, AllKnown, FailuresOk;
      var account := accounts[r].(passed := accounts[r].passed + 1);
      AccountKeepsFailures(fired, accounts, switched, Limit(nservers, tries), queries.Keys, nextRef, r, account);
      accounts := accounts[r := account];
    }

    /** Ends a query that could not be sent: for lack of memory, or since all its tries are used up. */
    method GiveUp(r: Ref, status: int, ghost before: seq<Ref>)
      requires Inv({r}) && r in queries
      requires if status == 15 then lacked == before + [r] else status == queries[r].errorStatus && TriesUsed(r) && lacked == before
      modifies this
      ensures Inv({}) && Handled(r, old(Now()), Now(), timeoutMs) && HandedOver(r, old(handed)) && r !in queries
      ensures FailedRightly(r, |old(fired)|, before) && lacked == old(lacked)
      ensures ServersStep(old(servers), servers, old(resets), resets, {r})
      ensures accounts == old(accounts) && switched == old(switched)
      ensures old(OwnersValid()) ==> OwnersValid()
    {
      hide LinksOk, CallbacksOk, StreamsOk, AllOwnersOk, Handled, Ended, DeadlinesOk, ServersStep, AllKnown, AttemptsOk, FailuresOk, Kept;
      ghost var s0 := Now();
      QueryWellFormed(lists, w, queries, nservers, {r}, r);
      var memory: (nat, nat) -> bool := *;
      EndQuery(r, status, memory);
      EndedIsHandled(r, s0, Now(), timeoutMs);
      StepMore(old(servers), servers, old(resets), resets, {}, {r});
    }

    /** r is live, or the callback at a position of the log says that there was no memory for it, and so it was, or
        all its tries are used up. */
    ghost predicate FailedRightly(r: Ref, i: nat, before: seq<Ref>)
      reads this
    {
      if r in queries then lacked == before
      else
        && i < |fired| && fired[i].0 == r
        && if fired[i].1 == 15 then lacked == before + [r] else fired[i].1 in {11, 12} && TriesUsed(r) && lacked == before
    }

    /** `ares__send_query`: sends r to its server, or skips that server for r and moves r on to the next one.
        It ends up handed over and waiting, or ended with all tries used up or for lack of memory, and nothing
        else in the lists changes. */
    method SendQuery(r: Ref, now: Time, ghost moved: bool)
      requires Inv({r}) && now == clock && MayEnter(r, 0) && (moved ==> Usable(queries[r]))
      modifies this
      ensures Inv({}) && Handled(r, old(Now()), Now(), timeoutMs) && HandedOver(r, old(handed))
      ensures FailedRightly(r, |old(fired)|, old(lacked)) && AccountsStep(old(accounts), accounts, r) && switched == old(switched)
      ensures r in queries ==> queries[r].usingTcp == old(queries)[r].usingTcp && resets == old(resets)
      ensures r in queries ==>
        (if queries[r].tryCount == old(queries)[r].tryCount then queries[r].server == old(queries)[r].server
         else queries[r].tryCount > old(queries)[r].tryCount && Skipped(queries[r], old(queries)[r].server, nservers))
      ensures ServersStep(old(servers), servers, old(resets), resets, {r})
      ensures old(OwnersValid()) ==> OwnersValid()
      decreases TriesLeft(r), 2
    {
      hide LinksOk, CallbacksOk, StreamsOk, AllOwnersOk, Handled, Ended, DeadlinesOk, Touched, ServersStep, AllKnown, AttemptsOk, HandedOver;
      hide FailuresOk, SkipsKept, AccountsStep, TriesUsed;
      ghost var s0 := Now();
      Enter(r);
      QueryWellFormed(lists, w, queries, nservers, {r}, r);
      var s := queries[r].server;
      var result := Transmit(r);
      ghost var s1, servers1, resets1, accounts1 := Now(), servers, resets, accounts;
      match result
      case NoMemory =>
        GiveUp(r, ARES_ENOMEM, old(lacked));
        HandledAfterTouched(r, s0, s1, Now(), timeoutMs);
        StepTwice(old(servers), servers1, servers, old(resets), resets1, resets, {r});
      case TryNext =>
        SkipAndMove(r, s, now);
        HandledAfterTouched(r, s0, s1, Now(), timeoutMs);
        HandledTries(r, s1, Now(), timeoutMs);
        AccountsTwice(old(accounts), accounts1, accounts, r);
        StepTwice(old(servers), servers1, servers, old(resets), resets1, resets, {r});
      case Transmitted =>
        Schedule(r, now, old(handed));
        assert s1.queries[r] == s0.queries[r].(serverInfo := s1.queries[r].serverInfo);
        HandledAfterTouched(r, s0, s1, Now(), timeoutMs);
    }

    /** Skips a server for r and moves r on. */
    method SkipAndMove(r: Ref, s: nat, now: Time)
      requires Inv({r}) && now == clock && MayEnter(r, 1) && s < nservers
      modifies this
      ensures Inv({}) && Handled(r, old(Now()), Now(), timeoutMs) && HandedOver(r, old(handed))
      ensures FailedRightly(r, |old(fired)|, old(lacked)) && AccountsStep(old(accounts), accounts, r) && switched == old(switched)
      ensures r in queries ==> queries[r].tryCount > old(queries)[r].tryCount && Skipped(queries[r], s, nservers)
      ensures r in queries ==> queries[r].usingTcp == old(queries)[r].usingTcp && resets == old(resets)
      ensures ServersStep(old(servers), servers, old(resets), resets, {r})
      ensures old(OwnersValid()) ==> OwnersValid()
      decreases TriesLeft(r), 1
    {
      hide LinksOk, CallbacksOk, StreamsOk, AllOwnersOk, Handled, Touched, SkipsKept, ServersStep, AllKnown, HandedOver, FailuresOk;
      hide AttemptsOk, DeadlinesOk, AccountsStep;
      ghost var s0 := Now();
      SkipServer(r, s);
      ghost var s1 := Now();
      NextServer(r, now);
      HandledAfterTouched(r, s0, s1, Now(), timeoutMs);
      HandledTries(r, s1, Now(), timeoutMs);
      if r in queries {
        SkippedKept(s1.queries[r], queries[r], s, nservers);
      }
    }

    /** r waits at the server whose turn it is, and one turn is accounted for with each count of its tries. */
    ghost predicate InTurn(r: Ref, offset: int, first: nat)
      reads this
      requires r in queries
    {
      && r in accounts && nservers >= 1 && queries[r].server == Rotate(first, queries[r].tryCount, nservers)
      && accounts[r].entered + accounts[r].passed == queries[r].tryCount + offset
    }

    /** `next_server`: the next server that can be tried, or the end of r. Each server in between was either
        sent r without success or of no use for r. */
    method NextServer(r: Ref, now: Time)
      requires Inv({r}) && now == clock && MayEnter(r, 1)
      modifies this
      ensures Inv({}) && Handled(r, old(Now()), Now(), timeoutMs) && HandedOver(r, old(handed))
      ensures FailedRightly(r, |old(fired)|, old(lacked)) && AccountsStep(old(accounts), accounts, r) && switched == old(switched)
      ensures r in queries ==> queries[r].tryCount > old(queries[r].tryCount)
      ensures r in queries ==> queries[r].usingTcp == old(queries)[r].usingTcp && resets == old(resets)
      ensures r in queries ==> InTurn(r, old(accounts)[r].entered + old(accounts)[r].passed - old(queries)[r].tryCount, old(accounts)[r].first)
      ensures ServersStep(old(servers), servers, old(resets), resets, {r})
      ensures old(OwnersValid()) ==> OwnersValid()
      decreases TriesLeft(r), 0
    {
      hide LinksOk, CallbacksOk, StreamsOk, AllOwnersOk, Relink, Unlink, Handled, ServersStep, AllKnown, HandedOver, FailuresOk;
      hide AttemptsOk, DeadlinesOk, Skipped, SkipsKept;
      QueryWellFormed(lists, w, queries, nservers, {r}, r);
      ghost var s0 := Now();
      var q, found := FindServer(r);
      UpdateQuery(r, q);
      ghost var s1, accounts1 := Now(), accounts;
      if found {
        SendQuery(r, now, true);
        HandledTries(r, s1, Now(), timeoutMs);
        AccountsTwice(old(accounts), accounts1, accounts, r);
        AllowFor(r);
      } else {
        GiveUp(r, q.errorStatus, lacked);
      }
      HandledAfterTouched(r, s0, s1, Now(), timeoutMs);
    }

    /** The loop of `next_server`: r as it would be sent to the first server in turn that is of use for it, or
        with all its tries used up. Every server passed over on the way is of no use. */
    method FindServer(r: Ref) returns (q: Query, found: bool)
      requires Inv({r}) && MayEnter(r, 1)
      modifies this`accounts
      ensures Inv({r}) && AccountsStep(old(accounts), accounts, r) && (old(OwnersValid()) ==> OwnersValid())
      ensures q == queries[r].(tryCount := q.tryCount, server := q.server) && q.tryCount > queries[r].tryCount
      ensures accounts[r].entered + accounts[r].passed == q.tryCount + (if r in switched then 1 else 0)
      ensures q.server < nservers
      ensures found ==>
        q.tryCount < Limit(nservers, tries) && Usable(q) && q.server == Rotate(accounts[r].first, q.tryCount, nservers)
      ensures !found ==> q.tryCount >= Limit(nservers, tries) && TriesUsed(r)
    {
      hide LinksOk, CallbacksOk, StreamsOk, AllOwnersOk, AllKnown, FailuresOk, AttemptsOk, DeadlinesOk;
      QueryWellFormed(lists, w, queries, nservers, {r}, r);
      q, found := queries[r], false;
      q := q.(tryCount := q.tryCount + 1);
      while q.tryCount < nservers * tries
        invariant Inv({r}) && AccountsStep(old(accounts), accounts, r) && (old(OwnersValid()) ==> OwnersValid())
        invariant q.tryCount > queries[r].tryCount && (q.tryCount == 1 || q.tryCount <= nservers * tries)
        invariant q == queries[r].(tryCount := q.tryCount, server := q.server) && q.server < nservers
        invariant q.server == Rotate(accounts[r].first, q.tryCount - 1, nservers)
        invariant accounts[r].entered + accounts[r].passed == q.tryCount + (if r in switched then 1 else 0)
        decreases nservers * tries - q.tryCount
      {
        // Move on to the next server.
        q := q.(server := (q.server + 1) % nservers);
        var server := servers[q.server];
        if !server.isBroken && !q.serverInfo[q.server].skipServer
           && !(q.usingTcp && q.serverInfo[q.server].tcpGeneration == server.generation)
        {
          found := true;
          return;
        }
        Pass(r, q);
        q := q.(tryCount := q.tryCount + 1);
      }
    }

    lemma AllowFor(r: Ref)
      requires Inv({})
      ensures Inv({r}) && (r in queries ==> MayEnter(r, 1) && (r in switched ==> queries[r].usingTcp))
    {
      MoreExcepted(lists, w, queries, nservers, {}, r);
      assert {} + {r} == {r};
    }

    /** Skips a server for r and moves r on, as after an error of that server. */
    method SkipAndMoveOn(r: Ref, s: nat, now: Time)
      requires Inv({}) && r in queries && s < nservers && now == clock
      modifies this
      ensures Inv({}) && Handled(r, old(Now()), Now(), timeoutMs) && HandedOver(r, old(handed)) && FailedRightly(r, |old(fired)|, old(lacked))
      ensures r in queries ==> queries[r].tryCount > old(queries)[r].tryCount && Skipped(queries[r], s, nservers)
      ensures ServersStep(old(servers), servers, old(resets), resets, {r})
      ensures old(OwnersValid()) ==> OwnersValid()
    {
      hide LinksOk, CallbacksOk, StreamsOk, AllOwnersOk, Handled, ServersStep, AllKnown, HandedOver, FailuresOk, AttemptsOk, DeadlinesOk;
      AllowFor(r);
      SkipAndMove(r, s, now);
    }

    /** The first loop state of `handle_error`: the list of server s is empty and its members hang
        from the temporary head. */
    method StealList(s: nat)
      requires AtRest() && s < nservers
      modifies this`lists, this`w
      ensures Inv({}) && lists.all == old(lists).all && Shape(lists, nservers) && Shape(old(lists), nservers)
      ensures lists.toServer[nservers] == old(lists).toServer[s] && lists.toServer[s] == []
      ensures forall x :: x in lists.toServer[nservers] <==> x in queries && queries[x].server == s
    {
      forall x
        ensures x in lists.toServer[s] <==> x in queries && queries[x].server == s
      {
        LinkedExactlyOnce(lists, w, queries, nservers, x);
      }
      StealKeepsLinks(lists, w, queries, nservers, s);
      lists, w := lists.(toServer := Swap(lists.toServer, s, nservers)), StealFrom(w, s, nservers);
    }

    /** `handle_error`: resets the connections of a server and moves all its queries on. The query
        at hand always belongs to that server, and the temporary list ends up empty. */
    method HandleError(s: nat, now: Time)
      requires AtRest() && s < nservers && now == clock
      modifies this
      ensures AtRest() && nextRef == old(nextRef) && clock == old(clock)
      ensures queries.Keys <= old(queries).Keys && old(fired) <= fired && OnlyFailures(fired, |old(fired)|)
      ensures forall x :: x in old(queries) ==>
        if old(queries)[x].server != s then x in queries && queries[x] == old(queries)[x]
        else x in queries ==> queries[x].tryCount > old(queries)[x].tryCount && Skipped(queries[x], s, nservers)
      ensures ServersStep(old(servers), servers, old(resets), resets, old(queries).Keys) && resets[s] > old(resets)[s]
      ensures old(OwnersValid()) ==> OwnersValid()
    {
      hide LinksOk, CallbacksOk, AttemptsOk, StreamsOk, DeadlinesOk, AllOwnersOk, Skipped, Progress, DeadlineSet;
      hide ServersStep, AllKnown, HandedOver, Handled, FailuresOk, TriesUsed, FailedRightly, MovedOn;
      ghost var before := queries;
      CloseSockets(s);
      StepMore(old(servers), servers, old(resets), resets, {}, before.Keys);
      StealList(s);
      NoneMovedOn(queries, lists.toServer[nservers], s, nservers);
      while lists.toServer[nservers] != []
        invariant Inv({}) && Shape(lists, nservers) && lists.all[1] == []
        invariant nextRef == old(nextRef) && clock == old(clock) && old(fired) <= fired && queries.Keys <= before.Keys
        invariant OnlyFailures(fired, |old(fired)|)
        invariant MovedOn(before, queries, lists.toServer[nservers], s, nservers)
        invariant ServersStep(old(servers), servers, old(resets), resets, before.Keys) && resets[s] > old(resets)[s]
        invariant old(OwnersValid()) ==> OwnersValid()
        decreases |lists.toServer[nservers]|
      {
        ghost var s0, w0, servers0, resets0 := Now(), w, servers, resets;
        var r := lists.toServer[nservers][0];
        MovedOnFirst(before, queries, lists.toServer[nservers], s, nservers);
        SkipAndMoveOn(r, s, now);
        HandledLogs(r, s0, Now(), w0, nservers, {}, timeoutMs);
        StolenAdvances(lists, w, queries, nservers, r, s0, w0, Now(), timeoutMs);
        MovedOnNext(before, s0.queries, queries, s0.lists.toServer[nservers], s, nservers);
        StepMore(servers0, servers, resets0, resets, {r}, before.Keys);
        StepResets(servers0, servers, resets0, resets, before.Keys, s);
        StepTwice(old(servers), servers0, servers, old(resets), resets0, resets, before.Keys);
      }
      assert lists.toServer[nservers] == [];
      AllMovedOn(before, queries, s, nservers);
    }

    /** The clock of the caller moves on. */
    method ReadClock(now: Time)
      requires AtRest() && Valid(now) && Micros(clock) <= Micros(now)
      modifies this`clock
      ensures AtRest() && clock == now
      ensures old(OwnersValid()) ==> OwnersValid()
    {
      hide LinksOk, CallbacksOk, StreamsOk, AllOwnersOk;
      SecondsMonotonic(clock, now);
      clock := now;
    }

    /** The deadline of r need not be looked at. */
    ghost predicate Fresh(r: Ref)
      reads this
      requires r in queries
    {
      IsFresh(queries[r], Micros(clock), timeoutMs)
    }

    /** One query whose deadline has passed: counts the timeout and moves it on. */
    method TimeOut(r: Ref, now: Time)
      requires AtRest() && r in queries && now == clock
      modifies this
      ensures AtRest() && nextRef == old(nextRef) && clock == old(clock) && lastTimeoutProcessed == old(lastTimeoutProcessed)
      ensures queries.Keys <= old(queries).Keys && old(fired) <= fired
      ensures forall x :: x in old(queries) && x != r ==> x in queries && queries[x] == old(queries)[x]
      ensures OnlyFailures(fired, |old(fired)|) && (r in queries ==> fired == old(fired))
      ensures r in queries ==> Fresh(r) && queries[r].timeouts == old(queries)[r].timeouts + 1
      ensures r !in queries ==>
        |fired| == |old(fired)| + 1 && fired[|old(fired)|].0 == r && fired[|old(fired)|].1 in {12, 15}
      ensures r in queries ==> queries[r].tryCount > old(queries)[r].tryCount
      ensures HandedOver(r, old(handed)) && FailedRightly(r, |old(fired)|, old(lacked))
      ensures lists.byTimeout == if r in queries
        then Append(Remove(old(lists).byTimeout, r), queries[r].timeout.sec % TIMEOUT_TABLE_SIZE, r)
        else Remove(old(lists).byTimeout, r)
      ensures lists.all == if r in queries then old(lists).all else Remove(old(lists).all, r)
      ensures old(OwnersValid()) ==> OwnersValid()
    {
      hide LinksOk, CallbacksOk, AttemptsOk, StreamsOk, DeadlinesOk, AllOwnersOk, Remove, Append, HandedOver, FailuresOk, AccountsStep, ServersStep, AllKnown;
      AllowFor(r);
      var q := queries[r].(errorStatus := ARES_ETIMEOUT, timeouts := queries[r].timeouts + 1);
      QueryWellFormed(lists, w, queries, nservers, {r}, r);
      UpdateQuery(r, q);
      ghost var s1 := Now();
      NextServer(r, now);
      StillNothingStolen(r, s1, Now(), w, nservers, timeoutMs);
    }

    /** What is left of the tries of all live queries: bounds one pass over the timeouts. */
    ghost function TotalBudget(): nat
      reads this
      requires |lists.all| == 2
    {
      Budget(lists.all[0], queries, Limit(nservers, tries))
    }

    ghost predicate Scanning(before: map<Ref, Query>, b: nat, i: nat)
      reads this
    {
      Shape(lists, nservers) && b < TIMEOUT_TABLE_SIZE
      && ScanState(before, queries, lists.byTimeout[b], i, Micros(clock), timeoutMs)
    }

    /** One node of the walk over a bucket: returns the position of the node saved as the next one,
        which is the end of the list if this was the last node, even if it came back there. */
    method VisitBucket(b: nat, i: nat, now: Time, ghost before: map<Ref, Query>) returns (next: nat)
      requires AtRest() && now == clock && Scanning(before, b, i) && i < |lists.byTimeout[b]|
      modifies this
      ensures AtRest() && nextRef == old(nextRef) && clock == old(clock) && lastTimeoutProcessed == old(lastTimeoutProcessed)
      ensures Scanning(before, b, next) && old(fired) <= fired && OnlyFailures(fired, |old(fired)|)
      ensures
        TotalBudget() < old(TotalBudget()) || (lists == old(lists) && queries == old(queries) && next == i + 1)
      ensures old(OwnersValid()) ==> OwnersValid()
    {
      hide FailuresOk, LinksOk, CallbacksOk, AttemptsOk, StreamsOk, DeadlinesOk, AllOwnersOk, NothingStolen;
      hide Remove, Append, Without, Budget, NoDuplicates, ScanState;
      BucketMembers(b);
      var list := lists.byTimeout[b];
      var r := list[i];
      assert r in list;
      ghost var l0, q0 := lists, queries;
      TimedOutMeaning(now, queries[r].timeout);
      if queries[r].timeout.sec != 0 && TimedOut(now, queries[r].timeout) {
        TimeOut(r, now);
        BucketMembers(b);
        ghost var bucket := if r in queries then queries[r].timeout.sec % TIMEOUT_TABLE_SIZE else 0;
        BucketAfter(l0.byTimeout, lists.byTimeout, r, b, i, r in queries, bucket);
        BudgetFalls(l0, q0, r);
        ScanContinues(before, q0, queries, list, lists.byTimeout[b], i, r in queries && bucket == b, Micros(clock), timeoutMs);
        next := if i + 1 == |list| then |lists.byTimeout[b]| else i;
      } else {
        ScanPasses(before, queries, list, i, Micros(clock), timeoutMs);
        next := i + 1;
      }
    }

    /** One bucket of `process_timeouts`. */
    method ScanBucket(b: nat, now: Time)
      requires AtRest() && b < TIMEOUT_TABLE_SIZE && now == clock
      modifies this
      ensures AtRest() && nextRef == old(nextRef) && clock == old(clock) && lastTimeoutProcessed == old(lastTimeoutProcessed)
      ensures queries.Keys <= old(queries).Keys && old(fired) <= fired && OnlyFailures(fired, |old(fired)|)
      ensures forall x :: x in queries ==> queries[x] == old(queries)[x] || Fresh(x)
      ensures forall x :: x in old(queries) && Micros(old(queries)[x].timeout) > Micros(clock) ==>
        x in queries && queries[x] == old(queries)[x]
      ensures forall x :: x in queries && queries[x].timeout.sec % TIMEOUT_TABLE_SIZE == b ==> Fresh(x)
      ensures old(OwnersValid()) ==> OwnersValid()
    {
      hide FailuresOk, LinksOk, CallbacksOk, AttemptsOk, StreamsOk, DeadlinesOk, AllOwnersOk, NothingStolen, Budget;
      ghost var before := queries;
      var i: nat := 0;
      BucketMembers(b);
      while i < |lists.byTimeout[b]|
        invariant AtRest() && nextRef == old(nextRef) && clock == old(clock) && lastTimeoutProcessed == old(lastTimeoutProcessed)
        invariant old(fired) <= fired && OnlyFailures(fired, |old(fired)|) && Scanning(before, b, i)
        invariant old(OwnersValid()) ==> OwnersValid()
        decreases TotalBudget(), |lists.byTimeout[b]| - i
      {
        i := VisitBucket(b, i, now, before);
      }
      BucketMembers(b);
    }

    /** `process_timeouts`: scans the bucket of every second since the last time. Afterwards no live
        query has a deadline at or before now, and none whose deadline lay ahead was touched. */
    method ProcessTimeouts(now: Time)
      requires AtRest() && now == clock
      modifies this
      ensures AtRest() && nextRef == old(nextRef) && clock == old(clock) && lastTimeoutProcessed == now.sec
      ensures queries.Keys <= old(queries).Keys && old(fired) <= fired && OnlyFailures(fired, |old(fired)|)
      ensures forall x :: x in queries ==>
        Fresh(x) && (queries[x] == old(queries)[x] || Micros(old(queries)[x].timeout) <= Micros(now))
      ensures forall x :: x in old(queries) && Micros(old(queries)[x].timeout) > Micros(now) ==>
        x in queries && queries[x] == old(queries)[x]
      ensures timeoutMs >= 2 ==> forall x :: x in queries ==> !TimedOut(now, queries[x].timeout)
      ensures old(OwnersValid()) ==> OwnersValid()
    {
      hide FailuresOk, LinksOk, CallbacksOk, AttemptsOk, StreamsOk, AllOwnersOk, NothingStolen;
      ghost var before := queries;
      var t := lastTimeoutProcessed;
      while t <= now.sec
        invariant lastTimeoutProcessed <= t <= now.sec + 1
        invariant AtRest() && nextRef == old(nextRef) && clock == old(clock) && lastTimeoutProcessed == old(lastTimeoutProcessed)
        invariant old(fired) <= fired && OnlyFailures(fired, |old(fired)|)
        invariant SweepState(before, queries, t, Micros(now), timeoutMs)
        invariant old(OwnersValid()) ==> OwnersValid()
      {
        ghost var q0 := queries;
        ScanBucket(t % TIMEOUT_TABLE_SIZE, now);
        SweepContinues(before, q0, queries, t, Micros(now), timeoutMs);
        t := t + 1;
      }
      FreshDeadlines();
      lastTimeoutProcessed := now.sec;
    }

    /** A fresh deadline lies in the current second or later, and is not timed out. */
    lemma FreshDeadlines()
      requires Inv({})
      ensures forall x :: x in queries ==> Valid(queries[x].timeout)
      ensures forall x :: x in queries && Fresh(x) ==> queries[x].timeout.sec >= clock.sec
      ensures forall x :: x in queries && queries[x].timeout.sec > clock.sec ==> Micros(queries[x].timeout) > Micros(clock)
      ensures forall x :: x in queries && Micros(queries[x].timeout) > Micros(clock) ==> !TimedOut(clock, queries[x].timeout)
    {
    }

    /** `skip_server` for a query that stays where it is. */
    method SkipServerAtRest(r: Ref, s: nat)
      requires AtRest() && r in queries && s < nservers
      modifies this`queries
      ensures AtRest() && |old(queries)[r].serverInfo| == nservers
      ensures var q := old(queries)[r];
        queries == old(queries)[r :=
          if nservers > 1 then q.(serverInfo := q.serverInfo[s := q.serverInfo[s].(skipServer := true)]) else q]
      ensures old(OwnersValid()) ==> OwnersValid()
    {
      hide LinksOk, CallbacksOk, StreamsOk, AllOwnersOk, NothingStolen;
      QueryWellFormed(lists, w, queries, nservers, {}, r);
      var q := queries[r];
      assert queries[r := q] == queries;
      if nservers > 1 {
        q := q.(serverInfo := q.serverInfo[s := q.serverInfo[s].(skipServer := true)]);
        UpdateKeepsLinks(lists, w, queries, nservers, {}, r, q);
        queries := queries[r := q];
        assert queries.Keys == old(queries).Keys;
        if old(AllOwnersOk(servers, queries)) {
          OwnersKept(servers, old(queries), queries);
        }
      }
    }

    /** Moves a query whose answer was truncated to TCP and sends it again. */
    method SwitchToTcp(r: Ref, now: Time)
      requires AtRest() && r in queries && !queries[r].usingTcp && now == clock
      modifies this
      ensures AtRest() && Handled(r, old(Now()), Now(), timeoutMs) && HandedOver(r, old(handed))
      ensures FailedRightly(r, |old(fired)|, old(lacked))
      ensures r in queries ==> queries[r].usingTcp
      ensures old(OwnersValid()) ==> OwnersValid()
    {
      hide LinksOk, CallbacksOk, StreamsOk, AllOwnersOk, NothingStolen, Handled, Touched, HandedOver, AttemptsOk, DeadlinesOk, FailuresOk, ServersStep, AllKnown, Skipped;
      ghost var s0 := Now();
      AllowFor(r);
      QueryWellFormed(lists, w, queries, nservers, {r}, r);
      UpdateQuery(r, queries[r].(usingTcp := true));
      AddSwitched(r);
      ghost var s1 := Now();
      SendQuery(r, now, false);
      StillNothingStolen(r, s1, Now(), w, nservers, timeoutMs);
      HandledAfterTouched(r, s0, s1, Now(), timeoutMs);
      HandledTries(r, s1, Now(), timeoutMs);
    }

    ghost method AddSwitched(r: Ref)
      requires Inv({r}) && MayEnter(r, 1) && queries[r].usingTcp && r !in switched
      modifies this`switched
      ensures Inv({r}) && MayEnter(r, 0) && switched == old(switched) + {r}
      ensures old(OwnersValid()) ==> OwnersValid()
    {
      hide LinksOk, CallbacksOk, StreamsOk, AllOwnersOk, DeadlinesOk, FailuresOk, AllKnown;
      AccountKeepsFailures(fired, accounts, switched, Limit(nservers, tries), queries.Keys, nextRef, r, accounts[r]);
      assert accounts[r := accounts[r]] == accounts;
      switched := switched + {r};
    }

    /** The query an answer belongs to: same id and, as `matches` says, same questions. */
    method FindQuery(id: nat, matches: Ref -> bool) returns (found: Option<Ref>)
      requires AtRest()
      ensures found.Some? ==> found.value in queries && queries[found.value].qid == id && matches(found.value)
      ensures found.None? ==> forall x :: x in queries && queries[x].qid == id ==> !matches(x)
    {
      hide CallbacksOk, AttemptsOk, StreamsOk, DeadlinesOk, LinksOk, NothingStolen;
      QidMembers(id);
      var bucket := lists.byQid[id % QID_TABLE_SIZE];
      for i := 0 to |bucket|
        invariant forall k :: 0 <= k < i ==> !(queries[bucket[k]].qid == id && matches(bucket[k]))
      {
        var r := bucket[i];
        assert r in bucket;
        if queries[r].qid == id && matches(r) {
          return Some(r);
        }
      }
      found := None;
    }

    lemma QidMembers(id: nat)
      requires AtRest()
      ensures Shape(lists, nservers)
      ensures forall x :: x in lists.byQid[id % QID_TABLE_SIZE] <==>
        x in queries && queries[x].qid % QID_TABLE_SIZE == id % QID_TABLE_SIZE
      ensures forall k :: 0 <= k < |lists.byQid[id % QID_TABLE_SIZE]| ==> lists.byQid[id % QID_TABLE_SIZE][k] in queries
    {
      forall x
        ensures x in lists.byQid[id % QID_TABLE_SIZE] <==>
          x in queries && queries[x].qid % QID_TABLE_SIZE == id % QID_TABLE_SIZE
      {
        LinkedExactlyOnce(lists, w, queries, nservers, x);
      }
    }

    /** `process_answer`, with EDNS off: drops answers to no live query, moves truncated ones to TCP,
        moves on after a server's refusal, and otherwise ends the query with success, whose callback may
        hand in new requests. Only the query found is affected. */
    method ProcessAnswer(abuf: seq<Byte>, matches: Ref -> bool, whichServer: nat, tcp: bool, requests: seq<seq<Byte>>,
                         memory: (nat, nat) -> bool, now: Time)
      returns (found: Option<Ref>)
      requires AtRest() && whichServer < nservers && now == clock
      modifies this
      ensures AtRest() && clock == old(clock) && old(fired) <= fired
      ensures found.None? ==> queries == old(queries) && fired == old(fired) && nextRef == old(nextRef) && ConnectionsSame(old(Sending()))
      ensures found.None? && |abuf| >= 12 ==> forall x :: x in queries && queries[x].qid == Word16(abuf, 0) ==> !matches(x)
      ensures found.Some? ==>
        && |abuf| >= 12 && found.value in old(queries)
        && old(queries)[found.value].qid == Word16(abuf, 0) && matches(found.value)
        && (forall x :: x in old(queries) && x != found.value ==> x in queries && queries[x] == old(queries)[x])
      // Truncated: bit 1 of byte 2, or more than 512 bytes
      ensures found.Some? && IsCut(abuf, tcp) ==>
        && nextRef == old(nextRef) && queries.Keys <= old(queries).Keys && FailedRightly(found.value, |old(fired)|, old(lacked))
        && (found.value in queries ==> queries[found.value].usingTcp)
        && (old(queries)[found.value].usingTcp ==>
              queries == old(queries) && fired == old(fired) && ConnectionsSame(old(Sending())))
      // Refused: one of three response codes, in the low half of byte 3
      ensures found.Some? && !IsCut(abuf, tcp) && !noCheckResponse && abuf[3] % 16 in {2, 4, 5} ==>
        && nextRef == old(nextRef) && queries.Keys <= old(queries).Keys && FailedRightly(found.value, |old(fired)|, old(lacked))
        && (found.value in queries ==> Skipped(queries[found.value], whichServer, nservers))
        && (if old(queries)[found.value].server == whichServer then
              found.value in queries ==> queries[found.value].tryCount > old(queries)[found.value].tryCount
            else
              && found.value in queries && fired == old(fired) && ConnectionsSame(old(Sending()))
              && queries[found.value] == old(queries)[found.value].(serverInfo := queries[found.value].serverInfo))
      // Accepted
      ensures found.Some? && !IsCut(abuf, tcp) && (noCheckResponse || abuf[3] % 16 !in {2, 4, 5}) ==>
        && found.value !in queries && nextRef == old(nextRef) + |requests| && Submitted(queries, requests, old(nextRef), useVc)
        && (forall x :: x in queries ==> x in old(queries) || x >= old(nextRef))
        && CalledBackLast(old(fired), fired, old(nextRef), found.value, 0)
        && (requests == [] ==>
              && nextRef == old(nextRef) && fired == old(fired) + [(found.value, 0)]
              && (stayOpen || queries != map[] ==>
                    && ConnectionsKept(old(Sending()), found.value)
                    && ((forall s, i :: memory(s, i)) ==> NoneBreaks(old(servers), servers))))
      ensures old(OwnersValid()) ==> OwnersValid()
    {
      hide LinksOk, CallbacksOk, AttemptsOk, StreamsOk, DeadlinesOk, AllOwnersOk, NothingStolen, FailuresOk, ServersStep, AllKnown, HandedOver;
      hide Submitted, CalledBackLast, Kept, NoneBreaks, SkipsKept, TriesUsed, Skipped, Progress, DeadlineSet;
      if |abuf| < 12 {
        return None;
      }
      found := FindQuery(AnswerId(abuf), matches);
      if found == None {
        return;
      }
      var r := found.value;
      var rcode := abuf[3] % 16;
      var tc := abuf[2] / 2 % 2;
      if (tc == 1 || |abuf| > PACKETSZ) && !tcp && !ignoreTruncation {
        if !queries[r].usingTcp {
          SwitchToTcp(r, now);
        }
        return;
      }
      if !noCheckResponse && (rcode == SERVFAIL || rcode == NOTIMP || rcode == REFUSED) {
        AnswerRefused(r, whichServer, now);
        return;
      }
      EndAnswered(r, requests, memory, now);
    }

    /** The server has answered that it cannot help. */
    method AnswerRefused(r: Ref, whichServer: nat, now: Time)
      requires AtRest() && r in queries && whichServer < nservers && now == clock
      modifies this
      ensures AtRest() && clock == old(clock) && old(fired) <= fired && nextRef == old(nextRef)
      ensures queries.Keys <= old(queries).Keys && FailedRightly(r, |old(fired)|, old(lacked))
      ensures forall x :: x in old(queries) && x != r ==> x in queries && queries[x] == old(queries)[x]
      ensures r in queries ==> Skipped(queries[r], whichServer, nservers)
      ensures if old(queries)[r].server == whichServer then
                r in queries ==> queries[r].tryCount > old(queries)[r].tryCount
              else
                && r in queries && fired == old(fired) && ConnectionsSame(old(Sending()))
                && queries[r] == old(queries)[r].(serverInfo := queries[r].serverInfo)
      ensures old(OwnersValid()) ==> OwnersValid()
    {
      hide LinksOk, CallbacksOk, AttemptsOk, StreamsOk, DeadlinesOk, AllOwnersOk, NothingStolen, FailuresOk, ServersStep, AllKnown;
      hide HandedOver, SkipsKept, TriesUsed;
      if queries[r].server == whichServer {
        ghost var s0 := Now();
        SkipAndMoveOn(r, whichServer, now);
        StillNothingStolen(r, s0, Now(), w, nservers, timeoutMs);
      } else {
        SkipServerAtRest(r, whichServer);
      }
    }

    /** `end_query` after an answer was accepted: the callback may hand in new requests, while its query is
        still there but has no queued requests any more. */
    method EndAnswered(r: Ref, requests: seq<seq<Byte>>, memory: (nat, nat) -> bool, now: Time)
      requires AtRest() && r in queries && now == clock
      modifies this
      ensures AtRest() && clock == old(clock) && nextRef == old(nextRef) + |requests| && old(fired) <= fired
      ensures Submitted(queries, requests, old(nextRef), useVc)
      ensures CalledBackLast(old(fired), fired, old(nextRef), r, 0)
      ensures r !in queries && forall x :: x in old(queries) && x != r ==> x in queries && queries[x] == old(queries)[x]
      ensures forall x :: x in queries ==> x in old(queries) || x >= old(nextRef)
      ensures requests == [] ==>
        && nextRef == old(nextRef) && fired == old(fired) + [(r, 0)]
        && (stayOpen || queries != map[] ==>
              && ConnectionsKept(old(Sending()), r)
              && ((forall s, i :: memory(s, i)) ==> NoneBreaks(old(servers), servers)))
      ensures old(OwnersValid()) ==> OwnersValid()
    {
      hide LinksOk, CallbacksOk, AttemptsOk, StreamsOk, DeadlinesOk, AllOwnersOk, FailuresOk, ServersStep, AllKnown, Kept, NoneBreaks, HasRequest, Submitted;
      hide NewOwners, Owners;
      RefsBelow(queries.Keys, fired, nextRef);
      DetachAll(r, true, memory);
      OwnersAbsent(servers, r);
      ghost var servers1 := servers;
      SubmitAll(requests, now);
      StillNoOwner(servers1, servers, old(nextRef), r);
      OwnersAbsent(servers, r);
      AllowFor(r);
      ghost var s0 := Now();
      FreeEnded(r, ARES_SUCCESS);
      StillSubmitted(s0.queries, queries, requests, old(nextRef), useVc);
      EndedNothingStolen(r, s0, Now(), nservers);
      assert fired[..|fired| - 1] == s0.fired;
      AllMembers();
    }

    /** What the channel has to do with its connections. */
    ghost function Sending(): Connections
      reads this
    {
      Connections(servers, written, requested, resets, handed)
    }

    /** Nothing was sent, and no connection changed. */
    ghost predicate ConnectionsSame(before: Connections)
      reads this
    {
      Sending() == before
    }

    /** Every connection stays open with what it has to send, unless it breaks with a request of r. */
    ghost predicate ConnectionsKept(before: Connections, r: Ref)
      reads this
    {
      Kept(before.servers, servers, r) && Sending() == before.(servers := servers)
    }

    /** The answer came over UDP, says that it is cut off or is too long for UDP, and that counts. */
    ghost predicate IsCut(abuf: seq<Byte>, tcp: bool)
      requires |abuf| >= 12
    {
      (abuf[2] % 4 >= 2 || |abuf| > 512) && !tcp && !ignoreTruncation
    }

    /** `write_tcp_data` for one selected server: with something to send over an open connection that is not
        broken, a write of any length, an error, or nothing yet. */
    method WriteTcpData(s: nat, outcome: WriteOutcome, now: Time)
      requires AtRest() && s < nservers && now == clock && |servers| == nservers
      requires outcome.Wrote? ==> outcome.count <= |Pending(servers[s].queue)|
      modifies this
      ensures AtRest() && nextRef == old(nextRef) && clock == old(clock) && old(fired) <= fired
      ensures var server := old(servers)[s]; var tries := server.queue != [] && server.tcpOpen && !server.isBroken;
        && (!tries || outcome == TryAgain ==> unchanged(this))
        && (tries && outcome.Wrote? ==>
              && queries == old(queries) && fired == old(fired) && lists == old(lists) && requested == old(requested)
              && |servers| == |written| == |old(servers)| && resets == old(resets)
              && written == old(written)[s := Extended(old(written)[s], server.queue, outcome.count, queries)]
              && Pending(servers[s].queue) == Pending(server.queue)[outcome.count..]
              && servers == old(servers)[s := server.(queue := servers[s].queue)])
        && (tries && outcome == WriteFailed ==>
              && |resets| == |old(resets)| == nservers && resets[s] > old(resets)[s] && OnlyFailures(fired, |old(fired)|)
              && forall x :: x in old(queries) ==>
                   if old(queries)[x].server != s then x in queries && queries[x] == old(queries)[x]
                   else x in queries ==> queries[x].tryCount > old(queries)[x].tryCount)
      ensures old(OwnersValid()) ==> OwnersValid()
    {
      hide FailuresOk, LinksOk, CallbacksOk, AttemptsOk, DeadlinesOk, AllOwnersOk, NothingStolen, StreamOk, ServersStep, AllKnown, Extended;
      var server := servers[s];
      if server.queue == [] || !server.tcpOpen || server.isBroken {
        return;
      }
      match outcome
      case TryAgain =>
      case WriteFailed => HandleError(s, now);
      case Wrote(count) => WriteBytes(s, count);
    }

    /** The bytes accepted by the socket leave the queue. */
    method WriteBytes(s: nat, count: nat)
      requires StreamsOk(servers, written, requested) && s < |servers| && count <= |Pending(servers[s].queue)|
      modifies this`servers, this`written
      ensures |servers| == |old(servers)| && StreamsOk(servers, written, requested)
      ensures written == old(written)[s := Extended(old(written)[s], old(servers)[s].queue, count, queries)]
      ensures Pending(servers[s].queue) == Pending(old(servers)[s].queue)[count..]
      ensures servers == old(servers)[s := old(servers)[s].(queue := servers[s].queue)]
      ensures old(OwnersValid()) ==> OwnersValid()
    {
      hide StreamOk, Extended;
      var server := servers[s];
      NothingWritten(server, written[s], requested[s], queries);
      var queue := AdvanceTcpSendQueue(server.queue, count, queries);
      WritingKeepsStream(server, queue, written[s], requested[s], count, queries);
      servers := servers[s := server.(queue := queue)];
      written := written[s := Extended(written[s], server.queue, count, queries)];
    }

    /** `process_broken_connections` */
    method ProcessBrokenConnections(now: Time)
      requires AtRest() && now == clock
      modifies this
      ensures AtRest() && nextRef == old(nextRef) && clock == old(clock)
      ensures queries.Keys <= old(queries).Keys && old(fired) <= fired && OnlyFailures(fired, |old(fired)|)
      ensures (forall server :: server in old(servers) ==> !server.isBroken) ==> unchanged(this)
      ensures |resets| == |old(resets)| == |old(servers)|
      ensures forall s :: 0 <= s < |resets| && old(servers)[s].isBroken ==> resets[s] > old(resets)[s]
      ensures old(OwnersValid()) ==> OwnersValid()
    {
      hide FailuresOk, LinksOk, CallbacksOk, AttemptsOk, StreamsOk, DeadlinesOk, AllOwnersOk, NothingStolen, ServersStep, AllKnown;
      ghost var live := queries.Keys;
      StepSame(servers, servers, resets, live);
      for i := 0 to nservers
        invariant (forall server :: server in old(servers) ==> !server.isBroken) ==> unchanged(this)
        invariant AtRest() && nextRef == old(nextRef) && clock == old(clock)
        invariant queries.Keys <= live && old(fired) <= fired && OnlyFailures(fired, |old(fired)|)
        invariant ServersStep(old(servers), servers, old(resets), resets, live)
        invariant forall k :: 0 <= k < i && old(servers)[k].isBroken ==> resets[k] > old(resets)[k]
        invariant old(OwnersValid()) ==> OwnersValid()
      {
        StepResets(old(servers), servers, old(resets), resets, live, i);
        if servers[i].isBroken {
          ghost var s0, n0, live0 := servers, resets, queries.Keys;
          HandleError(i, now);
          StepMore(s0, servers, n0, resets, live0, live);
          StepCounts(s0, servers, n0, resets, live);
          StepTwice(old(servers), s0, servers, old(resets), n0, resets, live);
        }
      }
    }

    /** A request refused before a query exists is called back at once. */
    method Refuse(status: int)
      requires Inv({}) && status !in {11, 12}
      modifies this`fired, this`nextRef
      ensures Inv({}) && nextRef == old(nextRef) + 1 && fired == old(fired) + [(old(nextRef), status)]
    {
      hide LinksOk, AttemptsOk, StreamsOk, DeadlinesOk, CallbacksOk, FailuresOk;
      RefuseKeepsCallbacks(queries.Keys, fired, nextRef, status);
      FiredKeepsFailures(fired, accounts, switched, Limit(nservers, tries), nextRef, status);
      fired, nextRef := fired + [(nextRef, status)], nextRef + 1;
    }

    /** A new query goes into the list of all queries and its qid bucket. */
    method Register(r: Ref, q: Query)
      requires LinksOk(lists, w, queries, nservers, {}) && r !in queries && WellFormedQuery(q, nservers)
      modifies this`queries, this`lists, this`w
      ensures LinksOk(lists, w, queries, nservers, {r}) && queries == old(queries)[r := q]
      ensures Shape(lists, nservers) && Shape(old(lists), nservers) && lists.toServer == old(lists).toServer
      ensures lists.all[1] == old(lists).all[1] && r !in lists.all[1] && r !in lists.toServer[nservers]
    {
      hide LinksOk;
      NotLinked(lists, w, queries, nservers, {}, r);
      RegisterKeepsLinks(lists, w, queries, nservers, {}, r, q);
      assert {} + {r} == {r};
      var bucket := q.qid % QID_TABLE_SIZE;
      lists := lists.(all := Append(lists.all, 0, r), byQid := Append(lists.byQid, bucket, r));
      w := w.(all := w.all[r := 0], qid := w.qid[r := bucket]);
      queries := queries[r := q];
    }

    /** The query struct that `ares_send` fills in, linked into the first two lists. */
    method NewQuery(qbuf: seq<Byte>) returns (r: Ref)
      requires Inv({}) && 12 <= |qbuf| < 65536
      modifies this`queries, this`lists, this`w, this`nextRef, this`accounts, this`switched, this`lastServer
      ensures Inv({r}) && r == old(nextRef) && nextRef == r + 1 && MayEnter(r, 0) && r !in old(queries)
      ensures r in queries && queries == old(queries)[r := queries[r]] && IsRequestFor(queries[r], qbuf, useVc)
      ensures IsInitial(queries[r], old(lastServer), nservers)
      ensures lastServer == if rotate then (old(lastServer) + 1) % nservers else old(lastServer)
      ensures Shape(lists, nservers) && Shape(old(lists), nservers) && lists.toServer == old(lists).toServer
      ensures lists.all[1] == old(lists).all[1] && r !in lists.all[1] && r !in lists.toServer[nservers]
      ensures old(OwnersValid()) ==> OwnersValid()
    {
      hide LinksOk, CallbacksOk, AttemptsOk, DeadlinesOk, StreamsOk, AllOwnersOk, AllKnown, FailuresOk;
      r := nextRef;
      var q := InitialQuery(qbuf, lastServer, nservers, useVc);
      NewKeepsRest(queries, accounts, switched, Limit(nservers, tries), nservers, lastTimeoutProcessed, fired, servers, r, q);
      nextRef := nextRef + 1;
      Register(r, q);
      if rotate {
        lastServer := (lastServer + 1) % nservers;
      }
      accounts, switched := accounts[r := Account(0, 0, q.server)], switched - {r};
    }

    /** `ares_send`: refuses the request, or makes a query of it and sends it for the first time. */
    method AresSend(qbuf: seq<Byte>, now: Time)
      requires Inv({}) && now == clock
      modifies this
      ensures Inv({}) && clock == old(clock) && nextRef == old(nextRef) + 1 && old(fired) <= fired
      ensures queries.Keys <= old(queries).Keys + {old(nextRef)}
      ensures forall x :: x in old(queries) ==> x in queries && queries[x] == old(queries)[x]
      ensures |qbuf| < 12 || |qbuf| >= 65536 ==> fired == old(fired) + [(old(nextRef), 7)]
      ensures 12 <= |qbuf| < 65536 && old(nextRef) in queries ==>
        IsRequestFor(queries[old(nextRef)], qbuf, useVc)
      ensures old(nextRef) in queries ==> 12 <= |qbuf| < 65536 && fired == old(fired) && lacked == old(lacked) && resets == old(resets)
      ensures old(nextRef) !in queries && 12 <= |qbuf| < 65536 ==>
        if |fired| > 0 && fired[|fired| - 1].1 == 15 then lacked == old(lacked) + [old(nextRef)] else TriesUsed(old(nextRef))
      ensures old(nextRef) !in queries ==>
        |fired| == |old(fired)| + 1 && fired[|old(fired)|].0 == old(nextRef) && fired[|old(fired)|].1 in {7, 11, 15}
      ensures HandedOver(old(nextRef), old(handed))
      ensures ServersStep(old(servers), servers, old(resets), resets, {old(nextRef)})
      ensures Shape(lists, nservers) && Shape(old(lists), nservers)
      ensures lists.all[1] == old(lists).all[1] && lists.toServer[nservers] == old(lists).toServer[nservers]
      ensures old(OwnersValid()) ==> OwnersValid()
    {
      hide LinksOk, CallbacksOk, AttemptsOk, StreamsOk, DeadlinesOk, AllOwnersOk, Handled, ServersStep, AllKnown, FailuresOk;
      hide TriesUsed, IsRequestFor;
      StepSame(servers, servers, resets, {nextRef});
      EmptyLists(lists, w, queries, nservers, {});
      AcceptKeepsCallbacks(queries.Keys, fired, nextRef);
      if |qbuf| < 12 || |qbuf| >= 65536 {
        Refuse(ARES_EBADQUERY);
        return;
      }
      var gotMemory: bool := *;
      if !gotMemory {
        lacked := lacked + [nextRef];
        Refuse(ARES_ENOMEM);
        return;
      }
      SendNew(qbuf, now);
    }

    /** The rest of `ares_send`, with memory for the query. */
    method SendNew(qbuf: seq<Byte>, now: Time)
      requires Inv({}) && now == clock && 12 <= |qbuf| < 65536
      modifies this
      ensures Inv({}) && clock == old(clock) && nextRef == old(nextRef) + 1 && old(fired) <= fired
      ensures queries.Keys <= old(queries).Keys + {old(nextRef)}
      ensures forall x :: x in old(queries) ==> x in queries && queries[x] == old(queries)[x]
      ensures old(nextRef) in queries ==>
        IsRequestFor(queries[old(nextRef)], qbuf, useVc) && fired == old(fired) && resets == old(resets)
      ensures old(nextRef) !in queries ==> |fired| == |old(fired)| + 1 && fired[|old(fired)|].1 in {11, 15}
      ensures FailedRightly(old(nextRef), |old(fired)|, old(lacked)) && HandedOver(old(nextRef), old(handed))
      ensures ServersStep(old(servers), servers, old(resets), resets, {old(nextRef)})
      ensures Shape(lists, nservers) && Shape(old(lists), nservers)
      ensures lists.all[1] == old(lists).all[1] && lists.toServer[nservers] == old(lists).toServer[nservers]
      ensures old(OwnersValid()) ==> OwnersValid()
    {
      hide LinksOk, CallbacksOk, AttemptsOk, StreamsOk, DeadlinesOk, AllOwnersOk, Handled, ServersStep, AllKnown, FailuresOk;
      hide AccountsStep, TriesUsed, Skipped, IsRequestFor, FailedRightly, HandedOver;
      EmptyLists(lists, w, queries, nservers, {});
      var r := NewQuery(qbuf);
      ghost var s1 := Now();
      SendQuery(r, now, false);
      NewcomerSent(r, s1, Now(), w, nservers, timeoutMs);
      if r in queries {
        SameRequest(s1.queries[r], queries[r], qbuf, useVc);
      }
    }

    /** The path of `ares_send` on which there is memory and the connection opens, for a query over TCP. */
    method SubmitOverTcp(qbuf: seq<Byte>, now: Time) returns (r: Ref)
      requires Inv({}) && now == clock && useVc && 12 <= |qbuf| < 65536
      modifies this
      ensures Inv({}) && r == old(nextRef) && nextRef == r + 1 && r in queries && clock == old(clock) && r in Owners(servers)
      ensures Owners(old(servers)) <= Owners(servers) && queries.Keys == old(queries).Keys + {r}
      ensures Shape(lists, nservers) && Shape(old(lists), nservers)
      ensures lists.all[1] == old(lists).all[1] && lists.toServer[nservers] == old(lists).toServer[nservers]
      ensures old(OwnersValid()) ==> OwnersValid()
    {
      hide LinksOk, CallbacksOk, AttemptsOk, StreamsOk, DeadlinesOk, AllOwnersOk, Handled, AllKnown, Owners;
      EmptyLists(lists, w, queries, nservers, {});
      r := NewQuery(qbuf);
      ghost var s0 := Now();
      FirstSendOverTcp(r, now);
      NewcomerSent(r, s0, Now(), w, nservers, timeoutMs);
    }

    /** The path of `ares__send_query` on which there is memory and the connection opens. */
    method FirstSendOverTcp(r: Ref, now: Time)
      requires Inv({r}) && now == clock && MayEnter(r, 0) && queries[r].tryCount == 0
      modifies this
      ensures Inv({}) && Handled(r, old(Now()), Now(), timeoutMs) && r in queries && HandedOver(r, old(handed))
      ensures r in Owners(servers) && Owners(old(servers)) <= Owners(servers)
      ensures old(OwnersValid()) ==> OwnersValid()
    {
      hide LinksOk, CallbacksOk, AttemptsOk, StreamsOk, DeadlinesOk, AllOwnersOk, Handled, ServersStep, AllKnown, Owners, HandedOver, Touched;
      ghost var s0 := Now();
      Enter(r);
      OpenAndEnqueue(r);
      ghost var s1 := Now();
      Schedule(r, now, old(handed));
      HandledAfterTouched(r, s0, s1, Now(), timeoutMs);
    }

    method OpenAndEnqueue(r: Ref)
      requires Inv({r}) && r in queries
      modifies this`servers, this`tcpGeneration, this`requested, this`queries, this`handed
      ensures Inv({r}) && Touched(r, old(Now()), Now()) && HandedOver(r, old(handed))
      ensures var q := old(queries)[r]; queries == old(queries)[r := q.(serverInfo := queries[r].serverInfo)]
      ensures r in Owners(servers) && Owners(old(servers)) <= Owners(servers)
      ensures old(OwnersValid()) ==> OwnersValid()
    {
      hide LinksOk, CallbacksOk, AttemptsOk, StreamsOk, DeadlinesOk, AllOwnersOk, ServersStep, AllKnown, Owners, WithRequest;
      QueryWellFormed(lists, w, queries, nservers, {r}, r);
      var s := queries[r].server;
      if !servers[s].tcpOpen {
        TcpOpened(s);
        OwnersOfSameQueues(old(servers), servers, queries);
      }
      OwnersQueued(old(servers), servers, s, SendRequest(queries[r].tcpbuf, Some(r), false), r);
      Enqueue(r);
      handed := handed + [(r, queries[r].server)];
    }

    /** The head copy of `ares_cancel`. */
    method StealAll()
      requires AtRest()
      modifies this`lists, this`w
      ensures Inv({}) && Shape(lists, nservers) && lists.toServer[nservers] == []
      ensures forall x :: x in lists.all[1] <==> x in queries
    {
      hide LinksOk, CallbacksOk, AttemptsOk, StreamsOk, DeadlinesOk;
      forall x
        ensures x in lists.all[0] <==> x in queries
      {
        LinkedExactlyOnce(lists, w, queries, nservers, x);
      }
      StealAllKeepsLinks(lists, w, queries, nservers);
      lists, w := lists.(all := Swap(lists.all, 0, 1)), StealAllFrom(w);
    }

    /** Callback and end of the first query of one of the two lists of all queries, without a look at
        the send queues. */
    method EndFirst(list: nat, status: int)
      requires Inv({}) && Shape(lists, nservers) && list < 2 && lists.all[list] != [] && lists.toServer[nservers] == []
      requires status !in {11, 12}
      modifies this`fired, this`lists, this`queries, this`w
      ensures Inv({}) && Shape(lists, nservers) && lists.toServer[nservers] == []
      ensures var r := old(lists).all[list][0];
        && r in old(queries) && lists.all[list] == old(lists).all[list][1..] && lists.all[1 - list] == old(lists).all[1 - list]
        && queries == old(queries) - {r} && fired == old(fired) + [(r, status)]
        && (r !in Owners(servers) && old(OwnersValid()) ==> OwnersValid())
    {
      hide LinksOk, CallbacksOk, AttemptOk, StreamsOk, Unlink, AllOwnersOk, AllKnown, Owners, FailuresOk;
      var r := lists.all[list][0];
      FiredKeepsFailures(fired, accounts, switched, Limit(nservers, tries), r, status);
      FirstEnded(lists, w, queries, nservers, list);
      AllowFor(r);
      if r !in Owners(servers) && AllOwnersOk(servers, queries) {
        OwnersAbsent(servers, r);
        OwnersSurviveFree(servers, queries, r);
      }
      CallBackAndFree(r, status);
      EmptyLists(lists, w, queries, nservers, {});
    }

    /** What a callback hands in while `ares_cancel` runs: none of it is cancelled. */
    method SubmitAll(requests: seq<seq<Byte>>, now: Time)
      requires Inv({}) && now == clock
      modifies this
      ensures Inv({}) && clock == old(clock) && nextRef >= old(nextRef) && old(fired) <= fired
      ensures forall x :: x in queries ==> x in old(queries) || x >= old(nextRef)
      ensures forall x :: x in old(queries) ==> x in queries && queries[x] == old(queries)[x]
      ensures OnlyNewcomers(fired, |old(fired)|, old(nextRef))
      ensures NewOwners(old(servers), servers, old(nextRef))
      ensures Shape(lists, nservers) && Shape(old(lists), nservers)
      ensures lists.all[1] == old(lists).all[1] && lists.toServer[nservers] == old(lists).toServer[nservers]
      ensures old(OwnersValid()) ==> OwnersValid()
      ensures nextRef == old(nextRef) + |requests| && Submitted(queries, requests, old(nextRef), useVc)
      ensures fired == old(fired) ==> resets == old(resets)
      ensures requests == [] ==> unchanged(this)
    {
      hide LinksOk, CallbacksOk, AttemptsOk, StreamsOk, DeadlinesOk, AllOwnersOk, ServersStep, AllKnown, NewOwners, HandedOver, FailuresOk;
      hide IsRequestFor, FailedRightly, Submitted, TriesUsed;
      EmptyLists(lists, w, queries, nservers, {});
      SameOwners(servers, nextRef);
      NoneSubmitted(queries, nextRef, useVc);
      for i := 0 to |requests|
        invariant Inv({}) && clock == old(clock) && nextRef >= old(nextRef) && old(fired) <= fired
        invariant forall x :: x in queries ==> x in old(queries) || x >= old(nextRef)
        invariant forall x :: x in old(queries) ==> x in queries && queries[x] == old(queries)[x]
        invariant OnlyNewcomers(fired, |old(fired)|, old(nextRef))
        invariant NewOwners(old(servers), servers, old(nextRef))
        invariant Shape(lists, nservers)
        invariant lists.all[1] == old(lists).all[1] && lists.toServer[nservers] == old(lists).toServer[nservers]
        invariant old(OwnersValid()) ==> OwnersValid()
        invariant nextRef == old(nextRef) + i && Submitted(queries, requests[..i], old(nextRef), useVc)
        invariant fired == old(fired) ==> resets == old(resets)
        invariant requests == [] ==> unchanged(this)
      {
        ghost var servers0, resets0, next0 := servers, resets, nextRef;
        ghost var q0 := queries;
        AresSend(requests[i], now);
        OneMoreSubmitted(q0, queries, requests, old(nextRef), useVc, i);
        OneMoreOwner(old(servers), servers0, servers, resets0, resets, old(nextRef), next0);
      }
      assert requests[..|requests|] == requests;
    }

    /** One round of the loop of `ares_cancel`: the callback may hand in new requests, while its query is
        still there. */
    method CancelOne(requests: seq<seq<Byte>>, now: Time) returns (r: Ref)
      requires Inv({}) && Shape(lists, nservers) && lists.all[1] != [] && lists.toServer[nservers] == [] && now == clock
      modifies this
      ensures Inv({}) && Shape(lists, nservers) && lists.toServer[nservers] == []
      ensures r == old(lists).all[1][0] && lists.all[1] == old(lists).all[1][1..] && r !in lists.all[1]
      ensures clock == old(clock) && nextRef == old(nextRef) + |requests|
      ensures Submitted(queries, requests, old(nextRef), useVc)
      ensures CalledBackLast(old(fired), fired, old(nextRef), r, 24)
      ensures r in old(queries) && r !in queries
      ensures forall x :: x in old(queries) && x != r ==> x in queries && queries[x] == old(queries)[x]
      ensures forall x :: x in queries ==> x in old(queries) || x >= old(nextRef)
      ensures NewOwners(old(servers), servers, old(nextRef))
      ensures old(OwnersValid()) && r !in Owners(old(servers)) ==> OwnersValid()
      ensures |fired| == |old(fired)| + 1 ==> resets == old(resets)
      ensures requests == [] ==> servers == old(servers) && written == old(written) && queries == old(queries) - {r}
    {
      hide LinksOk, AttemptsOk, StreamsOk, DeadlinesOk, CallbacksOk, AllOwnersOk, AllKnown, NewOwners, Owners, FailuresOk, Submitted;
      r := lists.all[1][0];
      FirstEnded(lists, w, queries, nservers, 1);
      RefsBelow(queries.Keys, fired, nextRef);
      StolenDistinct(lists, w, queries, nservers);
      SubmitAll(requests, now);
      StillNoOwner(old(servers), servers, old(nextRef), r);
      ghost var fired1, q1 := fired, queries;
      EndFirst(1, ARES_ECANCELLED);
      StillSubmitted(q1, queries, requests, old(nextRef), useVc);
      assert fired[..|fired| - 1] == fired1;
    }

    /** `ares_cancel`: cancels exactly the queries present on entry, whatever the callbacks hand in.
        It leaves the send queues alone. So every queued request still belongs to a live query if none
        belonged to a query before; and with no new requests, exactly then or if all sockets were
        closed. */
    method AresCancel(submissions: Ref -> seq<seq<Byte>>, now: Time)
      requires AtRest() && now == clock
      modifies this
      ensures AtRest() && clock == old(clock) && nextRef >= old(nextRef) && old(fired) <= fired
      ensures forall x :: x in old(queries) ==> x !in queries && CalledBack(x, 24, |old(fired)|, fired)
      ensures forall i :: |old(fired)| <= i < |fired| && fired[i].1 == 24 ==> fired[i].0 in old(queries)
      ensures forall x :: x in queries ==> x >= old(nextRef)
      ensures old(OwnersValid()) && NoOwners(old(servers)) ==> OwnersValid()
      ensures !stayOpen && queries == map[] ==> forall s :: 0 <= s < |servers| ==> !servers[s].tcpOpen && !servers[s].udpOpen
      ensures (stayOpen || queries != map[]) && OnlyCancelled(fired, |old(fired)|) ==> resets == old(resets)
      ensures (forall x :: submissions(x) == []) && old(OwnersValid()) ==>
        queries == map[] && (OwnersValid() <==> !stayOpen || NoOwners(old(servers)))
    {
      hide LinksOk, CallbacksOk, AttemptsOk, StreamsOk, DeadlinesOk, AllOwnersOk, NoOwners, CalledBack, AllKnown, ServersStep;
      if AllOwnersOk(servers, queries) {
        OwnersWithoutQueries(servers, queries);
      }
      CancelList(submissions, now);
      EmptyLists(lists, w, queries, nservers, {});
      AllMembers();
      if !stayOpen && lists.all[0] == [] {
        CloseAllSockets();
      }
    }

    /** The list swap and the loop of `ares_cancel`. */
    method CancelList(submissions: Ref -> seq<seq<Byte>>, now: Time)
      requires AtRest() && now == clock
      modifies this
      ensures AtRest() && clock == old(clock) && nextRef >= old(nextRef) && old(fired) <= fired
      ensures forall x :: x in old(queries) ==> x !in queries && CalledBack(x, 24, |old(fired)|, fired)
      ensures forall i :: |old(fired)| <= i < |fired| && fired[i].1 == 24 ==> fired[i].0 in old(queries)
      ensures forall x :: x in queries ==> x >= old(nextRef)
      ensures old(OwnersValid()) && NoOwners(old(servers)) ==> OwnersValid()
      ensures OnlyCancelled(fired, |old(fired)|) ==> resets == old(resets)
      ensures (forall x :: submissions(x) == []) ==> queries == map[] && servers == old(servers) && written == old(written)
    {
      hide LinksOk, CallbacksOk, AttemptsOk, StreamsOk, DeadlinesOk, CancelState, AllOwnersOk, AllKnown, NoOwners, NewOwners, Owners;
      ghost var before, servers0 := queries, servers;
      StealAll();
      StartCancelling(before, lists.all[1], fired, nextRef);
      SameOwners(servers, nextRef);
      while lists.all[1] != []
        invariant Inv({}) && Shape(lists, nservers) && lists.toServer[nservers] == [] && clock == old(clock)
        invariant CancelState(before, queries, lists.all[1], old(fired), fired, old(nextRef), nextRef)
        invariant NewOwners(servers0, servers, old(nextRef))
        invariant old(OwnersValid()) && NoOwners(servers0) ==> OwnersValid()
        invariant old(fired) <= fired
        invariant OnlyCancelled(fired, |old(fired)|) ==> resets == old(resets)
        invariant (forall x :: submissions(x) == []) ==>
          servers == servers0 && written == old(written) && queries.Keys <= before.Keys
        decreases |lists.all[1]|
      {
        ghost var q0, list0, fired0, next0, servers1 := queries, lists.all[1], fired, nextRef, servers;
        var r := CancelOne(submissions(lists.all[1][0]), now);
        NotAmongNew(servers0, servers1, servers, before, q0, list0, old(fired), fired0, old(nextRef), next0, r);
        OthersFailed(old(fired), fired0, fired, next0, r);
        KeepCancelling(before, q0, queries, list0, old(fired), fired0, fired, old(nextRef), next0, nextRef, r);
      }
      AllCancelled(before, queries, old(fired), fired, old(nextRef), nextRef);
    }

    /** `ares_destroy` with callbacks that hand in nothing new: every query is called back, all
        lists end up empty, as its assertions demand, and every connection is closed. */
    method AresDestroy()
      requires AtRest()
      modifies this
      ensures AtRest() && queries == map[] && nextRef == old(nextRef) && old(fired) <= fired
      ensures forall x :: x in old(queries) ==> CalledBack(x, 16, |old(fired)|, fired)
      ensures |fired| == nextRef
      ensures (forall b :: 0 <= b < 2 ==> lists.all[b] == []) && (forall b :: 0 <= b < 2048 ==> lists.byQid[b] == [])
      ensures forall b :: 0 <= b < 1024 ==> lists.byTimeout[b] == []
      ensures forall s :: 0 <= s <= nservers ==> lists.toServer[s] == []
      ensures forall s :: 0 <= s < |servers| ==> servers[s].queue == [] && !servers[s].tcpOpen && !servers[s].udpOpen
    {
      hide LinksOk, CallbacksOk, AttemptsOk, StreamsOk, DeadlinesOk, CalledBack;
      DestroyList();
      EmptyLists(lists, w, queries, nservers, {});
      CallbacksConserved(queries.Keys, fired, nextRef);
      CloseAllSockets();
    }

    /** The loop of `ares_destroy`. */
    method DestroyList()
      requires AtRest()
      modifies this`fired, this`lists, this`queries, this`w
      ensures AtRest() && queries == map[] && old(fired) <= fired
      ensures forall x :: x in old(queries) ==> CalledBack(x, 16, |old(fired)|, fired)
    {
      hide LinksOk, CallbacksOk, AttemptsOk, StreamsOk, DeadlinesOk, CalledBack;
      ghost var before := queries;
      AllMembers();
      while lists.all[0] != []
        invariant Inv({}) && Shape(lists, nservers) && lists.all[1] == [] && lists.toServer[nservers] == []
        invariant old(fired) <= fired && queries.Keys <= before.Keys
        invariant forall x :: x in queries <==> x in lists.all[0]
        invariant forall x :: x in before && x !in queries ==> CalledBack(x, 16, |old(fired)|, fired)
        decreases |lists.all[0]|
      {
        ghost var fired0, list0, r := fired, lists.all[0], lists.all[0][0];
        FirstDistinct(lists, w, queries, nservers);
        EndFirst(0, ARES_EDESTRUCTION);
        assert list0 == [r] + list0[1..];
        StillCalledBack(16, |old(fired)|, fired0, fired);
        NowCalledBack(r, 16, |old(fired)|, fired, |fired0|);
      }
      assert queries == map[];
    }

    lemma AllMembers()
      requires AtRest()
      ensures Shape(lists, nservers) && forall x :: x in lists.all[0] <==> x in queries
    {
      forall x
        ensures x in lists.all[0] <==> x in queries
      {
        LinkedExactlyOnce(lists, w, queries, nservers, x);
      }
    }

    /** The effect of an event, as far as it can be told without its inputs from outside. */
    ghost predicate Happened(e: Event, before: Snapshot, servers0: seq<Server>, resets0: seq<nat>)
      reads this
      requires |servers| == |resets| == |resets0| == |servers0|
    {
      match e
      case Submit(_, qbuf) =>
        nextRef == before.nextRef + 1 && (before.nextRef in queries ==> IsRequestFor(queries[before.nextRef], qbuf, useVc))
      case Cancel(_, _) => forall x :: x in before.queries ==> x !in queries
      case Timeouts(now) =>
        lastTimeoutProcessed == now.sec && (timeoutMs >= 2 ==> forall x :: x in queries ==> Micros(queries[x].timeout) > Micros(now))
      case Broken(_) => forall s :: 0 <= s < |resets| && servers0[s].isBroken ==> resets[s] > resets0[s]
      case ReadError(_, s) => s < |resets| ==> resets[s] > resets0[s]
      case Writable(_, s, outcome) =>
        s < |resets| && servers0[s].queue != [] && servers0[s].tcpOpen && !servers0[s].isBroken ==>
          && (outcome == WriteFailed ==> resets[s] > resets0[s])
          && (outcome.Wrote? && outcome.count <= |Pending(servers0[s].queue)| ==>
                Pending(servers[s].queue) == Pending(servers0[s].queue)[outcome.count..])
      case Answer(_, abuf, matches, s, tcp, _, _) =>
        s < |resets| && |abuf| >= 12 && !IsCut(abuf, tcp) && (noCheckResponse || abuf[3] % 16 !in {2, 4, 5}) ==>
          (exists x :: x in before.queries && before.queries[x].qid == Word16(abuf, 0) && matches(x)) ==>
            exists x :: x in before.queries && x !in queries && matches(x)
    }

    /** What one event does to the channel. Events that name no server or turn the clock back are
        skipped. */
    method Handle(e: Event)
      requires AtRest()
      modifies this
      ensures AtRest() && old(fired) <= fired
      ensures |servers| == nservers == |resets| == |old(resets)| == |old(servers)|
      ensures e.now.usec < 1_000_000 && Micros(e.now) >= Micros(old(clock)) ==> Happened(e, old(Now()), old(servers), old(resets))
      ensures clock == if e.now.usec >= 1_000_000 || Micros(e.now) < Micros(old(clock)) then old(clock) else e.now
      ensures old(OwnersValid()) && !e.Cancel? ==> OwnersValid()
    {
      hide LinksOk, CallbacksOk, AttemptsOk, StreamsOk, DeadlinesOk, AllOwnersOk, Handled;
      if e.now.usec >= 1_000_000 || Micros(e.now) < Micros(clock) {
        return;
      }
      ReadClock(e.now);
      match e
      case Submit(_, qbuf) => AresSend(qbuf, e.now);
      case Cancel(_, submissions) => AresCancel(submissions, e.now);
      case Timeouts(_) => ProcessTimeouts(e.now);
      case Broken(_) => ProcessBrokenConnections(e.now);
      case Writable(_, s, outcome) =>
        if s < nservers && (outcome.Wrote? ==> outcome.count <= |Pending(servers[s].queue)|) {
          WriteTcpData(s, outcome, e.now);
        }
      case ReadError(_, s) =>
        if s < nservers {
          HandleError(s, e.now);
        }
      case Answer(_, abuf, matches, s, tcp, requests, memory) =>
        if s < nservers {
          var found := ProcessAnswer(abuf, matches, s, tcp, requests, memory, e.now);
        }
    }

    /** Safety over whole runs: after any events, with any outcome of sockets, memory and backoff,
        the links are consistent, every request handed in is live or has been called back exactly
        once, no query, live or ended, has been sent too often, and what each unbroken connection has
        written, where that is known, and queued is what was requested of it; and without a
        cancellation, it is known, and every queued request still belongs to a live query. */
    method Run(events: seq<Event>)
      requires AtRest() && OwnersValid()
      modifies this
      ensures AtRest()
      ensures events != [] && InOrder(old(clock), events) ==> clock == events[|events| - 1].now
      ensures nextRef == |queries| + |fired|
      ensures forall r :: r in accounts ==> accounts[r].entered <= if nservers * tries == 0 then 2 else nservers * tries + 1
      ensures forall i :: 0 <= i < |fired| && fired[i].1 in {11, 12} ==> TriesUsed(fired[i].0)
      ensures forall r :: r in queries ==>
        r in accounts && nservers >= 1 && queries[r].server == Rotate(accounts[r].first, queries[r].tryCount, nservers)
      ensures forall s :: 0 <= s < |servers| && !servers[s].isBroken ==>
        |servers| == |written| == |requested| &&
        TcpFraming.AllFit(requested[s]) &&
        (written[s].Some? ==>
           && written[s].value + Pending(servers[s].queue) == TcpFraming.Stream(requested[s])
           && TcpFraming.Parse(written[s].value + Pending(servers[s].queue)) == TcpFraming.Parsed(requested[s], []))
      ensures (forall e :: e in events ==> !e.Cancel?) ==> OwnersValid() && forall s :: 0 <= s < |written| ==> written[s].Some?
    {
      hide LinksOk, CallbacksOk, AllOwnersOk;
      for i := 0 to |events|
        invariant AtRest()
        invariant InOrder(old(clock), events) ==> clock == if i == 0 then old(clock) else events[i - 1].now
        invariant (forall e :: e in events[..i] ==> !e.Cancel?) ==> OwnersValid()
      {
        assert events[..i + 1] == events[..i] + [events[i]];
        Handle(events[i]);
      }
      assert events[..|events|] == events;
      forall s | 0 <= s < |requested|
        ensures TcpFraming.AllFit(requested[s])
        ensures TcpFraming.Parse(TcpFraming.Stream(requested[s])) == TcpFraming.Parsed(requested[s], [])
      {
        TcpFraming.StreamParses(requested[s]);
      }
      CallbacksConserved(queries.Keys, fired, nextRef);
      assert |queries.Keys| == |queries|;
    }

    /** Timing out r lowers the budget of the live queries. */
    lemma BudgetFalls(l0: Lists, q0: map<Ref, Query>, r: Ref)
      requires Inv({}) && Shape(l0, nservers) && Shape(lists, nservers)
      requires r in l0.all[0] && r in q0 && queries.Keys <= q0.Keys
      requires forall x :: x in q0 && x != r ==> x in queries && queries[x] == q0[x]
      requires r in queries ==> queries[r].tryCount > q0[r].tryCount
      requires lists.all == if r in queries then l0.all else Remove(l0.all, r)
      ensures TotalBudget() < Budget(l0.all[0], q0, Limit(nservers, tries))
    {
      if r in queries {
        BudgetTried(l0.all[0], q0, queries, Limit(nservers, tries), r);
      } else {
        BudgetEnded(l0.all[0], q0, queries, Limit(nservers, tries), r);
      }
    }

    /** The members of a timeout bucket. */
    lemma BucketMembers(b: nat)
      requires AtRest() && b < TIMEOUT_TABLE_SIZE
      ensures Shape(lists, nservers)
      ensures forall x :: x in lists.byTimeout[b] <==> x in queries && queries[x].timeout.sec % TIMEOUT_TABLE_SIZE == b
      ensures forall x :: x in queries ==> Valid(queries[x].timeout) && queries[x].timeout.sec > 0
      ensures NoDuplicates(lists.byTimeout[b]) && NoDuplicates(lists.all[0]) && forall x :: x in lists.all[0] <==> x in queries
    {
      forall x
        ensures x in lists.byTimeout[b] <==> x in queries && queries[x].timeout.sec % TIMEOUT_TABLE_SIZE == b
        ensures x in lists.all[0] <==> x in queries
        ensures NoDuplicates(lists.byTimeout[b]) && NoDuplicates(lists.all[0])
      {
        LinkedExactlyOnce(lists, w, queries, nservers, x);
      }
    }
  }

  /** On a channel that stays open, a query that was queued for TCP and is cancelled leaves its request
      behind, without the bytes it points to. */
  method CancelLeavesRequest(nservers: nat, tries: nat, timeoutMs: nat, qbuf: seq<Byte>, now: Time) returns (channel: Channel)
    requires nservers >= 1 && Valid(now) && now.sec > 0 && 12 <= |qbuf| < 65536
    ensures channel.AtRest() && channel.queries == map[] && !channel.OwnersValid()
  {
    hide LinksOk, CallbacksOk, AttemptsOk, StreamsOk, DeadlinesOk, AllOwnersOk, AllKnown, Owners, NoOwners;
    channel := new Channel(nservers, tries, timeoutMs, false, true, true, false, false, now);
    var r := channel.SubmitOverTcp(qbuf, now);
    NoOwnersEmpty(channel.servers);
    channel.AresCancel(_ => [], now);
  }

  /** The same on any channel, step by step, when the callback of the cancelled query hands in a new one:
      the sockets are not closed then. */
  method ResubmissionLeavesRequest(nservers: nat, tries: nat, timeoutMs: nat, stayOpen: bool, qbuf: seq<Byte>,
                                   again: seq<Byte>, now: Time) returns (channel: Channel)
    requires nservers >= 1 && Valid(now) && now.sec > 0 && 12 <= |qbuf| < 65536 && 12 <= |again| < 65536
    ensures channel.AtRest() && channel.stayOpen == stayOpen && channel.queries.Keys == {1} && !channel.OwnersValid()
  {
    hide LinksOk, CallbacksOk, AttemptsOk, StreamsOk, DeadlinesOk, AllOwnersOk, AllKnown, Owners, NoOwners;
    channel := new Channel(nservers, tries, timeoutMs, false, stayOpen, true, false, false, now);
    var r := channel.SubmitOverTcp(qbuf, now);
    channel.StealAll();
    StolenDistinct(channel.lists, channel.w, channel.queries, nservers);
    SingleMember(channel.lists.all[1], r);
    var r2 := channel.SubmitOverTcp(again, now);
    channel.EndFirst(1, ARES_ECANCELLED);
    OwnersLive(channel.servers, channel.queries);
  }
}
