/** The TCP output queue of a server: partial writes (`advance_tcp_send_queue`) and the end of a
    query that still has requests queued (`end_query`). */
module SendQueues {
  import opened Tables
  import opened Common
  import TcpFraming
  import opened EngineState

  /** The bytes still to be sent, in order. */
  function Pending(queue: seq<SendRequest>): seq<Byte> {
    if queue == [] then [] else queue[0].data + Pending(queue[1..])
  }

  lemma {:induction false} PendingAppend(queue: seq<SendRequest>, req: SendRequest)
    ensures Pending(queue + [req]) == Pending(queue) + req.data
  {
    if queue == [] {
      assert queue + [req] == [req] && [req][1..] == [];
    } else {
      assert (queue + [req])[1..] == queue[1..] + [req];
      PendingAppend(queue[1..], req);
    }
  }

  ghost predicate IsSuffix(s: seq<Byte>, t: seq<Byte>) {
    |s| <= |t| && t[|t| - |s|..] == s
  }

  /** Only a request without an owner has its own copy. */
  ghost predicate NoOwnedCopies(queue: seq<SendRequest>) {
    forall i :: 0 <= i < |queue| && queue[i].owner.Some? ==> !queue[i].dataStorage
  }

  /** A request points into the buffer of a live query, or has its own copy, or is empty. */
  ghost predicate RequestOk(req: SendRequest, queries: map<Ref, Query>) {
    match req.owner
    case Some(r) => r in queries && IsSuffix(req.data, queries[r].tcpbuf)
    case None => req.dataStorage || req.data == []
  }

  ghost predicate OwnersOk(queue: seq<SendRequest>, queries: map<Ref, Query>) {
    forall i :: 0 <= i < |queue| ==> RequestOk(queue[i], queries)
  }

  lemma PendingFirst(queue: seq<SendRequest>)
    ensures if queue == [] then Pending(queue) == [] else Pending(queue) == queue[0].data + Pending(queue[1..])
  {
  }

  lemma SplitData<T>(data: seq<T>, n: nat, rest: seq<T>)
    requires n <= |data|
    ensures data + rest == data[..n] + (data[n..] + rest)
  {
  }

  lemma RequestShortened(req: SendRequest, queries: map<Ref, Query>, n: nat)
    requires n <= |req.data|
    ensures RequestOk(req, queries) ==> RequestOk(req.(data := req.data[n..]), queries)
  {
    if req.owner.Some? && RequestOk(req, queries) {
      SuffixOfSuffix(req.data, queries[req.owner.value].tcpbuf, n);
    }
  }

  /** Consumes bytes that were written from the head of the queue. */
  method AdvanceTcpSendQueue(queueIn: seq<SendRequest>, numBytesIn: nat, ghost queries: map<Ref, Query>)
    returns (queue: seq<SendRequest>)
    requires numBytesIn <= |Pending(queueIn)| && NoOwnedCopies(queueIn)
    ensures Pending(queueIn) == Pending(queueIn)[..numBytesIn] + Pending(queue)
    ensures NoOwnedCopies(queue)
    ensures OwnersOk(queueIn, queries) ==> OwnersOk(queue, queries)
  {
    hide Pending, RequestOk;
    queue := queueIn;
    var numBytes := numBytesIn;
    ghost var all := Pending(queueIn);
    while numBytes > 0
      invariant 0 <= numBytes <= numBytesIn && numBytes <= |Pending(queue)|
      invariant |all| - |Pending(queue)| == numBytesIn - numBytes
      invariant all[numBytesIn - numBytes..] == Pending(queue)
      invariant NoOwnedCopies(queue) && (OwnersOk(queueIn, queries) ==> OwnersOk(queue, queries))
      decreases |queue|, numBytes
    {
      PendingFirst(queue);
      var sendreq := queue[0];
      ghost var rest, queueTail := Pending(queue[1..]), queue[1..];
      if numBytes >= |sendreq.data| {
        DropPrefix(all, sendreq.data, rest);
        numBytes := numBytes - |sendreq.data|;
        queue := queue[1..];
        PendingFirst(queue);
        if queue == [] {
          break;
        }
      } else {
        DropPrefix(all, sendreq.data[..numBytes], sendreq.data[numBytes..] + rest);
        SplitData(sendreq.data, numBytes, rest);
        RequestShortened(sendreq, queries, numBytes);
        queue := [sendreq.(data := sendreq.data[numBytes..])] + queue[1..];
        PendingFirst(queue);
        assert queue[1..] == queueTail;
        numBytes := 0;
      }
    }
    assert all == all[..numBytesIn] + all[numBytesIn..];
  }

  /** What is left of a sequence after two of its parts. */
  lemma DropPrefix<T>(all: seq<T>, a: seq<T>, b: seq<T>)
    ensures forall k: nat :: k + |a| + |b| == |all| && all[k..] == a + b ==> all[k + |a|..] == b
  {
    forall k: nat | k + |a| + |b| == |all| && all[k..] == a + b
      ensures all[k + |a|..] == b
    {
      assert all[k + |a|..] == all[k..][|a|..];
    }
  }

  lemma SuffixOfSuffix(s: seq<Byte>, t: seq<Byte>, n: nat)
    requires IsSuffix(s, t) && n <= |s|
    ensures IsSuffix(s[n..], t)
  {
    assert t[|t| - |s| + n..] == t[|t| - |s|..][n..];
  }

  /** Whether some request of r gets no copy. */
  ghost predicate Loses(queue: seq<SendRequest>, r: Ref, success: bool, memory: nat -> bool, n: nat)
    requires n <= |queue|
  {
    exists i: nat :: i < n && queue[i].owner == Some(r) && !(success && memory(i))
  }

  /** A request of r with a copy of its unsent bytes, or emptied; any other request as it is. */
  ghost function Detached(req: SendRequest, r: Ref, copied: bool): SendRequest {
    if req.owner != Some(r) then req else if copied then SendRequest(req.data, None, true) else SendRequest([], None, false)
  }

  /** The requests of an ended query lose their owner. After a success each gets a copy of its unsent
      bytes, if there is memory for it; otherwise the request is emptied and the server is broken. */
  method DetachRequests(queueIn: seq<SendRequest>, r: Ref, success: bool, memory: nat -> bool, isBrokenIn: bool)
    returns (queue: seq<SendRequest>, isBroken: bool)
    requires NoOwnedCopies(queueIn)
    ensures NoOwnedCopies(queue) && |queue| == |queueIn|
    ensures forall i: nat :: i < |queue| ==> queue[i] == Detached(queueIn[i], r, success && memory(i))
    ensures isBroken <==> isBrokenIn || Loses(queueIn, r, success, memory, |queueIn|)
    ensures !isBroken ==> Pending(queue) == Pending(queueIn)
  {
    queue, isBroken := [], isBrokenIn;
    for i := 0 to |queueIn|
      invariant |queue| == i && NoOwnedCopies(queue)
      invariant forall k: nat :: k < i ==> queue[k] == Detached(queueIn[k], r, success && memory(k))
      invariant isBroken <==> isBrokenIn || Loses(queueIn, r, success, memory, i)
      invariant !isBroken ==> Pending(queue) == Pending(queueIn[..i])
    {
      var sendreq := queueIn[i];
      LosesNext(queueIn, r, success, memory, i);
      if sendreq.owner == Some(r) {
        assert !sendreq.dataStorage;
        sendreq := sendreq.(owner := None);
        if success {
          if memory(i) {
            sendreq := sendreq.(dataStorage := true);
          }
        }
        if !success || !sendreq.dataStorage {
          isBroken := true;
          sendreq := sendreq.(data := []);
        }
      }
      assert queueIn[..i + 1] == queueIn[..i] + [queueIn[i]];
      PendingAppend(queueIn[..i], queueIn[i]);
      PendingAppend(queue, sendreq);
      queue := queue + [sendreq];
    }
    assert queueIn[..|queueIn|] == queueIn;
  }

  lemma LosesNext(queue: seq<SendRequest>, r: Ref, success: bool, memory: nat -> bool, n: nat)
    requires n < |queue|
    ensures Loses(queue, r, success, memory, n + 1) <==>
      Loses(queue, r, success, memory, n) || (queue[n].owner == Some(r) && !(success && memory(n)))
  {
  }

  // ----- all servers of a channel

  /** On every connection that is not broken, what was written and what is queued make up exactly
      the requests handed to it, each after its length, in order. What was written is None once bytes went out from a queue with
      a request of a freed query, since nobody knows what bytes those were. */
  ghost predicate StreamOk(server: Server, written: Option<seq<Byte>>, requested: seq<seq<Byte>>) {
    && NoOwnedCopies(server.queue)
    && TcpFraming.AllFit(requested)
    && (!server.isBroken && written.Some? ==> written.value + Pending(server.queue) == TcpFraming.Stream(requested))
  }

  ghost predicate StreamsOk(servers: seq<Server>, written: seq<Option<seq<Byte>>>, requested: seq<seq<seq<Byte>>>) {
    && |servers| == |written| == |requested|
    && forall s :: 0 <= s < |servers| ==> StreamOk(servers[s], written[s], requested[s])
  }

  lemma StreamCopies(server: Server, written: Option<seq<Byte>>, requested: seq<seq<Byte>>)
    requires StreamOk(server, written, requested)
    ensures NoOwnedCopies(server.queue)
  {
  }

  /** A stream goes on as long as the bytes still to be sent are the same, or the server is broken. */
  lemma DetachKeepsStream(server: Server, queue: seq<SendRequest>, isBroken: bool, written: Option<seq<Byte>>, requested: seq<seq<Byte>>)
    requires StreamOk(server, written, requested) && NoOwnedCopies(queue)
    requires !isBroken ==> !server.isBroken && Pending(queue) == Pending(server.queue)
    ensures StreamOk(server.(queue := queue, isBroken := isBroken), written, requested)
  {
  }

  /** A stream goes on with one request more. */
  lemma QueuedKeepsStream(server: Server, written: Option<seq<Byte>>, requested: seq<seq<Byte>>, req: SendRequest)
    requires StreamOk(server, written, requested) && IsFrame(req.data) && !req.dataStorage
    ensures StreamOk(server.(queue := server.queue + [req]), written, requested + [req.data[2..]])
  {
    hide Pending;
    PendingAppend(server.queue, req);
    var message := req.data[2..];
    hide TcpFraming.Frame, TcpFraming.Stream, TcpFraming.FitsFrame, TcpFraming.AllFit;
    TcpFraming.StreamMore(requested, message);
    if written.Some? {
      TcpFraming.Associate(written.value, Pending(server.queue), req.data);
    }
  }

  ghost predicate AllKnown(written: seq<Option<seq<Byte>>>) {
    forall s :: 0 <= s < |written| ==> written[s].Some?
  }

  /** What count bytes written from the queue add to what is known. */
  ghost function Extended(written: Option<seq<Byte>>, queue: seq<SendRequest>, count: nat, queries: map<Ref, Query>): Option<seq<Byte>>
    requires count <= |Pending(queue)|
  {
    if written.Some? && (count == 0 || OwnersOk(queue, queries)) then Some(written.value + Pending(queue)[..count]) else None
  }

  /** Bytes that are written leave the queue, and nothing is lost. */
  lemma WritingKeepsStream(server: Server, queue: seq<SendRequest>, written: Option<seq<Byte>>, requested: seq<seq<Byte>>, count: nat,
                           queries: map<Ref, Query>)
    requires StreamOk(server, written, requested) && count <= |Pending(server.queue)| && NoOwnedCopies(queue)
    requires Pending(server.queue) == Pending(server.queue)[..count] + Pending(queue)
    ensures StreamOk(server.(queue := queue), Extended(written, server.queue, count, queries), requested)
    ensures written.Some? && OwnersOk(server.queue, queries) ==> Extended(written, server.queue, count, queries).Some?
    ensures count == 0 ==> Extended(written, server.queue, count, queries) == written
  {
    var all := Pending(server.queue);
    assert written.Some? ==> written.value + (all[..count] + Pending(queue)) == written.value + all[..count] + Pending(queue);
    assert written.Some? && count == 0 ==> written.value + all[..count] == written.value;
  }

  lemma NothingWritten(server: Server, written: Option<seq<Byte>>, requested: seq<seq<Byte>>, queries: map<Ref, Query>)
    requires StreamOk(server, written, requested)
    ensures NoOwnedCopies(server.queue) && Extended(written, server.queue, 0, queries) == written
    ensures Pending(server.queue)[0..] == Pending(server.queue)
  {
    WritingKeepsStream(server, server.queue, written, requested, 0, queries);
  }

  ghost predicate AllOwnersOk(servers: seq<Server>, queries: map<Ref, Query>) {
    forall s :: 0 <= s < |servers| ==> OwnersOk(servers[s].queue, queries)
  }

  /** The owners stay valid as long as no buffer of a live query changes or goes. */
  lemma OwnersKept(servers: seq<Server>, queries: map<Ref, Query>, queries': map<Ref, Query>)
    requires AllOwnersOk(servers, queries)
    requires forall r :: r in queries ==> r in queries' && queries'[r].tcpbuf == queries[r].tcpbuf
    ensures AllOwnersOk(servers, queries')
  {
    forall s, i | 0 <= s < |servers| && 0 <= i < |servers[s].queue|
      ensures RequestOk(servers[s].queue[i], queries')
    {
      assert RequestOk(servers[s].queue[i], queries);
    }
  }

  /** Without requests of its own, a query can be freed. */
  lemma OwnersSurviveFree(servers: seq<Server>, queries: map<Ref, Query>, r: Ref)
    requires AllOwnersOk(servers, queries)
    requires forall s, i :: 0 <= s < |servers| && 0 <= i < |servers[s].queue| ==> servers[s].queue[i].owner != Some(r)
    ensures AllOwnersOk(servers, queries - {r})
  {
    forall s, i | 0 <= s < |servers| && 0 <= i < |servers[s].queue|
      ensures RequestOk(servers[s].queue[i], queries - {r})
    {
      assert RequestOk(servers[s].queue[i], queries);
    }
  }

  lemma OwnersOfSameQueues(servers: seq<Server>, servers': seq<Server>, queries: map<Ref, Query>)
    requires |servers'| == |servers| && forall s :: 0 <= s < |servers| ==> servers'[s].queue == servers[s].queue
    ensures AllOwnersOk(servers, queries) ==> AllOwnersOk(servers', queries)
  {
  }

  lemma UdpKeepsStreams(servers: seq<Server>, written: seq<Option<seq<Byte>>>, requested: seq<seq<seq<Byte>>>, s: nat)
    requires StreamsOk(servers, written, requested) && s < |servers|
    ensures StreamsOk(servers[s := servers[s].(udpOpen := true)], written, requested)
  {
  }

  ghost predicate NoOwners(servers: seq<Server>) {
    forall s, i :: 0 <= s < |servers| && 0 <= i < |servers[s].queue| ==> servers[s].queue[i].owner == None
  }

  /** With no live query left, the owners are valid only if there are none. */
  lemma OwnersWithoutQueries(servers: seq<Server>, queries: map<Ref, Query>)
    requires AllOwnersOk(servers, queries)
    ensures AllOwnersOk(servers, map[]) <==> NoOwners(servers)
  {
    forall s, i | 0 <= s < |servers| && 0 <= i < |servers[s].queue|
      ensures RequestOk(servers[s].queue[i], map[]) <==> servers[s].queue[i].owner == None
    {
      assert OwnersOk(servers[s].queue, queries);
      assert RequestOk(servers[s].queue[i], queries);
    }
    if AllOwnersOk(servers, map[]) {
      forall s, i | 0 <= s < |servers| && 0 <= i < |servers[s].queue|
        ensures servers[s].queue[i].owner == None
      {
        assert OwnersOk(servers[s].queue, map[]);
        assert RequestOk(servers[s].queue[i], map[]);
      }
    }
  }

  // ----- what a step does to the servers

  ghost predicate HasRequest(server: Server, r: Ref) {
    exists i :: 0 <= i < |server.queue| && server.queue[i].owner == Some(r)
  }

  /** A connection stays open, with its generation and all that it still has to send; or it was broken or
      breaks, but only if it had a request of r. */
  ghost predicate KeptServer(a: Server, b: Server, r: Ref) {
    && b == a.(queue := b.queue, isBroken := b.isBroken) && (a.isBroken ==> b.isBroken)
    && (if b.isBroken then a.isBroken || HasRequest(a, r) else Pending(b.queue) == Pending(a.queue))
    && (!HasRequest(a, r) ==> b == a)
  }

  /** What detaching the requests of r does to a server; plenty says that there is memory for every copy. */
  ghost predicate DetachedServer(a: Server, b: Server, r: Ref, success: bool, plenty: bool) {
    && KeptServer(a, b, r) && (success && plenty ==> b.isBroken == a.isBroken) && (!success && HasRequest(a, r) ==> b.isBroken)
    && forall i :: 0 <= i < |b.queue| ==> b.queue[i].owner != Some(r)
  }

  /** Detaching the requests of r keeps the rest; a connection breaks exactly if some request of r was lost. */
  lemma DetachKeepsServer(a: Server, queue: seq<SendRequest>, isBroken: bool, r: Ref, success: bool, memory: nat -> bool, plenty: bool)
    requires |queue| == |a.queue| && (!isBroken ==> Pending(queue) == Pending(a.queue))
    requires forall i: nat :: i < |queue| ==> queue[i] == Detached(a.queue[i], r, success && memory(i))
    requires isBroken <==> a.isBroken || Loses(a.queue, r, success, memory, |a.queue|)
    requires plenty ==> forall i: nat :: memory(i)
    ensures DetachedServer(a, a.(queue := queue, isBroken := isBroken), r, success, plenty)
  {
    if !HasRequest(a, r) {
      assert queue == a.queue;
    }
  }

  lemma AllDetached(before: seq<Server>, after: seq<Server>, r: Ref, success: bool, plenty: bool)
    requires |after| == |before| && forall s :: 0 <= s < |before| ==> DetachedServer(before[s], after[s], r, success, plenty)
    ensures Kept(before, after, r) && (success && plenty ==> NoneBreaks(before, after))
    ensures !success ==> forall s :: 0 <= s < |before| && HasRequest(before[s], r) ==> after[s].isBroken
    ensures forall s, i :: 0 <= s < |after| && 0 <= i < |after[s].queue| ==> after[s].queue[i].owner != Some(r)
  {
  }

  /** No connection breaks. */
  ghost predicate NoneBreaks(s0: seq<Server>, s1: seq<Server>) {
    |s1| == |s0| && forall s :: 0 <= s < |s0| ==> s1[s].isBroken == s0[s].isBroken
  }

  ghost predicate Kept(s0: seq<Server>, s1: seq<Server>, r: Ref) {
    |s1| == |s0| && forall s :: 0 <= s < |s0| ==> KeptServer(s0[s], s1[s], r)
  }

  /** The queries that own queued requests. */
  ghost function Owners(servers: seq<Server>): set<Ref> {
    set s, i | 0 <= s < |servers| && 0 <= i < |servers[s].queue| && servers[s].queue[i].owner.Some? :: servers[s].queue[i].owner.value
  }

  /** From servers s0 to s1, with the resets counted for each: no owners but `extra` are new, and a
      broken server stays so until it is reset. */
  ghost predicate ServersStep(s0: seq<Server>, s1: seq<Server>, n0: seq<nat>, n1: seq<nat>, extra: set<Ref>) {
    && |s1| == |s0| == |n0| == |n1| && Owners(s1) <= Owners(s0) + extra
    && forall s :: 0 <= s < |s0| ==> n0[s] <= n1[s] && (s0[s].isBroken ==> s1[s].isBroken || n0[s] < n1[s])
  }

  lemma StepSame(s0: seq<Server>, s1: seq<Server>, n: seq<nat>, extra: set<Ref>)
    requires |s1| == |s0| == |n|
    requires forall s :: 0 <= s < |s0| ==> s1[s].queue == s0[s].queue && (s0[s].isBroken ==> s1[s].isBroken)
    ensures ServersStep(s0, s1, n, n, extra)
  {
  }

  lemma StepTwice(s0: seq<Server>, s1: seq<Server>, s2: seq<Server>, n0: seq<nat>, n1: seq<nat>, n2: seq<nat>, extra: set<Ref>)
    requires ServersStep(s0, s1, n0, n1, extra) && ServersStep(s1, s2, n1, n2, extra)
    ensures ServersStep(s0, s2, n0, n2, extra)
  {
  }

  lemma StepMore(s0: seq<Server>, s1: seq<Server>, n0: seq<nat>, n1: seq<nat>, extra: set<Ref>, more: set<Ref>)
    requires ServersStep(s0, s1, n0, n1, extra) && extra <= more
    ensures ServersStep(s0, s1, n0, n1, more)
  {
  }

  /** A server is never reset less often than before, and one that was broken and is not has been reset. */
  lemma StepResets(s0: seq<Server>, s1: seq<Server>, n0: seq<nat>, n1: seq<nat>, extra: set<Ref>, s: nat)
    requires ServersStep(s0, s1, n0, n1, extra) && s < |s0|
    ensures |s1| == |n0| == |n1| == |s0| && n1[s] >= n0[s] && (s0[s].isBroken && !s1[s].isBroken ==> n1[s] > n0[s])
  {
  }

  lemma StepCounts(s0: seq<Server>, s1: seq<Server>, n0: seq<nat>, n1: seq<nat>, extra: set<Ref>)
    requires ServersStep(s0, s1, n0, n1, extra)
    ensures |n0| == |n1| == |s0| == |s1| && forall s :: 0 <= s < |n0| ==> n0[s] <= n1[s]
  {
  }

  /** A reset server owns nothing. */
  lemma StepReset(s0: seq<Server>, s1: seq<Server>, n0: seq<nat>, s: nat)
    requires s < |s0| == |s1| == |n0| && s1 == s0[s := s1[s]] && s1[s].queue == []
    ensures ServersStep(s0, s1, n0, n0[s := n0[s] + 1], {})
  {
  }

  /** A queue whose requests kept their owner or lost it. */
  lemma StepDetached(s0: seq<Server>, s1: seq<Server>, n: seq<nat>, s: nat)
    requires s < |s0| == |s1| == |n| && s1 == s0[s := s1[s]] && |s1[s].queue| == |s0[s].queue|
    requires forall i :: 0 <= i < |s0[s].queue| ==> s1[s].queue[i].owner in {None, s0[s].queue[i].owner}
    requires s0[s].isBroken ==> s1[s].isBroken
    ensures ServersStep(s0, s1, n, n, {})
  {
    forall o | o in Owners(s1)
      ensures o in Owners(s0)
    {
      var k, i :| 0 <= k < |s1| && 0 <= i < |s1[k].queue| && s1[k].queue[i].owner == Some(o);
      assert s0[k].queue[i].owner == Some(o);
    }
  }

  /** One request more at the end of a queue. */
  ghost function WithRequest(servers: seq<Server>, s: nat, req: SendRequest): seq<Server>
    requires s < |servers|
  {
    servers[s := servers[s].(queue := servers[s].queue + [req])]
  }

  /** A queued request adds its owner to the owners, and takes none away. */
  lemma OwnersQueued(before: seq<Server>, servers: seq<Server>, s: nat, req: SendRequest, r: Ref)
    requires s < |servers| == |before| && (forall k :: 0 <= k < |servers| ==> servers[k].queue == before[k].queue)
    requires req.owner == Some(r)
    ensures r in Owners(WithRequest(servers, s, req)) && Owners(before) <= Owners(WithRequest(servers, s, req))
  {
    var after := WithRequest(servers, s, req);
    assert after[s].queue[|servers[s].queue|].owner == Some(r);
    forall o | o in Owners(before)
      ensures o in Owners(after)
    {
      var k, i :| 0 <= k < |before| && 0 <= i < |before[k].queue| && before[k].queue[i].owner == Some(o);
      assert after[k].queue[i].owner == Some(o);
    }
  }

  lemma StepQueued(s0: seq<Server>, n: seq<nat>, s: nat, req: SendRequest, r: Ref)
    requires s < |s0| == |n| && req.owner == Some(r)
    ensures ServersStep(s0, WithRequest(s0, s, req), n, n, {r})
  {
    var s1 := WithRequest(s0, s, req);
    forall o | o in Owners(s1)
      ensures o in Owners(s0) + {r}
    {
      var k, i :| 0 <= k < |s1| && 0 <= i < |s1[k].queue| && s1[k].queue[i].owner == Some(o);
      if k == s && i == |s0[s].queue| {
      } else {
        assert s0[k].queue[i].owner == Some(o);
      }
    }
  }

  lemma OwnersLive(servers: seq<Server>, queries: map<Ref, Query>)
    ensures AllOwnersOk(servers, queries) ==> Owners(servers) <= queries.Keys
  {
    forall s: nat, i: nat | s < |servers| && i < |servers[s].queue| && AllOwnersOk(servers, queries)
      ensures RequestOk(servers[s].queue[i], queries)
    {
      assert OwnersOk(servers[s].queue, queries);
    }
  }

  lemma OwnersAbsent(servers: seq<Server>, r: Ref)
    ensures r !in Owners(servers) <==> forall s, i :: 0 <= s < |servers| && 0 <= i < |servers[s].queue| ==> servers[s].queue[i].owner != Some(r)
  {
  }

  lemma OwnerListed(servers: seq<Server>, s: nat, i: nat)
    requires s < |servers| && i < |servers[s].queue|
    ensures servers[s].queue[i].owner == None || servers[s].queue[i].owner.value in Owners(servers)
  {
  }

  lemma NoOwnersEmpty(servers: seq<Server>)
    ensures NoOwners(servers) <==> Owners(servers) == {}
  {
    forall s: nat, i: nat | s < |servers| && i < |servers[s].queue|
      ensures Owners(servers) == {} ==> servers[s].queue[i].owner == None
    {
      OwnerListed(servers, s, i);
    }
  }
}
