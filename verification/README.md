# Verified models of the vendored libraries

The native utilities of this repository are built on two libraries that it carries as source: Crypto++ and
c-ares. This Dafny project models their algorithms that keep state over many steps and are easy to get
wrong, in the form they have there (loops, objects with fields, arrays changed in place), and proves each
against a short definition of what it is for.

- **Multiplication in groups** (`Groups`, `WindowSlider`, `SimultaneousMultiply`, `CascadeMultiply`,
  `StdHeap`, `GeneralCascade`, `Euclid`, over `Bits`). Signed sliding windows with buckets, the joint table
  for two exponents, the heap-driven reduction for many, and extended Euclid in rotating slots. The group
  is any type with the laws; exponents are mathematical integers.
- **The DNS query engine** (`Engine`, `EngineState`, `SendQueues`, `Tables`, `Clock`, `LinkedLists`,
  `RingTables`, `TcpFraming`, with `AresStatus`). A channel as a state machine: submitting, sending, moving on
  to other servers, answers, timeouts, partial writes, broken connections, cancelling and destroying. Sockets,
  memory, the random backoff and the servers' answers are arbitrary.
- **Texts and wire forms** (`DnsNames`, `DnsCompression`, `DnsQuery`, `Ipv6Text`, `Ipv6Parse`, `Ipv6RoundTrip`,
  `Ipv6Prefix`, `Ipv6Digits`, and `BaseCode`, `BaseEncoder`, `BaseDecoder`, `LookupTables`, `Grouper`,
  `BaseRoundTrip`, `AmbiguousAlphabets` over `BitPacking` and `ByteBits`). Each writer is proved inverse to its reader.
- **Digests in pieces** (`Cmac` over `BinaryField`, `Adler`, with `Pieces`). Each equals its one-shot
  definition for every message and every way to cut it.

`Common` holds the types that several of them share. Where a program uses a named constant or a
helper for a byte layout, what it is proved against has the numbers written out.
`dafny verify dfyconfig.toml` checks everything.

## Where the code does something else than expected

The models follow the code. In these places a property one would expect does not hold; a lemma or contract
states exactly when it does.

- `MulU` reduces blocks of 32 bytes by x^256 + x^10 + x^5 + x + 1, which has the factor x^2 + x + 1, although
  `cmac.h` (line 34) names 32 as a supported block size; the irreducible polynomial of that form has x^2 in
  place of x. Doubling is the field's exactly for other sizes or with the top bit clear
  (`BinaryField.DoublesInFieldExactly`, `BinaryField.CodePolynomialFactors`).
- `QuotientRing::MultiplicativeInverse` does not reduce its argument: for one beyond the modulus it returns
  zero even if there is an inverse (`Euclid.MultiplicativeInverse`; `Euclid.InverseMissed` has 7 modulo 5).
- `ares_create_query` counts one byte too few for a name that ends in an escaped dot, and one too many for "."
  (`DnsQuery.CountExact`, `DnsQuery.CreateQuery`).
- `ares_cancel` frees queries without a look at the send queues. If no queued request has an owner nothing
  goes wrong. Otherwise, with no new requests from the callbacks, the queued requests stay valid exactly if
  it closes all sockets, that is, if the channel does not stay open (`Engine.Channel.AresCancel`).
  `Engine.CancelLeavesRequest` reaches a channel with a request of a freed query, and
  `Engine.ResubmissionLeavesRequest` one that does not stay open. What such a queue writes is unknown, so the
  claim of `Engine.Channel.Run` about written bytes ends there.
- In `inet_net_pton_ipv6` a prefix length may leave room for fewer words than follow the double colon, as in
  `::1:2:3/16`. The loop that moves those words to the end of the prefix then writes in front of its buffer. It
  does so exactly for the texts with a double colon and more words behind it than max(2, bits/16 rounded up),
  at most eight in all; without a prefix length it never does (`Ipv6Prefix.UndefinedExactly`,
  `Ipv6Prefix.ShiftOvershoots`, `Ipv6Prefix.DefinedWithoutPrefix`).
- `BaseN_Decoder::InitializeDecodingLookupArray` notices an alphabet in which a character stands for two values
  only through assertions; without them the last value wins, and some message is not read back
  (`LookupTables.InitializeDecodingLookupArray`, `AmbiguousAlphabets.ReadBackExactly`; "aA" without regard to case
  is one, `AmbiguousAlphabets.LettersOfOneBit`).
- In `inet_ntop6` the clause for a zero run of seven words can never apply, since the word it is asked for
  at lies inside the run; the loop's proof needs no assumption about it (`Ipv6Text.FormatWords`).
- A TCP message of length zero makes the next read ask for no bytes, which counts as an error of the
  connection (`TcpFraming.TcpReader.ReadTcpData`). So of a stream only the messages before the first empty one
  are delivered (`TcpFraming.Receive`, `TcpFraming.EmptyMessageFails`).

## Model

| member | source | states |
|---|---|---|
| `Groups.MultipleAdd` | contrib/cryptopp/algebra.h:19-41 | In any group, also a non-commutative one, multiples of one element add like integers |
| `Groups.MultipleMultiple` | contrib/cryptopp/algebra.h:19-41 | A multiple of a multiple is the multiple by the product |
| `Groups.MultipleSum` | contrib/cryptopp/algebra.h:19-41 | In an abelian group a multiple of a sum is the sum of the multiples |
| `WindowSliders.WindowSlider.constructor` | contrib/cryptopp/algebra.cpp:208-217 | Nothing of the exponent has been read yet; the window size is the given one, or the default for the bit count |
| `WindowSliders.DefaultWindowSteps` | contrib/cryptopp/algebra.cpp:211-215 | The default window grows by one bit beyond each of the six lengths |
| `WindowSliders.WindowSlider.FindNextWindow` | contrib/cryptopp/algebra.cpp:219-246 | What was unread equals the signed digit found, shifted to its place, plus what is still unread; it finishes exactly when nothing was unread; windows do not overlap; with fast inversion the bit above a window ends up clear |
| `WindowSliders.SkipZeroBits` | contrib/cryptopp/algebra.cpp:224-232 | Finds the lowest set bit from a start on, or shows that there is none |
| `SimultaneousMultiplication.FoldingIsWeighting` | contrib/cryptopp/algebra.cpp:298-312 | Suffix sums added up, doubled, give the weights 2j+1 of the buckets |
| `SimultaneousMultiplication.WeightedByFolding` | contrib/cryptopp/algebra.cpp:298-312 | The weighted sum of all buckets is what the closing loop forms from them |
| `SimultaneousMultiplication.FoldBuckets` | contrib/cryptopp/algebra.cpp:298-312 | The in-place folding of a bucket row returns the sum of (2j+1) times bucket j |
| `SimultaneousMultiplication.StartExponent` | contrib/cryptopp/algebra.cpp:262-268 | Empty buckets and the first window together account for the whole exponent |
| `SimultaneousMultiplication.CollectWindow` | contrib/cryptopp/algebra.cpp:279-287 | Moving one window into its bucket keeps collected plus outstanding equal to the exponent; the bucket index is in range, the next window starts later, and fewer windows are left |
| `SimultaneousMultiplication.CollectAt` | contrib/cryptopp/algebra.cpp:277-289 | One exponent at one bit position: afterwards no unfinished window of it starts at or before the position |
| `SimultaneousMultiplication.CollectAll` | contrib/cryptopp/algebra.cpp:276-289 | One pass over all exponents: no window start is ever passed, and the pass makes progress |
| `SimultaneousMultiplication.FoldAll` | contrib/cryptopp/algebra.cpp:298-312 | Every result is its exponent times the base, once the buckets hold all windows |
| `SimultaneousMultiplication.SimultaneousMultiply` | contrib/cryptopp/algebra.cpp:254-313 | In any group, for any base, any number of non-negative exponents, with or without fast inversion: results[k] is exponents[k] times the base; the loop ends |
| `SimultaneousMultiplication.ScalarMultiply` | contrib/cryptopp/algebra.cpp:90-95 | One multiple of one element |
| `CascadeMultiplication.IndexInjective` | contrib/cryptopp/algebra.cpp:104-128 | Different coefficient pairs have different places in the joint table |
| `CascadeMultiplication.FillOddColumns` | contrib/cryptopp/algebra.cpp:118-122 | Fills a*x + b*y for every odd a and every b of the table, and keeps what was filled |
| `CascadeMultiplication.FillRow` | contrib/cryptopp/algebra.cpp:127-128 | Fills the even columns of a row with odd b |
| `CascadeMultiplication.FillOddRows` | contrib/cryptopp/algebra.cpp:124-128 | Fills a*x + b*y for every odd b; then every entry with an odd coefficient is filled |
| `CascadeMultiplication.FillTable` | contrib/cryptopp/algebra.cpp:103-129 | Every entry with an odd coefficient holds its combination, whatever the fresh vector held |
| `CascadeMultiplication.Halve` | contrib/cryptopp/algebra.cpp:145-151 | The powers stripped of common factors of two, and the factors moved from the squarings before to those after without loss; the unsigned counter does not wrap where it is used |
| `CascadeMultiplication.ReadWindow` | contrib/cryptopp/algebra.cpp:142-165 | Joining one window turns the combination for the exponents above it into the one for the exponents from it on |
| `CascadeMultiplication.CascadeScalarMultiply` | contrib/cryptopp/algebra.cpp:97-170 | In any abelian group, for all non-negative exponents, the result is e1*x + e2*y |
| `StdHeap.RootIsLargest` | contrib/cryptopp/algebra.cpp:184-189 | In a heap no exponent exceeds that of the first entry |
| `StdHeap.MakeHeap` | contrib/cryptopp/algebra.cpp:184 | The contract of std::make_heap: a heap of the same entries |
| `StdHeap.PopHeap` | contrib/cryptopp/algebra.cpp:185 | The contract of std::pop_heap: the largest entry last, a heap of the others before it |
| `StdHeap.PushHeap` | contrib/cryptopp/algebra.cpp:198 | The contract of std::push_heap: the last entry joins the heap |
| `GeneralCascade.OrderIrrelevant` | contrib/cryptopp/algebra.cpp:184-200 | The sum of exponent times base depends only on which entries there are |
| `GeneralCascade.ReduceStep` | contrib/cryptopp/algebra.cpp:190-196 | Dividing the largest exponent by the next largest and moving the quotient over keeps the sum and lowers the sum of the exponents |
| `GeneralCascade.NextLargestFirst` | contrib/cryptopp/algebra.cpp:189 | The largest exponent is at `last` and the next largest at `begin` |
| `GeneralCascade.PopLargest` | contrib/cryptopp/algebra.cpp:185 | The heap's root goes to the end; the sums stay |
| `GeneralCascade.DivideLargest` | contrib/cryptopp/algebra.cpp:187-196 | One turn of the loop keeps the sum of exponent times base and lowers the sum of the exponents; the entries before the last stay a heap |
| `GeneralCascade.GeneralCascadeMultiplication` | contrib/cryptopp/algebra.cpp:172-204 | In any abelian group, for one entry or more, the result is the sum of exponent times base of the entries given; the loop ends |
| `Euclid.DivisionStep` | contrib/cryptopp/algebra.cpp:61-65 | A division step keeps all common divisors |
| `Euclid.Gcd` | contrib/cryptopp/algebra.cpp:56-68 | For any two integers, zero and negative ones included, a greatest common divisor up to its sign |
| `Euclid.CoefficientStep` | contrib/cryptopp/algebra.cpp:79-84 | The rotating slots keep g congruent to v times the element |
| `Euclid.MultiplicativeInverse` | contrib/cryptopp/algebra.cpp:70-88 | The result times a is 1 modulo m if and only if a is coprime to m and within the modulus (or m is 1); in all other cases it is zero |
| `Euclid.InverseMissed` | contrib/cryptopp/algebra.cpp:70-88 | 3 is an inverse of 7 modulo 5, and the result is 0 |
| `LinkedLists.InitListHead` | contrib/c-ares/ares_llist.c:27-31 | A head alone is an empty ring |
| `LinkedLists.InitListNode` | contrib/c-ares/ares_llist.c:34-38 | A node in no list, with its data |
| `LinkedLists.IsListEmpty` | contrib/c-ares/ares_llist.c:41-43 | True exactly for the empty list |
| `LinkedLists.InsertInList` | contrib/c-ares/ares_llist.c:46-52 | The new node stands right before the old one, all others as before; before the head it is the last |
| `LinkedLists.RemoveFromList` | contrib/c-ares/ares_llist.c:55-62 | Exactly that node leaves the ring; a node in no list stays as it is |
| `LinkedLists.TakeOver` | contrib/c-ares/ares_process.c:644-666 | A head takes a list over, empty or not |
| `LinkedLists.SwapLists` | contrib/c-ares/ares_process.c:644-666 | Two heads exchange their lists, each empty or not |
| `LinkedLists.StealList` | contrib/c-ares/ares_cancel.c:40-46 | A list moves to a fresh head and leaves an empty one |
| `Tables.WithoutAt` | contrib/c-ares/ares_llist.c:55-62 | Taking a member out of a list without duplicates is what removing its node from the ring does |
| `Tables.RemovePlaced` | contrib/c-ares/ares_process.c:1316-1322 | Removing a query keeps every other one in exactly one bucket |
| `Tables.MovePlaced` | contrib/c-ares/ares_process.c:832-850 | Removing and inserting again moves a query to just the new bucket |
| `Tables.SwapPlaced` | contrib/c-ares/ares_process.c:644-666 | Swapping with an empty head renames one bucket and moves nothing else |
| `RingTables.RingTable.constructor` | contrib/c-ares/ares_llist.c:27-31 | A table of empty rings |
| `RingTables.RingTable.AddNode` | contrib/c-ares/ares_send.c:113-117 | A new query gets its node, in no list yet; the rings stay as they are |
| `RingTables.RingTable.RemoveMember` | contrib/c-ares/ares_process.c:1316-1322 | On the rings of a whole table, the four pointer writes take exactly that query out of whichever bucket it is in, and leave every other ring alone |
| `RingTables.RingTable.InsertMember` | contrib/c-ares/ares_process.c:840-843 | They put it at the end of one bucket |
| `RingTables.RingTable.MoveMember` | contrib/c-ares/ares_process.c:832-850 | Removing and inserting again is the move on the sequences that the engine uses |
| `RingTables.RingTable.SwapMembers` | contrib/c-ares/ares_process.c:644-666 | Two heads of the table exchange their rings, as the swap on the sequences |
| `RingTables.ExchangePlaced` | contrib/c-ares/ares_process.c:644-666 | Where everything is after that; with one list empty it is the renaming the engine uses |
| `Clock.TimedOutMeaning` | contrib/c-ares/ares_process.c:90-102 | The comparison by seconds and microseconds is the comparison of times |
| `Clock.TimeAdd` | contrib/c-ares/ares_process.c:105-117 | The sum is exact in microseconds, and normalized |
| `EngineState.LinkedExactlyOnce` | contrib/c-ares/ares_private.h:184-193 | Between steps each live query is exactly once in the list of all queries, in bucket qid mod 2048, in bucket deadline second mod 1024 and in the list of its server, in no other list, and nothing else is linked |
| `EngineState.EmptyLists` | contrib/c-ares/ares_destroy.c:59-72 | With no live query every list is empty: the assertions of ares_destroy hold |
| `EngineState.FreeKeepsLinks` | contrib/c-ares/ares_process.c:1316-1330 | Freeing a query leaves all other links intact and the query in no list |
| `EngineState.RelinkKeepsLinks` | contrib/c-ares/ares_process.c:831-850 | Linking by the new deadline and server puts the query where its fields say |
| `EngineState.RegisterKeepsLinks` | contrib/c-ares/ares_send.c:113-126 | A new query enters the first two lists and disturbs nothing |
| `EngineState.StealKeepsLinks` | contrib/c-ares/ares_process.c:681-687 | Taking the list of a server away keeps the invariant, with that list under the temporary head |
| `EngineState.CallbacksConserved` | contrib/c-ares/ares_process.c:1302-1303 | Requests handed in are as many as live queries plus callbacks fired |
| `EngineState.EntriesBounded` | contrib/c-ares/ares_process.c:720-760 | No query, live or ended, has entered ares__send_query more than nservers * tries + 1 times, and the server of a live one is the first one advanced by its count of tries |
| `EngineState.AccountKeepsFailures` | contrib/c-ares/ares_process.c:720-760 | As long as a query lives its account may change; a query that has failed keeps the account that shows all its turns used up |
| `SendQueues.AdvanceTcpSendQueue` | contrib/c-ares/ares_process.c:285-312 | Exactly the written bytes leave the front of the queue, for every partial write |
| `SendQueues.DetachRequests` | contrib/c-ares/ares_process.c:1254-1299 | Every request of the ended query loses its owner; after a success it gets a copy of its unsent bytes wherever there is memory, and otherwise it is emptied; the server is marked broken exactly if some request is lost |
| `SendQueues.DetachKeepsServer` | contrib/c-ares/ares_process.c:1254-1299 | Detaching keeps the connection with all that it still has to send, or breaks it: never after a success with memory for every copy, always after a failure if it had a request of the query, and never if it had none |
| `SendQueues.OwnersWithoutQueries` | contrib/c-ares/ares_cancel.c:40-53 | With all queries freed the queued requests are valid exactly if none had an owner |
| `SendQueues.WritingKeepsStream` | contrib/c-ares/ares_process.c:270-312 | What is known of the bytes written grows by those that leave the queue; it is lost when bytes are written from a queue with a request of a freed query |
| `Engine.Channel.constructor` | contrib/c-ares/ares_private.h:248-308 | A new channel satisfies the invariant, with no queries, all servers without sockets, requests or damage, and a generation each |
| `Engine.Channel.CloseSockets` | contrib/c-ares/ares__close_sockets.c:22-61 | Queue empty, sockets closed, not broken, a new generation if TCP was open; other servers untouched |
| `Engine.Channel.DetachAll` | contrib/c-ares/ares_process.c:1254-1299 | No queued request of any server points to the query; connections without one stay exactly as they are, the others keep what they have to send or are marked broken; after a success with memory for every copy none breaks |
| `Engine.Channel.EndQuery` | contrib/c-ares/ares_process.c:1246-1314 | One callback with the given status, the query in no list, all other queries as before; as long as the channel stays open or other queries are listed every connection stays, with its generation and all that it has to send, except that one with a request of the query may be marked broken, and after a success only for lack of memory; otherwise all sockets are closed |
| `Engine.Channel.EndAnswered` | contrib/c-ares/ares_process.c:1246-1314 | The same when the callback of an accepted answer hands in new requests: each of them becomes a query that asks for it or has been called back, while the answered query is still listed but has no queued requests, and none disturbs the other queries |
| `Engine.Channel.OpenTcpSocket` | contrib/c-ares/ares_process.c:971-1062 | On success a new connection generation; on failure nothing has changed |
| `Engine.Channel.QueueRequest` | contrib/c-ares/ares_process.c:784-808 | The whole request, after its length, joins the end of the queue and the requests of that connection, and the query remembers the connection generation |
| `Engine.Channel.LinkByDeadline` | contrib/c-ares/ares_process.c:831-850 | The query waits in the bucket of its deadline and in the list of its server; the deadline is now plus the channel timeout doubled once per round of all servers, times 9/16 to 16/16 |
| `Engine.Backoff` | contrib/c-ares/ares_process.c:831-832 | Between 9/16 and all of the timeout doubled once per round |
| `Engine.Channel.SkipServer` | contrib/c-ares/ares_process.c:703-718 | Marks the server as skipped for this query unless it is the only one |
| `Engine.Channel.Transmit` | contrib/c-ares/ares_process.c:770-830 | The attempt to send touches no list; over TCP the request ends the queue of its server; the log of hand-overs grows exactly if the attempt succeeds |
| `Engine.Channel.TransmitTcp` | contrib/c-ares/ares_process.c:771-808 | For every outcome of opening the connection and of the allocation: only a failure to open makes the query try the next server, a lack of memory ends it, anything else queues the request |
| `Engine.Channel.TransmitUdp` | contrib/c-ares/ares_process.c:809-830 | For every outcome of the socket and the write: sent exactly if there is a socket and the write succeeds |
| `Engine.Channel.SendQuery` | contrib/c-ares/ares_process.c:762-851 | Whatever sockets and memory do, the query ends up handed over once to the server it then waits at (over TCP as the last in its queue, for this connection); after a failed attempt that is another turn and the server is skipped from then on; or it ends, for lack of memory exactly if there was none for it, and otherwise with all its turns used up; only it is affected, and while it lives no connection is reset; moved on, it is only sent to a server that is not broken, not skipped for it, and has not had it over this connection; the recursion ends |
| `Engine.Channel.NextServer` | contrib/c-ares/ares_process.c:720-760 | A query that is still live waits at the server whose turn it is, that is the first one advanced by its count of tries, and each turn counted on the way was spent: sent to its server, or passed over; it ends only for lack of memory or with all nservers * tries turns (one at least) used up |
| `Engine.Channel.FindServer` | contrib/c-ares/ares_process.c:720-757 | Stops at the first server in turn that is of use; every one passed over is broken, skipped for the query, or has had it over this connection; without one all turns are used up |
| `Engine.Channel.HandleError` | contrib/c-ares/ares_process.c:668-701 | The connections are reset; every query of that server moves on, having used up a try and skipping the server if there are others, or fails with all its turns used up or for lack of memory; no other query changes, and the temporary list ends up empty: the assertions hold |
| `Engine.Channel.TimeOut` | contrib/c-ares/ares_process.c:513-517 | The timeout is counted, and the query moves on with a fresh deadline, or is called back with ARES_ETIMEOUT once all its turns are used up (or with ARES_ENOMEM) |
| `Engine.Channel.VisitBucket` | contrib/c-ares/ares_process.c:509-519 | The walk keeps the scan state even where handling a query rewires the bucket it walks through |
| `Engine.Channel.ScanBucket` | contrib/c-ares/ares_process.c:506-520 | Every query left in the bucket has a fresh deadline; what had not expired is unchanged |
| `Engine.Channel.ProcessTimeouts` | contrib/c-ares/ares_process.c:496-524 | With a channel timeout of at least 2 ms no live query has a deadline at or before now afterwards; none was timed out early; the scan covers all seconds since the last one |
| `Engine.Channel.SwitchToTcp` | contrib/c-ares/ares_process.c:595-603 | A truncated answer moves the query to TCP and sends it once more |
| `Engine.Channel.FindQuery` | contrib/c-ares/ares_process.c:553-566 | Finds a live query with that id and the same questions exactly if there is one |
| `Engine.Channel.ProcessAnswer` | contrib/c-ares/ares_process.c:527-626 | Said of the bytes of the answer: with bit 1 of byte 2 set, or more than 512 bytes, over UDP, it moves the query with the id in bytes 0 and 1 to TCP, or is ignored if it is there; otherwise with code 2, 4 or 5 in the low half of byte 3 the server is skipped, and the query moves on if it was the one it waits for; otherwise exactly that query ends with success, whatever its callback hands in, and with nothing handed in the connections stay as long as other queries live or the channel stays open; an answer to no live query changes no query and no connection; a query fails only with all its turns used up or for lack of memory |
| `Engine.Channel.WriteTcpData` | contrib/c-ares/ares_process.c:193-282 | For every outcome of the write: nothing happens without queued bytes, an open connection that is not broken, or when the socket is not ready; a write of n bytes moves exactly the first n queued bytes to the connection and touches no other server (bytes that are known as long as no request in the queue belongs to a freed query); an error resets the connection and affects the queries of that server only |
| `Engine.Channel.ProcessBrokenConnections` | contrib/c-ares/ares_process.c:629-641 | Every server that is broken at the start is reset before the end; with none broken nothing changes |
| `Engine.Channel.NewQuery` | contrib/c-ares/ares_send.c:46-126 | The new query has the id in the first two bytes of the request, and the request after its length, the higher byte first; it goes over TCP if that is wanted or it is longer than 512 bytes; it has no tries and starts at the rotating or first server |
| `Engine.Channel.AresSend` | contrib/c-ares/ares_send.c:35-131 | A bad length is called back at once; otherwise the request becomes a query, with its id, its length in front, the higher byte first, and TCP or not, that was handed over and waits, or has been called back with one of three errors; older queries stay as they were |
| `Engine.Channel.CancelList` | contrib/c-ares/ares_cancel.c:34-54 | The loop cancels all queries present on entry, each once, and none of those that its callbacks hand in |
| `Engine.Channel.AresCancel` | contrib/c-ares/ares_cancel.c:26-63 | Cancelled are exactly the queries present on entry, whatever the callbacks hand in: all of them are gone, and no other one gets that status; the sockets are closed if no query is left and the channel does not stay open, and no connection is reset otherwise, unless a new request failed; if no queued request had an owner they all stay valid, whatever is handed in; with nothing handed in they stay valid if and only if that holds or all sockets were closed |
| `Engine.CancelLeavesRequest` | contrib/c-ares/ares_cancel.c:40-53 | A run on a channel that stays open that ends with a queued request of a freed query |
| `Engine.ResubmissionLeavesRequest` | contrib/c-ares/ares_cancel.c:40-62 | The same on any channel, when the callback hands in a new query |
| `Engine.Channel.AresDestroy` | contrib/c-ares/ares_destroy.c:41-89 | Every query is called back once, every list ends up empty, every connection is closed |
| `Engine.Channel.Run` | contrib/c-ares/ares_process.c:131-142 | Over any sequence of events: the links are consistent, requests handed in equal live queries plus callbacks, no query, live or ended, entered ares__send_query more than nservers * tries + 1 times (two, if that product is zero), each live one waits at the server its count of tries says, and one called back with ARES_ETIMEOUT or ARES_ECONNREFUSED has used up all its turns, each on a send or on a server of no use; on each unbroken connection the bytes written and queued parse as exactly the requests queued on it, in order, each after its length, as long as no bytes were written from a queue with a request of a freed query, which without a cancellation never happens |
| `Engine.Channel.Handle` | contrib/c-ares/ares_process.c:119-191 | Each event has its effect: a request is handed in, a cancellation leaves none of the queries before it, expired deadlines are gone, broken and failed connections are reset, written bytes have left the queue, an accepted answer ends a query |
| `Engine.ScanContinues` | contrib/c-ares/ares_process.c:509-519 | Timing a query out keeps the scan going even if it comes back at the end of the same bucket |
| `Engine.SweepContinues` | contrib/c-ares/ares_process.c:496-524 | Scanning bucket t mod 1024 is enough for every deadline in second t, however many seconds passed |
| `Engine.BudgetTried` | contrib/c-ares/ares_process.c:513-517 | A used up try lowers the total budget of the live queries, which bounds one pass |
| `Engine.BudgetEnded` | contrib/c-ares/ares_process.c:513-517 | So does a query that ends |
| `TcpFraming.StreamParses` | contrib/c-ares/ares_process.c:315-411 | The messages of a stream are read back from it |
| `TcpFraming.StreamMore` | contrib/c-ares/ares_process.c:784-808 | A stream with one message more ends with that message after its length |
| `TcpFraming.ParseMore` | contrib/c-ares/ares_process.c:315-411 | Reading on depends only on what was left over |
| `TcpFraming.TcpReader.ReadTcpData` | contrib/c-ares/ares_process.c:353-409 | One read of any size keeps the reader in step with the stream; only a message of length zero makes it fail |
| `TcpFraming.TcpReader.Reset` | contrib/c-ares/ares__close_sockets.c:38-42 | A new connection starts with a length, with nothing left of the old one |
| `TcpFraming.Receive` | contrib/c-ares/ares_process.c:318-411 | For every way the stream of any messages is cut into reads, exactly those before the first empty one are handed over, in order; the reader gets stuck if and only if some message is empty, and an error shows if and only if more messages follow it |
| `TcpFraming.WhatWasRead` | contrib/c-ares/ares_process.c:353-409 | What the bytes read so far say about the messages delivered |
| `TcpFraming.EmptyMessageFails` | contrib/c-ares/ares_process.c:384-394 | A run in which the message after an empty one is lost |
| `DnsNames.WalkNeverReturns` | contrib/c-ares/ares_expand_name.c:161-165 | A walk that ends visits no position twice |
| `DnsNames.Pigeonhole` | contrib/c-ares/ares_expand_name.c:161-165 | So it has at most as many steps as the message has bytes |
| `DnsNames.ExpandsExactlyWellFormed` | contrib/c-ares/ares_expand_name.c:140-186 | One pointer per message byte is enough for every name whose walk ends, and no other name expands |
| `DnsNames.BudgetIrrelevant` | contrib/c-ares/ares_expand_name.c:161-165 | Allowing more pointers changes no result |
| `DnsNames.NameLength` | contrib/c-ares/ares_expand_name.c:140-186 | -1 exactly for names whose walk leaves the message or never ends; otherwise the length of the text |
| `DnsNames.CopyLabel` | contrib/c-ares/ares_expand_name.c:115-121 | The bytes of a label, dots and backslashes escaped, inside the buffer |
| `DnsNames.ExpandName` | contrib/c-ares/ares_expand_name.c:62-135 | Fails exactly on names that are not well formed; otherwise the text in a buffer of exactly that length, and the bytes up to the first pointer or the zero label; the unchecked walk stays inside message and buffer |
| `DnsCompression.CompressedExpands` | contrib/c-ares/ares_expand_name.c:104-121 | Labels followed by the bytes 192 + t / 256 and t % 256 expand to their text and that of the name at t, and take the bytes up to the end of the pointer |
| `DnsCompression.ExpandPointed` | contrib/c-ares/ares_expand_name.c:60-196 | A name of some labels and a pointer to some others is read as the join of all of them |
| `DnsCompression.ExpandTwicePointed` | contrib/c-ares/ares_expand_name.c:60-196 | The same through a second pointer |
| `DnsCompression.PointsToTwelve` | contrib/c-ares/ares_expand_name.c:60-196 | "b" with a pointer c0 0c to "a" at offset 12 |
| `DnsQuery.JoinedLabels` | contrib/c-ares/ares_create_query.c:160-190 | Any valid labels are read back from their escaped, joined text |
| `DnsQuery.LabelsValid` | contrib/c-ares/ares_create_query.c:160-174 | The labels of an accepted text have 1 to 63 bytes without NUL |
| `DnsQuery.WireExpands` | contrib/c-ares/ares_expand_name.c:98-126 | Uncompressed labels in a message expand to their text and take their wire length |
| `DnsQuery.QueryNameExpands` | contrib/c-ares/ares_create_query.c:160-193 | What a query says on the wire expands to the canonical form of the text |
| `DnsQuery.CountExact` | contrib/c-ares/ares_create_query.c:101-113 | The count is the length on the wire, but one less for a text that ends in an escaped dot |
| `DnsQuery.CountFallsShort` | contrib/c-ares/ares_create_query.c:112-113 | A text for which it is one less |
| `DnsQuery.CountLength` | contrib/c-ares/ares_create_query.c:101-113 | The counting loop |
| `DnsQuery.TakeLabel` | contrib/c-ares/ares_create_query.c:166-184 | The first label without its escapes, and where the rest of the text begins |
| `DnsQuery.EncodeName` | contrib/c-ares/ares_create_query.c:155-193 | Labels on the wire, or failure exactly if some label is empty or too long |
| `DnsQuery.CreateQuery` | contrib/c-ares/ares_create_query.c:87-208 | When it succeeds, and every byte it writes, by position and weight: id, recursion bit, one question, the number of records, the labels on the wire, type and class, and with EDNS type 41 and the UDP size; they are as many as announced, except one less for "." and one more after an escaped dot at the end |
| `DnsQuery.QueryWritten` | contrib/c-ares/ares_create_query.c:138-200 | Header, labels and what follows them stand at their places, numbers with the higher byte first |
| `DnsQuery.RoundTrip` | contrib/c-ares/ares_create_query.c:87-208 | Valid labels of at most 255 bytes on the wire, joined, built into a query and expanded at offset 12, give the same text, with their wire length; exactly buflen bytes are written if and only if the text does not end in an escaped dot |
| `Ipv6Text.BestRunUnique` | contrib/c-ares/inet_ntop.c:131-154 | There is only one leftmost longest run of at least two zero words |
| `Ipv6Text.FindBestRun` | contrib/c-ares/inet_ntop.c:131-154 | The search finds it, or -1 exactly if there is none |
| `Ipv6Text.EncapsulatedExactly` | contrib/c-ares/inet_ntop.c:171-182 | An address is written with an IPv4 address at its end exactly if it begins with ten zero bytes, and then has two bytes 255, or two more zero bytes and two that are not both zero |
| `Ipv6Text.ReadWords` | contrib/c-ares/inet_ntop.c:128-130 | The bytes two by two as words |
| `Ipv6Text.FormatWords` | contrib/c-ares/inet_ntop.c:159-185 | The loop writes the words before the run, the double colon and the words behind it, or the IPv4 forms |
| `Ipv6Text.TextLength` | contrib/c-ares/inet_ntop.c:117 | No text overruns the buffer of 46 characters |
| `Ipv6Text.InetNtop6` | contrib/c-ares/inet_ntop.c:107-197 | The text with the leftmost longest run of at least two zero words replaced, unless it does not fit; never longer than the buffer |
| `Ipv6Parse.GetV4` | contrib/c-ares/inet_net_pton.c:225-267 | The octets are stored exactly if the dotted text is accepted |
| `Ipv6Parse.Scanner.ScanAll` | contrib/c-ares/inet_net_pton.c:297-338 | The main loop stops in the state, or with the error, that the scan of the whole text gives |
| `Ipv6Parse.Scanner.Shift` | contrib/c-ares/inet_net_pton.c:365-368 | The in-place shift, turn by turn |
| `Ipv6Parse.InetNetPtonIpv6` | contrib/c-ares/inet_net_pton.c:269-387 | The function of the text that the round trip is proved about |
| `Ipv6RoundTrip.ScanHex` | contrib/c-ares/inet_net_pton.c:300-309 | Reading the digits of a word gives the word |
| `Ipv6RoundTrip.ScanLead` | contrib/c-ares/inet_net_pton.c:310-327 | Words with colons are stored one after the other |
| `Ipv6RoundTrip.V4Dotted` | contrib/c-ares/inet_net_pton.c:225-267 | Reading a dotted address gives its octets |
| `Ipv6RoundTrip.ShiftedParts` | contrib/c-ares/inet_net_pton.c:355-370 | The shift puts zeros between what was before and what was behind the double colon, although source and target overlap |
| `Ipv6RoundTrip.FinishAddress` | contrib/c-ares/inet_net_pton.c:339-386 | After the main loop, with the bytes in their places: the 128 bits of the address, or no room |
| `Ipv6RoundTrip.RoundTrip` | contrib/c-ares/inet_net_pton.c:269-387 | Every one of the 2^128 addresses is read back exactly from its text, with 128 bits, if there is room for 16 bytes |
| `Ipv6RoundTrip.WriteAndRead` | contrib/c-ares/inet_ntop.c:107-197 | Writing and then reading returns the address |
| `Ipv6Digits.DigitExactly` | contrib/c-ares/inet_net_pton.c:272-273 | A character is a digit with the value of its place in the digits of either case |
| `Ipv6Digits.CaseIrrelevant` | contrib/c-ares/inet_net_pton.c:269-387 | Every text, accepted or not, is read like the one with its digits A to F in lower case |
| `Ipv6Digits.ScanValue` | contrib/c-ares/inet_net_pton.c:300-309 | One to four digits in any case, leading zeros included, are read as the sum of each times its power of 16 |
| `Ipv6Digits.ReadsSpelled` | contrib/c-ares/inet_net_pton.c:269-387 | Eight words in any spelling are read as the address of their values |
| `Ipv6Digits.ReadsSpelledGap` | contrib/c-ares/inet_net_pton.c:269-387 | Up to seven words in any spelling around a double colon are read as the address of their values, with zeros in the gap |
| `Ipv6RoundTrip.WriteAndReadV4` | contrib/c-ares/inet_ntop.c:87-99 | The four octets come back from the dotted text whenever it fits, and 16 characters are always enough |
| `Ipv6Prefix.BitsExactly` | contrib/c-ares/inet_net_pton.c:194-223 | A prefix length is accepted, with its value, exactly if it is the decimal text of a number up to 128 without leading zeros |
| `Ipv6Prefix.ScanReads` | contrib/c-ares/inet_net_pton.c:297-338 | Whenever the main loop ends at a prefix length, what stands before it is words, at most one double colon, and words |
| `Ipv6Prefix.PrefixUndefined` | contrib/c-ares/inet_net_pton.c:339-371 | For every text with a double colon and a prefix length: the shift leaves its buffer exactly if more words stand behind the double colon than the prefix has room for, at least two |
| `Ipv6Prefix.UndefinedExactly` | contrib/c-ares/inet_net_pton.c:345-371 | Over all texts: the shift leaves its buffer if and only if the text has that form and that excess |
| `Ipv6Prefix.DefinedWithoutPrefix` | contrib/c-ares/inet_net_pton.c:345-371 | It never does for a text without a slash |
| `Ipv6Prefix.ShiftOvershoots` | contrib/c-ares/inet_net_pton.c:365-368 | It does for "::1:2:3/16" |
| `BaseCode.BlockBits` | contrib/cryptopp/basecode.cpp:31-34 | The smallest common multiple of 8 and the width |
| `BaseCode.Characters` | contrib/cryptopp/basecode.cpp:31-34 | So many characters stand for whole bytes |
| `BaseCode.EncoderBlock` | contrib/cryptopp/basecode.cpp:31-34 | The search for that number of characters |
| `BaseCode.DecoderBlock` | contrib/cryptopp/basecode.cpp:116-119 | The search for the number of bytes that make whole characters |
| `BaseCode.DecodingUndoesEncoding` | contrib/cryptopp/basecode.cpp:39-167 | At the level of bits: what is decoded from the values of a message is the message |
| `BaseCode.EncodingUnique` | contrib/cryptopp/basecode.cpp:39-104 | The values are determined by the message, so the output depends on the concatenated input alone |
| `BitPacking.BitsDetermine` | contrib/cryptopp/basecode.cpp:49-69 | Different elements have different bits |
| `BitPacking.PutRest` | contrib/cryptopp/basecode.cpp:53-57 | An or into a cleared buffer appends bits and fills the element up |
| `BitPacking.PutSome` | contrib/cryptopp/basecode.cpp:53-66 | An or into a cleared buffer appends bits inside an element |
| `BaseEncoder.BaseNEncoder.PutByte` | contrib/cryptopp/basecode.cpp:47-70 | The inner loop appends exactly the eight bits of a byte |
| `BaseEncoder.BaseNEncoder.EncodeByte` | contrib/cryptopp/basecode.cpp:42-85 | One byte more is encoded; full blocks go out |
| `BaseEncoder.BaseNEncoder.EndMessage` | contrib/cryptopp/basecode.cpp:86-102 | The rest goes out with its unused bits zero, padded to a whole block if there is padding |
| `BaseEncoder.BaseNEncoder.Put` | contrib/cryptopp/basecode.cpp:39-104 | After the end of a message the output has grown by the text of the whole message, however it was cut into calls |
| `BaseDecoder.BaseNDecoder.PutValue` | contrib/cryptopp/basecode.cpp:137-153 | The bits of one value are appended, also across a byte boundary |
| `BaseDecoder.BaseNDecoder.DecodeCharacter` | contrib/cryptopp/basecode.cpp:127-160 | A character without a value is skipped; others add their bits; full blocks go out |
| `BaseDecoder.BaseNDecoder.EndMessage` | contrib/cryptopp/basecode.cpp:161-165 | Exactly the complete bytes go out |
| `BaseDecoder.BaseNDecoder.Put` | contrib/cryptopp/basecode.cpp:124-167 | After the end of a message the output has grown by the bytes of the whole text, however it was cut into calls |
| `LookupTables.InitializeDecodingLookupArray` | contrib/cryptopp/basecode.cpp:169-188 | For any alphabet, the table gives each character the last position it stands for, in both cases if asked to, and -1 to all others; the assertions hold if and only if no character stands for two positions |
| `LookupTables.LettersInOrder` | contrib/cryptopp/basecode.cpp:175-180 | Which characters are letters, and what their other case is |
| `Grouping.GroupMore` | contrib/cryptopp/basecode.cpp:210-223 | More text only continues the last group or begins a new one |
| `Grouping.Grouper.Put` | contrib/cryptopp/basecode.cpp:205-234 | After the end of a message the output has grown by the grouped text and the terminator, however it was cut into calls |
| `BaseRoundTrip.GroupsSignificant` | contrib/cryptopp/basecode.cpp:205-234 | Separators without a value do not matter to the decoder |
| `BaseRoundTrip.TextSignificant` | contrib/cryptopp/basecode.cpp:39-104 | Nor do padding and terminator |
| `BaseRoundTrip.TableInverts` | contrib/cryptopp/basecode.cpp:169-188 | A table built for an alphabet of the right size finds all its letters, as the round trip needs, if and only if no character stands for two values |
| `BaseRoundTrip.Encode` | contrib/cryptopp/basecode.cpp:39-104 | The text of the one encoding of the whole message, however it came in pieces |
| `BaseRoundTrip.Group` | contrib/cryptopp/basecode.cpp:205-234 | The grouping of a text in pieces |
| `BaseRoundTrip.Decode` | contrib/cryptopp/basecode.cpp:124-167 | The bytes of a text in pieces |
| `BaseRoundTrip.RoundTrip` | contrib/cryptopp/basecode.cpp:39-234 | For widths 1 to 7, any alphabet, padding, grouping and any cuts of message and text, decoding returns the message, provided padding, separator and terminator have no value |
| `BaseRoundTrip.EncodeAndDecode` | contrib/cryptopp/basecode.cpp:39-234 | Building the table, encoding, grouping and decoding one after the other, with every text cut anywhere, returns the message |
| `AmbiguousAlphabets.ReadBackExactly` | contrib/cryptopp/basecode.cpp:169-188 | With an alphabet of the right size and its table, every message is read back if and only if no character stands for two values |
| `AmbiguousAlphabets.ReadAsOther` | contrib/cryptopp/basecode.cpp:124-167 | Otherwise a block of one value is a message that is read as another |
| `AmbiguousAlphabets.LettersOfOneBit` | contrib/cryptopp/basecode.cpp:169-188 | "aA" is ambiguous for one bit if and only if case does not matter |
| `BinaryField.MulU` | contrib/cryptopp/cmac.cpp:11-41 | For the sizes with a polynomial the block is multiplied by x modulo it, in place; any other size, odd ones included, is shifted and fails exactly if a bit is carried out |
| `BinaryField.ShiftLeft` | contrib/cryptopp/cmac.cpp:15-21 | The loop shifts the block left by one bit, except for the first byte of an odd number, and returns the bit that falls out |
| `BinaryField.FlipPolynomial` | contrib/cryptopp/cmac.cpp:23-40 | The bytes that the switch changes |
| `BinaryField.ShiftAndFlipDoubles` | contrib/cryptopp/cmac.cpp:15-40 | Shift and flip are multiplication by x modulo the polynomial |
| `BinaryField.DoubleUnique` | contrib/cryptopp/cmac.cpp:11-41 | There is only one such product |
| `BinaryField.DoublesInFieldExactly` | contrib/cryptopp/cmac.cpp:33-36 | It is doubling in the field if and only if the block is not 32 bytes long or its top bit is clear |
| `BinaryField.CodePolynomialFactors` | contrib/cryptopp/cmac.cpp:33-36 | The polynomial used for 32 bytes is a product, so no field belongs to it |
| `Cmac.AdvancedProcessBlocks` | contrib/cryptopp/cryptlib.cpp:141-177 | Cipher block chaining of all complete blocks, and how many bytes are left over |
| `Cmac.ChainMore` | contrib/cryptopp/cmac.cpp:58-97 | Hashing on depends only on the chaining value and the block held back |
| `Cmac.HeldBack` | contrib/cryptopp/cmac.cpp:66-97 | The block held back has ((n - 1) mod size) + 1 bytes, and they are the last of the message |
| `Cmac.BlocksChain` | contrib/cryptopp/cmac.cpp:81-87 | All blocks but the last byte's may be processed early |
| `Cmac.DeriveSubkeys` | contrib/cryptopp/cmac.cpp:52-55 | The two subkeys are the encrypted zero block doubled once and twice |
| `Cmac.SubkeysUnique` | contrib/cryptopp/cmac.cpp:52-55 | and nothing else is |
| `Cmac.CmacBase.constructor` | contrib/cryptopp/cmac.cpp:43-56 | Subkeys derived, nothing hashed |
| `Cmac.CmacBase.FillBlock` | contrib/cryptopp/cmac.cpp:66-79 | Fills up the last block and encrypts it only if more bytes follow |
| `Cmac.CmacBase.ProcessComplete` | contrib/cryptopp/cmac.cpp:81-87 | Processes all but the last block |
| `Cmac.CmacBase.Update` | contrib/cryptopp/cmac.cpp:58-97 | The register stands for the whole message, however it was cut; its assertions hold |
| `Cmac.CmacBase.FinishBlock` | contrib/cryptopp/cmac.cpp:106-112 | Complete and padded last blocks with their subkeys give the one-shot MAC |
| `Cmac.CmacBase.TruncatedFinal` | contrib/cryptopp/cmac.cpp:99-118 | The first bytes of the MAC of the message, then a new message; too large a size is refused |
| `Cmac.MacOfPieces` | contrib/cryptopp/cmac.cpp:58-118 | For every message and every way to cut it, the MAC of the message |
| `Adler.AddOddBytes` | contrib/cryptopp/adler32.cpp:15-27 | The first loop adds its bytes, and one subtraction reduces s1 |
| `Adler.AddEightBytes` | contrib/cryptopp/adler32.cpp:31-38 | Eight bytes are added and s2 stays within 32 bits |
| `Adler.AddGroups` | contrib/cryptopp/adler32.cpp:29-47 | s2 stays within 32 bits between reductions, and both sums are reduced at the end: the assertions hold |
| `Adler.Adler32.Update` | contrib/cryptopp/adler32.cpp:8-54 | The sums are those of the whole message modulo 65521, however it was cut |
| `Adler.Adler32.TruncatedFinal` | contrib/cryptopp/adler32.cpp:56-75 | The first bytes of s2 and s1 in network order, then a new message; more than four are refused |
| `Adler.ChecksumOfPieces` | contrib/cryptopp/adler32.cpp:8-75 | For every message and every way to cut it, its checksum |

## Left out

- The EDNS fallback of `process_answer`, which rewrites a query's buffer: the engine is modelled with that flag off.
- Callbacks that call into the channel, other than by submitting requests during `ares_cancel` or after an accepted answer; in particular submissions after a failure or during `ares_destroy`, and `ares_set_servers` on a channel with live queries.
- Engine.Channel.Run: the callbacks of queries that fail hand in nothing; new requests after a failure are events of their own. After a cancellation it no longer promises that queued requests belong to live queries, nor what the connections have written since, as `ares_cancel` does not keep that.
- Query ids are arbitrary inputs: how they are chosen, and whether they are unique, is not modelled.
- The source address tests of `read_udp_packets`.
- Engine.Channel.FindQuery: `same_questions` is an arbitrary predicate.
- Engine.Channel.ProcessAnswer: `same_questions` is an arbitrary predicate, and a callback is its query and status, without the bytes and the count of timeouts it gets.
- Sockets, `select`, reading UDP packets and the loop over several ready sockets: a step is an event for one server.
- Integer widths in c-ares: `int` counters, times and lengths are mathematical integers.
- Allocation failure in the codecs and digests.
- Unused parts of the c-ares library (options, host files, record parsers) and of Crypto++ (ciphers, other filters, `Integer` arithmetic).
- Tables.Placed, Engine.Channel: the lists of the engine are sequences of query references; RingTables proves for one table at a time that the rings of nodes behave like them, but the engine does not hold those rings itself.
- EngineState.SendRequest: a reference to a query is never used again, so a request of a freed query does not turn into one of another query at the same address.
- SendQueues.AdvanceTcpSendQueue: the queue of requests is a sequence and a request carries its unsent bytes; that they lie in the buffer of a live query is an invariant, not a pointer.
- TcpFraming.TcpReader.ReadTcpData: the reading side of a server is modelled apart from the engine; what `process_answer` does with a message is the event `Answer`, and socket errors, the end of the stream and a failed allocation are the event `ReadError`.
- Engine.Channel.CloseSockets: that it also resets the input buffer is stated for TcpFraming.TcpReader.Reset.
- Euclid.Gcd: the template serves any Euclidean domain; the model has the integers, with the division of `Integer`.
- Euclid.MultiplicativeInverse: for the integers only, as above.
- Cmac.AdvancedProcessBlocks: only the mode that CMAC uses, with the register staying in place and xored with the input; no counters, no reverse direction, no moving input and output.
- StdHeap.MakeHeap, StdHeap.PopHeap, StdHeap.PushHeap: the standard library's heap is given by its contract, with sorting as one way to meet it.
- BinaryField.FieldPolynomial: that the other polynomials are irreducible is not proved, only that the one for 32 bytes in the code is not.
- Cmac.Cipher: a block cipher is any function from blocks to blocks; key schedules are not modelled.
- Ipv6Parse.Parsed: where the shift leaves its buffer the result is the value Undefined, not what the write destroys; the IPv4 reader `inet_net_pton_ipv4` is not modelled.
- Ipv6Text.InetNtop6: the text is built as a string; that it fits into the buffer of 46 characters is proved from its length.
- The `FILTER_` macros that let a blocked attachment interrupt `Put2`: output is taken at once.
- Group elements of Crypto++ that alias (`result` members reused by `Add` and `Double`): group elements are values.
