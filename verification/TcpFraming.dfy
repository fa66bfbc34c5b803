/** Incoming TCP messages: each comes after its length in two bytes (section 4.2.2 of RFC 1035), and
    the reads of `read_tcp_data` may cut the stream anywhere. */
module TcpFraming {
  import opened Common

  function Length(high: Byte, low: Byte): nat {
    var h: int := high;
    h * 256 + low
  }

  ghost predicate FitsFrame(message: seq<Byte>) {
    |message| < 65536
  }

  /** A message after its length. */
  ghost function Frame(message: seq<Byte>): seq<Byte>
    requires FitsFrame(message)
  {
    [|message| / 256, |message| % 256] + message
  }

  ghost predicate AllFit(messages: seq<seq<Byte>>) {
    forall i :: 0 <= i < |messages| ==> FitsFrame(messages[i])
  }

  /** The stream that carries the messages. */
  ghost function Stream(messages: seq<seq<Byte>>): seq<Byte>
    requires AllFit(messages)
  {
    if messages == [] then [] else Frame(messages[0]) + Stream(messages[1..])
  }

  /** The complete messages at the beginning of a stream, and what is left of it. */
  datatype Parsed = Parsed(messages: seq<seq<Byte>>, rest: seq<Byte>)

  ghost predicate Incomplete(s: seq<Byte>) {
    |s| < 2 || |s| < 2 + Length(s[0], s[1])
  }

  ghost function Parse(s: seq<Byte>): (p: Parsed)
    ensures Incomplete(p.rest)
    decreases |s|
  {
    if Incomplete(s) then Parsed([], s)
    else
      var n := 2 + Length(s[0], s[1]);
      var p := Parse(s[n..]);
      Parsed([s[2..n]] + p.messages, p.rest)
  }

  lemma ParseFirst(s: seq<Byte>)
    requires !Incomplete(s)
    ensures var n := 2 + Length(s[0], s[1]); var p := Parse(s[n..]); Parse(s) == Parsed([s[2..n]] + p.messages, p.rest)
  {
  }

  /** The first message of a stream that goes on is the same. */
  lemma FirstStays(s: seq<Byte>, t: seq<Byte>)
    requires !Incomplete(s)
    ensures !Incomplete(s + t)
    ensures var n := 2 + Length(s[0], s[1]);
      n == 2 + Length((s + t)[0], (s + t)[1]) && (s + t)[2..n] == s[2..n] && (s + t)[n..] == s[n..] + t
  {
  }

  lemma Associate<E>(a: seq<E>, b: seq<E>, c: seq<E>)
    ensures a + (b + c) == a + b + c
  {
  }

  /** More bytes only continue what was left. */
  lemma {:induction false} ParseMore(s: seq<Byte>, t: seq<Byte>)
    ensures Parse(s + t) == Parsed(Parse(s).messages + Parse(Parse(s).rest + t).messages, Parse(Parse(s).rest + t).rest)
    decreases |s|
  {
    if Incomplete(s) {
      var m := Parse(s + t).messages;
      assert Parse(s) == Parsed([], s);
      assert [] + m == m;
    } else {
      ParseFirst(s);
      FirstStays(s, t);
      ParseFirst(s + t);
      var n := 2 + Length(s[0], s[1]);
      hide Parse, Incomplete;
      ParseMore(s[n..], t);
      var p := Parse(s[n..]);
      Associate([s[2..n]], p.messages, Parse(p.rest + t).messages);
    }
  }

  lemma {:induction false} StreamMore(messages: seq<seq<Byte>>, m: seq<Byte>)
    requires AllFit(messages) && FitsFrame(m)
    ensures AllFit(messages + [m]) && Stream(messages + [m]) == Stream(messages) + Frame(m)
  {
    if messages == [] {
      assert messages + [m] == [m] && Stream([m][1..]) == [];
    } else {
      assert (messages + [m])[1..] == messages[1..] + [m];
      StreamMore(messages[1..], m);
      Associate(Frame(messages[0]), Stream(messages[1..]), Frame(m));
    }
  }

  /** Parsing a stream gives back its messages. */
  lemma {:induction false} StreamParses(messages: seq<seq<Byte>>)
    requires AllFit(messages)
    ensures Parse(Stream(messages)) == Parsed(messages, [])
  {
    if messages != [] {
      var m, rest := messages[0], Stream(messages[1..]);
      var s := Frame(m) + rest;
      assert s[2..2 + |m|] == m && s[2 + |m|..] == rest;
      StreamParses(messages[1..]);
    }
  }

  /** The part of a server's state that reads TCP messages. */
  class TcpReader {
    var lenbuf: array<Byte>
    var lenbufPos: nat
    var tcpLength: nat
    var buffer: array?<Byte>
    var bufferPos: nat
    // All bytes read on this connection, and the messages handed to process_answer
    ghost var consumed: seq<Byte>
    ghost var delivered: seq<seq<Byte>>

    ghost predicate Valid()
      reads this, lenbuf, buffer
    {
      && lenbuf.Length == 2 && lenbufPos <= 2
      && (lenbufPos == 2 ==>
            buffer != null && buffer != lenbuf && buffer.Length == tcpLength == Length(lenbuf[0], lenbuf[1])
            && (bufferPos < tcpLength || tcpLength == 0 == bufferPos))
      && (lenbufPos == 2 && tcpLength == 0 ==> Parse(consumed) == Parsed(delivered + [[]], []))
      && (lenbufPos < 2 || tcpLength > 0 ==>
            Parse(consumed) == Parsed(delivered, if lenbufPos < 2 then lenbuf[..lenbufPos] else lenbuf[..] + buffer[..bufferPos]))
    }

    /** A length of zero was read, so that the next read asks for nothing. */
    predicate Stuck()
      reads this
    {
      lenbufPos == 2 && tcpLength == 0
    }

    constructor ()
      ensures Valid() && consumed == [] && delivered == [] && fresh(lenbuf) && lenbufPos == 0 && buffer == null
    {
      lenbuf := new Byte[2];
      lenbufPos, tcpLength, buffer, bufferPos, consumed, delivered := 0, 0, null, 0, [], [];
    }

    /** The read of the length, or of what is left of it; the second byte decides the buffer size. */
    method ReadLength(available: seq<Byte>) returns (count: nat)
      requires Valid() && lenbufPos < 2 && available != []
      modifies this, lenbuf
      ensures Valid() && lenbuf == old(lenbuf) && (buffer == old(buffer) || (buffer != null && fresh(buffer)))
      ensures 0 < count <= |available| && consumed == old(consumed) + available[..count]
      ensures delivered == old(delivered)
    {
      count := ReadInto(lenbuf, lenbufPos, 2 - lenbufPos, available);
      hide Parse, Incomplete, Length;
      ghost var part := old(lenbuf[..lenbufPos]);
      LengthRead(consumed, part, available[..count]);
      consumed := consumed + available[..count];
      lenbufPos := lenbufPos + count;
      if lenbufPos == 2 {
        tcpLength := Length(lenbuf[0], lenbuf[1]);
        buffer := new Byte[tcpLength];
        bufferPos := 0;
        assert lenbuf[..] == lenbuf[..2] && lenbuf[..] + buffer[..0] == lenbuf[..];
      }
    }

    /** The read of the message, or of what is left of it; a complete one is handed over. */
    method ReadMessage(available: seq<Byte>) returns (count: nat)
      requires Valid() && lenbufPos == 2 && tcpLength > 0 && available != []
      modifies this, buffer
      ensures Valid() && lenbuf == old(lenbuf) && (buffer == old(buffer) || buffer == null)
      ensures 0 < count <= |available| && consumed == old(consumed) + available[..count]
      ensures [] !in old(delivered) ==> [] !in delivered
    {
      hide Parse, Incomplete, Length;
      ghost var part := lenbuf[..] + buffer[..bufferPos];
      count := ReadInto(buffer, bufferPos, tcpLength - bufferPos, available);
      ghost var chunk := available[..count];
      assert part + chunk == lenbuf[..] + buffer[..bufferPos + count];
      bufferPos := bufferPos + count;
      MessageRead(consumed, part, chunk);
      if bufferPos == tcpLength {
        assert (lenbuf[..] + buffer[..bufferPos])[2..] == buffer[..];
        delivered := delivered + [buffer[..]];
        buffer := null;
        lenbufPos := 0;
        bufferPos := 0;
        assert lenbuf[..0] == [];
      }
      consumed := consumed + chunk;
    }

    /** One readable event: reads up to what is missing of the length or of the message, as many
        bytes as the socket gives (at least one). A message of length zero makes the next read ask
        for nothing, which counts as an error of the connection. */
    method ReadTcpData(available: seq<Byte>) returns (count: nat, error: bool)
      requires Valid() && available != []
      modifies this, lenbuf, buffer
      ensures Valid() && lenbuf == old(lenbuf) && (buffer == old(buffer) || buffer == null || fresh(buffer))
      ensures error <==> old(Stuck())
      ensures count <= |available| && (count == 0 <==> error) && consumed == old(consumed) + available[..count]
      ensures error ==> delivered == old(delivered) && Stuck()
      ensures [] !in old(delivered) ==> [] !in delivered
    {
      count, error := 0, false;
      if lenbufPos != 2 {
        count := ReadLength(available);
      } else if tcpLength - bufferPos == 0 {
        error := true;
      } else {
        count := ReadMessage(available);
      }
    }

    /** `ares__close_sockets` on the input side: the next connection starts with a length. */
    method Reset()
      requires lenbuf.Length == 2
      modifies this
      ensures Valid() && consumed == [] && delivered == [] && lenbuf == old(lenbuf)
    {
      buffer := null;
      lenbufPos := 0;
      consumed, delivered := [], [];
      assert lenbuf[..0] == [];
    }
  }

  /** `sread`: any number of the available bytes, at least one, and no more than asked for. */
  method ReadInto(a: array<Byte>, pos: nat, want: nat, available: seq<Byte>) returns (count: nat)
    requires want > 0 && pos + want <= a.Length && available != []
    modifies a
    ensures 1 <= count <= want && count <= |available|
    ensures a[..pos + count] == old(a[..pos]) + available[..count]
  {
    count :| 1 <= count <= want && count <= |available|;
    forall i | 0 <= i < count {
      a[pos + i] := available[i];
    }
  }

  lemma ParseGoesOn(consumed: seq<Byte>, chunk: seq<Byte>)
    ensures Incomplete(Parse(consumed).rest + chunk) ==>
      Parse(consumed + chunk) == Parsed(Parse(consumed).messages, Parse(consumed).rest + chunk)
  {
    ParseMore(consumed, chunk);
    assert Parse(consumed).messages + [] == Parse(consumed).messages;
  }

  lemma ParseExactly(s: seq<Byte>, message: seq<Byte>)
    requires |s| >= 2 && Length(s[0], s[1]) == |message| && s[2..] == message
    ensures Parse(s) == Parsed([message], [])
  {
    ParseFirst(s);
    var n := 2 + |message|;
    assert s[2..n] == message && s[n..] == [];
    assert Parse([]) == Parsed([], []);
    assert [message] + [] == [message];
  }

  lemma ParseCompletes(consumed: seq<Byte>, chunk: seq<Byte>, message: seq<Byte>)
    requires var s := Parse(consumed).rest + chunk; |s| >= 2 && Length(s[0], s[1]) == |message| && s[2..] == message
    ensures Parse(consumed + chunk) == Parsed(Parse(consumed).messages + [message], [])
  {
    hide Parse;
    ParseMore(consumed, chunk);
    ParseExactly(Parse(consumed).rest + chunk, message);
  }

  /** What reading bytes of the length leaves: still part of it, or all of it. */
  lemma LengthRead(consumed: seq<Byte>, part: seq<Byte>, chunk: seq<Byte>)
    requires Parse(consumed).rest == part && |part| + |chunk| <= 2
    ensures var s := part + chunk;
      if |s| == 2 && Length(s[0], s[1]) == 0 then Parse(consumed + chunk) == Parsed(Parse(consumed).messages + [[]], [])
      else Parse(consumed + chunk) == Parsed(Parse(consumed).messages, s)
  {
    var s := part + chunk;
    if |s| == 2 && Length(s[0], s[1]) == 0 {
      ParseCompletes(consumed, chunk, []);
    } else {
      ParseGoesOn(consumed, chunk);
    }
  }

  /** What reading bytes of the message leaves: still part of it, or nothing. */
  lemma MessageRead(consumed: seq<Byte>, part: seq<Byte>, chunk: seq<Byte>)
    requires Parse(consumed).rest == part && |part| >= 2 && |part| + |chunk| <= 2 + Length(part[0], part[1])
    ensures var s := part + chunk;
      if |s| == 2 + Length(part[0], part[1]) then Parse(consumed + chunk) == Parsed(Parse(consumed).messages + [s[2..]], [])
      else Parse(consumed + chunk) == Parsed(Parse(consumed).messages, s)
  {
    var s := part + chunk;
    if |s| == 2 + Length(part[0], part[1]) {
      ParseCompletes(consumed, chunk, s[2..]);
    } else {
      ParseGoesOn(consumed, chunk);
    }
  }

  /** The messages before the first empty one. */
  ghost function BeforeEmpty(messages: seq<seq<Byte>>): seq<seq<Byte>> {
    if messages == [] || messages[0] == [] then [] else [messages[0]] + BeforeEmpty(messages[1..])
  }

  lemma {:induction false} NoneEmpty(messages: seq<seq<Byte>>)
    requires [] !in messages
    ensures BeforeEmpty(messages) == messages
  {
    if messages != [] {
      assert messages == [messages[0]] + messages[1..];
      NoneEmpty(messages[1..]);
    }
  }

  lemma {:induction false} FirstEmpty(delivered: seq<seq<Byte>>, more: seq<seq<Byte>>)
    requires [] !in delivered
    ensures BeforeEmpty(delivered + [[]] + more) == delivered
  {
    var all := delivered + [[]] + more;
    if delivered != [] {
      assert delivered == [delivered[0]] + delivered[1..];
      assert all[1..] == delivered[1..] + [[]] + more;
      FirstEmpty(delivered[1..], more);
    }
  }

  /** For every way the reads cut the stream of some messages, exactly those before the first empty one are
      handed over, in order. The reads get stuck exactly if some message is empty, and run into an error
      exactly if more messages follow it. */
  method Receive(reader: TcpReader, messages: seq<seq<Byte>>, stream: seq<Byte>) returns (error: bool)
    requires reader.Valid() && reader.consumed == [] && reader.delivered == [] && reader.lenbufPos == 0
    requires AllFit(messages) && stream == Stream(messages)
    modifies reader, reader.lenbuf, reader.buffer
    ensures reader.Valid() && reader.consumed <= stream && (!error ==> reader.consumed == stream)
    ensures reader.delivered == BeforeEmpty(messages)
    ensures reader.Stuck() <==> [] in messages
    ensures error <==> exists i :: 0 <= i < |messages| - 1 && messages[i] == []
  {
    hide Parse, Incomplete, Stream, AllFit, BeforeEmpty;
    var got := 0;
    error := false;
    StreamParses(messages);
    while got < |stream| && !error
      invariant reader.Valid() && got <= |stream|
      invariant reader.consumed == stream[..got] && [] !in reader.delivered
      invariant error ==> reader.Stuck() && got < |stream|
      invariant reader.lenbuf == old(reader.lenbuf)
      invariant reader.buffer == old(reader.buffer) || reader.buffer == null || fresh(reader.buffer)
      decreases |stream| - got, !error
    {
      var count;
      count, error := reader.ReadTcpData(stream[got..]);
      assert stream[..got + count] == stream[..got] + stream[got..][..count];
      got := got + count;
    }
    WhatWasRead(messages, stream, got, reader.delivered, reader.Stuck());
  }

  /** What has been read says what is delivered, and whether more follows an empty message. */
  lemma WhatWasRead(messages: seq<seq<Byte>>, stream: seq<Byte>, got: nat, delivered: seq<seq<Byte>>, stuck: bool)
    requires Parse(stream) == Parsed(messages, []) && got <= |stream| && [] !in delivered && (!stuck ==> got == |stream|)
    requires if stuck then Parse(stream[..got]) == Parsed(delivered + [[]], []) else Parse(stream[..got]).messages == delivered
    ensures delivered == BeforeEmpty(messages) && (stuck <==> [] in messages)
    ensures stuck && got < |stream| <==> exists i :: 0 <= i < |messages| - 1 && messages[i] == []
  {
    hide Parse, BeforeEmpty;
    if stuck {
      var more := StuckRead(messages, stream, got, delivered);
      FirstEmpty(delivered, more);
      EmptyAt(delivered, more);
    } else {
      assert stream[..got] == stream;
      NoneEmpty(messages);
    }
  }

  /** The messages behind the empty one at which the reads are stuck. */
  lemma StuckRead(messages: seq<seq<Byte>>, stream: seq<Byte>, got: nat, delivered: seq<seq<Byte>>) returns (more: seq<seq<Byte>>)
    requires Parse(stream) == Parsed(messages, []) && got <= |stream|
    requires Parse(stream[..got]) == Parsed(delivered + [[]], [])
    ensures messages == delivered + [[]] + more && (got < |stream| <==> more != [])
  {
    hide Parse;
    var rest := stream[got..];
    SplitJoins(stream, got);
    ParseMore(stream[..got], rest);
    assert [] + rest == rest;
    SomethingLeft(rest);
    more := Parse(rest).messages;
  }

  /** Where the first empty message stands, and whether one has something behind it. */
  lemma EmptyAt(delivered: seq<seq<Byte>>, more: seq<seq<Byte>>)
    requires [] !in delivered
    ensures var all := delivered + [[]] + more;
      [] in all && (more != [] <==> exists i :: 0 <= i < |all| - 1 && all[i] == [])
  {
    var all, n := delivered + [[]] + more, |delivered|;
    assert all[n] == [];
    forall i | 0 <= i < n
      ensures all[i] != []
    {
      assert all[i] == delivered[i] && delivered[i] in delivered;
    }
  }

  lemma SomethingLeft(rest: seq<Byte>)
    ensures Parse(rest).rest == [] ==> (rest == [] <==> Parse(rest).messages == [])
  {
  }

  lemma SplitJoins<E>(s: seq<E>, i: nat)
    requires i <= |s|
    ensures s[..i] + s[i..] == s
  {
  }

  /** After a message of length zero the next one is lost. */
  method EmptyMessageFails() returns (reader: TcpReader, error: bool)
    ensures reader.Valid() && reader.delivered == [[1]] && error
  {
    var messages: seq<seq<Byte>> := [[1], [], [2]];
    reader := new TcpReader();
    EmptyInside();
    error := Receive(reader, messages, [0, 1, 1, 0, 0, 0, 1, 2]);
    assert messages[1] == [];
  }

  lemma EmptyInside()
    ensures AllFit([[1], [], [2]]) && Stream([[1], [], [2]]) == [0, 1, 1, 0, 0, 0, 1, 2]
    ensures BeforeEmpty([[1], [], [2]]) == [[1]]
  {
    var messages: seq<seq<Byte>> := [[1], [], [2]];
    assert messages[1..] == [[], [2]] && messages[1..][1..] == [[2]] && messages[1..][1..][1..] == [];
    assert Stream([[2]]) == [0, 1, 2];
    assert Stream([[], [2]]) == [0, 0] + [0, 1, 2];
  }
}
