/** Building a query message from a textual name (`ares_create_query`; sections 2.3.4, 3.1 and 4.1
    of RFC 1035), and the round trip with the expansion of encoded names. */
module DnsQuery {
  import opened AresStatus
  import opened Common
  import opened DnsNames

  // The programs use these names; what they are proved against has the numbers written out.
  const MAXCDNAME := 255
  const MAXLABEL := 63
  const HFIXEDSZ := 12
  const QFIXEDSZ := 4
  const EDNSFIXEDSZ := 11
  const T_OPT := 41

  /** A C string: its bytes up to, and without, the terminating NUL. */
  ghost predicate NulFree(s: seq<Byte>) {
    0 !in s
  }

  // ----- reading the text form

  /** The first label of a text with its escapes resolved, and the text after its dot, if any. */
  datatype Cut = Cut(bytes: seq<Byte>, rest: Option<seq<Byte>>)

  function CutLabel(t: seq<Byte>): (c: Cut)
    ensures c.rest.Some? ==> |c.rest.value| < |t|
  {
    if t == [] then Cut([], None)
    else if t[0] == 46 then Cut([], Some(t[1..]))
    else if t[0] == 92 && |t| > 1 then
      var c := CutLabel(t[2..]);
      Cut([t[1]] + c.bytes, c.rest)
    else
      var c := CutLabel(t[1..]);
      Cut([t[0]] + c.bytes, c.rest)
  }

  /** The labels of a text; none if some label is empty or longer than 63 bytes. */
  function LabelsOf(t: seq<Byte>): Option<seq<seq<Byte>>>
    decreases |t|
  {
    if t == [] then Some([])
    else
      var c := CutLabel(t);
      if t[0] == 46 || |c.bytes| > 63 then None
      else if c.rest.None? then Some([c.bytes])
      else
        match LabelsOf(c.rest.value)
        case None => None
        case Some(labels) => Some([c.bytes] + labels)
  }

  // ----- the encoded form, and the canonical text form

  ghost predicate ValidLabels(labels: seq<seq<Byte>>) {
    forall i :: 0 <= i < |labels| ==> 1 <= |labels[i]| <= 63 && NulFree(labels[i])
  }

  /** Each label after its length, and a zero label at the end. */
  function Wire(labels: seq<seq<Byte>>): seq<Byte>
    requires forall i :: 0 <= i < |labels| ==> |labels[i]| <= 63
  {
    if labels == [] then [0] else [|labels[0]|] + labels[0] + Wire(labels[1..])
  }

  /** The labels escaped and separated by dots. */
  function Join(labels: seq<seq<Byte>>): seq<Byte> {
    if labels == [] then []
    else if |labels| == 1 then Escape(labels[0])
    else Escape(labels[0]) + [46] + Join(labels[1..])
  }

  // ----- text -> labels -> text

  lemma {:induction false} CutEscaped(bytes: seq<Byte>, tail: seq<Byte>)
    requires tail == [] || tail[0] == 46
    ensures CutLabel(Escape(bytes) + tail) == Cut(bytes, if tail == [] then None else Some(tail[1..]))
  {
    var t := Escape(bytes) + tail;
    if bytes == [] {
      assert t == tail;
    } else {
      CutEscaped(bytes[1..], tail);
      var e := EscapeByte(bytes[0]);
      var t' := Escape(bytes[1..]) + tail;
      assert t == e + t' && t[|e|..] == t';
      assert bytes == [bytes[0]] + bytes[1..];
    }
  }

  /** Every list of valid labels is read back from its text. */
  lemma {:induction false} JoinedLabels(labels: seq<seq<Byte>>)
    requires ValidLabels(labels)
    ensures LabelsOf(Join(labels)) == Some(labels)
  {
    if labels != [] {
      var first, rest := labels[0], labels[1..];
      var tail := if rest == [] then [] else [46] + Join(rest);
      CutEscaped(first, tail);
      assert Join(labels) == Escape(first) + tail;
      assert first == [first[0]] + first[1..];
      assert Join(labels)[0] == EscapeByte(first[0])[0] != 46;
      assert labels == [first] + rest;
      if rest == [] {
        assert labels == [first];
      } else {
        JoinedLabels(rest);
        assert tail[1..] == Join(rest);
      }
    }
  }

  lemma {:induction false} CutNulFree(t: seq<Byte>)
    requires NulFree(t)
    ensures NulFree(CutLabel(t).bytes)
    ensures CutLabel(t).rest.Some? ==> NulFree(CutLabel(t).rest.value)
    ensures t != [] && t[0] != 46 ==> CutLabel(t).bytes != []
  {
    if t == [] || t[0] == 46 {
    } else if t[0] == 92 && |t| > 1 {
      CutNulFree(t[2..]);
    } else {
      CutNulFree(t[1..]);
    }
  }

  /** The labels of any accepted text are valid. */
  lemma {:induction false} LabelsValid(t: seq<Byte>)
    requires NulFree(t) && LabelsOf(t).Some?
    ensures ValidLabels(LabelsOf(t).value)
    decreases |t|
  {
    if t != [] {
      CutNulFree(t);
      if CutLabel(t).rest.Some? {
        LabelsValid(CutLabel(t).rest.value);
      }
    }
  }

  // ----- labels -> message -> text

  /** What the expansion writes for a list of labels: a dot after every one. */
  function Dotted(labels: seq<seq<Byte>>): seq<Byte> {
    if labels == [] then [] else Escape(labels[0]) + [46] + Dotted(labels[1..])
  }

  lemma {:induction false} DottedIsJoin(labels: seq<seq<Byte>>)
    requires labels != []
    ensures Dotted(labels) == Join(labels) + [46]
  {
    if |labels| == 1 {
      assert Dotted(labels[1..]) == [];
    } else {
      DottedIsJoin(labels[1..]);
    }
  }

  ghost predicate Holds(m: seq<Byte>, p: nat, w: seq<Byte>) {
    p + |w| <= |m| && m[p..p + |w|] == w
  }

  /** Where the first label and the others stand in the message. */
  lemma WireSplit(m: seq<Byte>, p: nat, labels: seq<seq<Byte>>)
    requires ValidLabels(labels) && labels != [] && Holds(m, p, Wire(labels))
    ensures var next := p + |labels[0]| + 1;
      next < |m| && m[p] == |labels[0]| && m[p + 1..next] == labels[0] && Holds(m, next, Wire(labels[1..]))
  {
    var first, rest := labels[0], Wire(labels[1..]);
    HoldsParts(m, p, [|first|] + first, rest);
    HoldsParts(m, p, [|first|], first);
    assert m[p..p + 1][0] == m[p];
    WireNonempty(labels[1..]);
  }

  lemma HoldsParts(m: seq<Byte>, p: nat, u: seq<Byte>, v: seq<Byte>)
    requires Holds(m, p, u + v)
    ensures Holds(m, p, u) && Holds(m, p + |u|, v)
  {
    var w, n := u + v, |u|;
    assert forall k :: 0 <= k < |w| ==> m[p + k] == m[p..p + |w|][k] == w[k];
    assert m[p..p + n] == u by {
      assert forall k :: 0 <= k < n ==> u[k] == w[k];
    }
    assert m[p + n..p + n + |v|] == v by {
      assert forall k :: 0 <= k < |v| ==> v[k] == w[n + k];
    }
  }

  /** Uncompressed labels in a message expand to their dotted text and take their wire length. */
  lemma {:induction false} WireExpands(m: seq<Byte>, p: nat, labels: seq<seq<Byte>>, budget: nat)
    requires ValidLabels(labels) && Holds(m, p, Wire(labels))
    ensures Expand(m, p, budget) == Some(Expansion(Dotted(labels), |Wire(labels)|))
    decreases labels
  {
    hide Expand, Escape, Holds;
    ExpandStep(m, p, budget);
    if labels == [] {
      HoldsRoot(m, p);
    } else {
      WireSplit(m, p, labels);
      WireExpands(m, p + |labels[0]| + 1, labels[1..], budget);
    }
  }

  lemma HoldsRoot(m: seq<Byte>, p: nat)
    requires Holds(m, p, Wire([]))
    ensures p < |m| && m[p] == 0
  {
    assert m[p..p + 1][0] == m[p];
  }

  lemma WireNonempty(labels: seq<seq<Byte>>)
    requires forall i :: 0 <= i < |labels| ==> |labels[i]| <= 63
    ensures |Wire(labels)| >= 1
  {
  }

  /** What a query built for a text says on the wire is the canonical form of that text: expanding
      it gives the joined labels, and reading those again gives the same labels. */
  lemma QueryNameExpands(m: seq<Byte>, p: nat, t: seq<Byte>)
    requires NulFree(t) && LabelsOf(t).Some?
    requires ValidLabels(LabelsOf(t).value) ==> Holds(m, p, Wire(LabelsOf(t).value))
    ensures ValidLabels(LabelsOf(t).value)
    ensures Expand(m, p, |m|).Some?
    ensures var e := Expand(m, p, |m|).value;
      Name(e) == Join(LabelsOf(t).value) && e.enclen == |Wire(LabelsOf(t).value)| && LabelsOf(Name(e)) == LabelsOf(t)
  {
    LabelsValid(t);
    var labels := LabelsOf(t).value;
    WireExpands(m, p, labels, |m|);
    if labels != [] {
      DottedIsJoin(labels);
    }
    JoinedLabels(labels);
  }

  // ----- the length count

  /** Bytes of a text with every escape pair counted once. */
  function Units(t: seq<Byte>): nat {
    if t == [] then 0
    else if t[0] == 92 && |t| > 1 then 1 + Units(t[2..])
    else 1 + Units(t[1..])
  }

  function CountedLength(t: seq<Byte>): nat {
    1 + Units(t) + if t != [] && t[|t| - 1] != 46 then 1 else 0
  }

  /** The last byte is a dot that separates, not one that is escaped. */
  predicate EndsInSeparator(t: seq<Byte>) {
    if t == [] then false
    else if t[0] == 92 && |t| > 1 then EndsInSeparator(t[2..])
    else if |t| == 1 then t[0] == 46
    else EndsInSeparator(t[1..])
  }

  predicate EndsInEscapedDot(t: seq<Byte>) {
    t != [] && t[|t| - 1] == 46 && !EndsInSeparator(t)
  }

  lemma {:induction false} SeparatorIsDot(t: seq<Byte>)
    requires EndsInSeparator(t)
    ensures t != [] && t[|t| - 1] == 46
  {
    if t[0] == 92 && |t| > 1 {
      SeparatorIsDot(t[2..]);
    } else if |t| > 1 {
      SeparatorIsDot(t[1..]);
    }
  }

  /** How cutting off the first label splits the units and decides the end. */
  lemma {:induction false} CutUnits(t: seq<Byte>)
    requires t != []
    ensures var c := CutLabel(t);
      && Units(t) == |c.bytes| + (if c.rest.Some? then 1 + Units(c.rest.value) else 0)
      && (EndsInSeparator(t) <==> c.rest.Some? && (c.rest.value == [] || EndsInSeparator(c.rest.value)))
  {
    if t[0] == 46 {
    } else if t[0] == 92 && |t| > 1 {
      if |t| > 2 {
        CutUnits(t[2..]);
      }
    } else if |t| > 1 {
      CutUnits(t[1..]);
    }
  }

  /** The true length on the wire. */
  lemma {:induction false} WireLength(t: seq<Byte>)
    requires LabelsOf(t).Some?
    requires forall i :: 0 <= i < |LabelsOf(t).value| ==> |LabelsOf(t).value[i]| <= 63
    ensures |Wire(LabelsOf(t).value)| == 1 + Units(t) + if t != [] && !EndsInSeparator(t) then 1 else 0
    decreases |t|
  {
    if t != [] {
      CutUnits(t);
      var c := CutLabel(t);
      var labels := LabelsOf(t).value;
      if c.rest.Some? {
        assert labels[1..] == LabelsOf(c.rest.value).value;
        WireLength(c.rest.value);
      } else {
        assert Wire(labels[1..]) == [0];
      }
    }
  }

  /** The count is the true length exactly for texts that do not end in an escaped dot. */
  lemma CountExact(t: seq<Byte>)
    requires LabelsOf(t).Some?
    requires forall i :: 0 <= i < |LabelsOf(t).value| ==> |LabelsOf(t).value[i]| <= 63
    ensures CountedLength(t) == |Wire(LabelsOf(t).value)| - if EndsInEscapedDot(t) then 1 else 0
  {
    WireLength(t);
    if EndsInSeparator(t) {
      SeparatorIsDot(t);
    }
  }

  /** The shortest text whose count falls short: a label that is one escaped dot. */
  lemma CountFallsShort()
    ensures var t := [92, 46];
      LabelsOf(t) == Some([[46]]) && CountedLength(t) == 2 && |Wire([[46]])| == 3
  {
    var t := [92, 46];
    assert t[2..] == [];
    assert CutLabel(t).bytes == [46];
    assert [[46]][1..] == [];
    assert Units(t) == 1 + Units(t[2..]);
  }

  // ----- ares_create_query.c

  /** `DNS__SET16BIT` */
  function Be16(v: int): seq<Byte> {
    [v / 256 % 256, v % 256]
  }

  /** The header as the program writes it. */
  function Header(id: nat, rd: bool, edns: bool): (h: seq<Byte>)
    ensures |h| == 12
  {
    Be16(id) + [if rd then 1 else 0, 0] + Be16(1) + Be16(0) + Be16(0) + Be16(if edns then 1 else 0)
  }

  /** What it writes behind the name. */
  function Trailer(qtype: int, dnsclass: int, maxUdpSize: nat): (q: seq<Byte>)
    ensures |q| == 4 + if maxUdpSize != 0 then 11 else 0
  {
    Be16(qtype) + Be16(dnsclass)
    + if maxUdpSize != 0 then [0] + Be16(T_OPT) + Be16(maxUdpSize) + [0, 0, 0, 0, 0, 0] else []
  }

  /** The two bytes at p, the higher first, are the low 16 bits of v. */
  ghost predicate Has16(m: seq<Byte>, p: nat, v: int) {
    p + 1 < |m| && Word16(m, p) == v % 65536
  }

  /** The 12 bytes of a query's header: id, the recursion-desired bit, one question, and one additional record if
      there is an EDNS size (section 4.1.1 of RFC 1035). */
  ghost predicate IsHeader(m: seq<Byte>, id: nat, rd: bool, edns: bool) {
    && Has16(m, 0, id) && |m| >= 12 && m[2] == (if rd then 1 else 0) && m[3] == 0
    && Has16(m, 4, 1) && Has16(m, 6, 0) && Has16(m, 8, 0) && Has16(m, 10, if edns then 1 else 0)
  }

  /** What stands behind the name from p to the end: type and class, and with EDNS the root name, type 41, the
      UDP size, and six zero bytes (section 6.1.2 of RFC 6891). */
  ghost predicate IsTrailer(m: seq<Byte>, p: nat, qtype: int, dnsclass: int, maxUdpSize: nat) {
    && Has16(m, p, qtype) && Has16(m, p + 2, dnsclass)
    && if maxUdpSize == 0 then |m| == p + 4
       else |m| == p + 15 && m[p + 4] == 0 && Has16(m, p + 5, 41) && Has16(m, p + 7, maxUdpSize)
            && forall i :: p + 9 <= i < p + 15 ==> m[i] == 0
  }

  /** The message is header, name and what stands behind it. */
  ghost predicate IsQuery(m: seq<Byte>, labels: seq<seq<Byte>>, id: nat, rd: bool, qtype: int, dnsclass: int, maxUdpSize: nat) {
    && IsHeader(m, id, rd, maxUdpSize != 0) && ValidLabels(labels) && Holds(m, 12, Wire(labels))
    && IsTrailer(m, 12 + |Wire(labels)|, qtype, dnsclass, maxUdpSize)
  }

  lemma HeaderWritten(id: nat, rd: bool, edns: bool, rest: seq<Byte>)
    ensures IsHeader(Header(id, rd, edns) + rest, id, rd, edns)
  {
    SplitWord(id);
  }

  lemma TrailerWritten(front: seq<Byte>, qtype: int, dnsclass: int, maxUdpSize: nat)
    ensures IsTrailer(front + Trailer(qtype, dnsclass, maxUdpSize), |front|, qtype, dnsclass, maxUdpSize)
  {
    SplitWord(qtype);
    SplitWord(dnsclass);
    SplitWord(maxUdpSize);
  }

  lemma SplitWord(v: int)
    ensures 256 * (v / 256 % 256) + v % 256 == v % 65536
  {
  }

  lemma QueryWritten(labels: seq<seq<Byte>>, id: nat, rd: bool, qtype: int, dnsclass: int, maxUdpSize: nat)
    requires ValidLabels(labels)
    ensures IsQuery(Header(id, rd, maxUdpSize != 0) + Wire(labels) + Trailer(qtype, dnsclass, maxUdpSize),
                    labels, id, rd, qtype, dnsclass, maxUdpSize)
  {
    hide IsHeader, IsTrailer;
    var h, n, t := Header(id, rd, maxUdpSize != 0), Wire(labels), Trailer(qtype, dnsclass, maxUdpSize);
    assert h + n + t == h + (n + t) && (h + n + t)[12..12 + |n|] == n;
    HeaderWritten(id, rd, maxUdpSize != 0, n + t);
    TrailerWritten(h + n, qtype, dnsclass, maxUdpSize);
  }

  /** The labels without the closing zero label. */
  function Body(labels: seq<seq<Byte>>): seq<Byte>
    requires forall i :: 0 <= i < |labels| ==> |labels[i]| <= MAXLABEL
  {
    if labels == [] then [] else [|labels[0]|] + labels[0] + Body(labels[1..])
  }

  lemma {:induction false} BodyAppend(labels: seq<seq<Byte>>, last: seq<Byte>)
    requires forall i :: 0 <= i < |labels| ==> |labels[i]| <= MAXLABEL
    requires |last| <= MAXLABEL
    ensures Body(labels + [last]) == Body(labels) + [|last|] + last
  {
    if labels == [] {
      assert labels + [last] == [last] && Body([last][1..]) == [];
    } else {
      assert (labels + [last])[1..] == labels[1..] + [last];
      BodyAppend(labels[1..], last);
    }
  }

  lemma {:induction false} BodyIsWire(labels: seq<seq<Byte>>)
    requires forall i :: 0 <= i < |labels| ==> |labels[i]| <= MAXLABEL
    ensures Wire(labels) == Body(labels) + [0]
  {
    if labels != [] {
      BodyIsWire(labels[1..]);
    }
  }

  /** The first loop: the length of the encoded name as the program counts it. */
  method CountLength(name: seq<Byte>) returns (len: nat)
    ensures len == CountedLength(name)
  {
    len := 1;
    var p := 0;
    while p < |name|
      invariant 0 <= p <= |name|
      invariant len + Units(name[p..]) == 1 + Units(name)
    {
      if name[p] == BACKSLASH && p + 1 < |name| {
        assert name[p..][2..] == name[p + 2..];
        p := p + 1;
      } else {
        assert name[p..][1..] == name[p + 1..];
      }
      len := len + 1;
      p := p + 1;
    }
    if name != [] && name[|name| - 1] != DOT {
      len := len + 1;
    }
  }

  /** The two loops over one label: they count and copy its bytes with the escapes resolved, and
      stop at its dot or at the end. */
  method TakeLabel(t: seq<Byte>) returns (bytes: seq<Byte>, p: nat)
    ensures p <= |t| && bytes == CutLabel(t).bytes
    ensures CutLabel(t).rest == if p == |t| then None else Some(t[p + 1..])
  {
    bytes, p := [], 0;
    while p < |t| && t[p] != DOT
      invariant p <= |t|
      invariant CutLabel(t) == Cut(bytes + CutLabel(t[p..]).bytes, CutLabel(t[p..]).rest)
    {
      if t[p] == BACKSLASH && p + 1 < |t| {
        assert t[p..][2..] == t[p + 2..];
        bytes := bytes + [t[p + 1]];
        p := p + 2;
      } else {
        assert t[p..][1..] == t[p + 1..];
        bytes := bytes + [t[p]];
        p := p + 1;
      }
    }
    if p < |t| {
      assert t[p..][1..] == t[p + 1..];
    }
  }

  /** The name loop: the labels and the closing zero label, or nothing if some label is empty or
      too long. */
  method EncodeName(nameIn: seq<Byte>, header: seq<Byte>) returns (ok: bool, q: seq<Byte>)
    requires NulFree(nameIn)
    ensures ok <==> LabelsOf(nameIn).Some?
    ensures ok ==> ValidLabels(LabelsOf(nameIn).value) && q == header + Wire(LabelsOf(nameIn).value)
  {
    hide LabelsOf, Prepend;
    var name := nameIn;
    ghost var done: seq<seq<Byte>> := [];
    q := header;
    PrependNothing(LabelsOf(name));
    assert header + Body(done) == header;
    while name != []
      invariant NulFree(name) && ValidLabels(done) && q == header + Body(done)
      invariant LabelsOf(nameIn) == Prepend(done, LabelsOf(name))
      decreases |name|
    {
      NoLabels(done, name);
      if name[0] == DOT {
        return false, q;
      }
      var bytes, p := TakeLabel(name);
      if |bytes| > MAXLABEL {
        return false, q;
      }
      CutNulFree(name);
      BodyAppend(done, bytes);
      PrependOne(done, bytes, name);
      assert header + (Body(done) + [|bytes|] + bytes) == header + Body(done) + [|bytes|] + bytes;
      q := q + [|bytes|] + bytes;
      done := done + [bytes];
      name := if p == |name| then [] else name[p + 1..];
    }
    PrependToNothing(done);
    BodyIsWire(done);
    q := q + [0];
    ok := true;
  }

  function Prepend(done: seq<seq<Byte>>, more: Option<seq<seq<Byte>>>): Option<seq<seq<Byte>>> {
    match more
    case None => None
    case Some(labels) => Some(done + labels)
  }

  lemma PrependNothing(more: Option<seq<seq<Byte>>>)
    ensures Prepend([], more) == more
  {
    if more.Some? {
      assert [] + more.value == more.value;
    }
  }

  lemma PrependToNothing(done: seq<seq<Byte>>)
    ensures Prepend(done, LabelsOf([])) == Some(done)
  {
    assert done + [] == done;
  }

  lemma NoLabels(done: seq<seq<Byte>>, name: seq<Byte>)
    ensures name != [] && (name[0] == DOT || |CutLabel(name).bytes| > MAXLABEL) ==> Prepend(done, LabelsOf(name)).None?
  {
  }

  /** Taking one label moves it from the text to the labels done. */
  lemma PrependOne(done: seq<seq<Byte>>, bytes: seq<Byte>, name: seq<Byte>)
    requires name != [] && name[0] != DOT && CutLabel(name).bytes == bytes && |bytes| <= MAXLABEL
    ensures Prepend(done, LabelsOf(name))
         == Prepend(done + [bytes], LabelsOf(if CutLabel(name).rest.Some? then CutLabel(name).rest.value else []))
  {
    var rest := LabelsOf(if CutLabel(name).rest.Some? then CutLabel(name).rest.value else []);
    if rest.Some? {
      assert done + ([bytes] + rest.value) == done + [bytes] + rest.value;
      assert [bytes] + [] == [bytes];
    }
  }

  /** Builds a query. It fails exactly for names counted too long or with an empty or overlong
      label. What it writes is the header, the labels on the wire, type and class, and the EDNS
      record; that is as long as the length it announces except for the name "." (one less) and for
      names that end in an escaped dot (one more). */
  method CreateQuery(name: seq<Byte>, dnsclass: int, qtype: int, id: nat, rd: bool, maxUdpSize: nat)
    returns (status: int, buf: seq<Byte>, buflen: nat)
    requires NulFree(name)
    ensures status == 0 || status == 8
    ensures CountedLength(name) > 255 ==> buflen == 0
    ensures status == 0 <==> CountedLength(name) <= 255 && LabelsOf(Asked(name)).Some?
    ensures status == 0 ==>
      && IsQuery(buf, LabelsOf(Asked(name)).value, id, rd, qtype, dnsclass, maxUdpSize)
      && |buf| == buflen + (if EndsInEscapedDot(name) then 1 else 0) - (if name == [46] then 1 else 0)
  {
    buf, buflen := [], 0;
    var len := CountLength(name);
    if len > MAXCDNAME {
      return ARES_EBADNAME, buf, buflen;
    }
    buflen := len + HFIXEDSZ + QFIXEDSZ + if maxUdpSize != 0 then EDNSFIXEDSZ else 0;
    var ok;
    ok, buf := EncodeName(if name == [DOT] then [] else name, Header(id, rd, maxUdpSize != 0));
    if !ok {
      return ARES_EBADNAME, buf, buflen;
    }
    CountExact(Asked(name));
    AskedLength(name);
    QueryWritten(LabelsOf(Asked(name)).value, id, rd, qtype, dnsclass, maxUdpSize);
    buf := buf + Trailer(qtype, dnsclass, maxUdpSize);
    status := ARES_SUCCESS;
  }

  /** A name of "." asks for the root. */
  function Asked(name: seq<Byte>): seq<Byte> {
    if name == [46] then [] else name
  }

  lemma AskedLength(name: seq<Byte>)
    ensures CountedLength(name) == CountedLength(Asked(name)) + if name == [DOT] then 1 else 0
    ensures EndsInEscapedDot(name) <==> EndsInEscapedDot(Asked(name))
  {
    if name == [DOT] {
      assert Units([DOT]) == 1 + Units([DOT][1..]);
    }
  }

  /** The round trip: any labels of 1 to 63 NUL-free bytes that fit into 255 bytes on the wire
      survive being joined to a text, built into a query, and expanded at offset 12. */
  method RoundTrip(labels: seq<seq<Byte>>, dnsclass: int, qtype: int, id: nat, rd: bool, maxUdpSize: nat)
    returns (text: seq<Byte>, enclen: nat, buf: seq<Byte>, buflen: nat)
    requires ValidLabels(labels) && |Wire(labels)| <= 255
    ensures text == Join(labels) + [0] && enclen == |Wire(labels)|
    ensures IsQuery(buf, labels, id, rd, qtype, dnsclass, maxUdpSize)
    ensures |buf| == buflen <==> !EndsInEscapedDot(Join(labels))
  {
    var name := Join(labels);
    JoinedLabels(labels);
    JoinNulFree(labels);
    CountExact(name);
    JoinNotRoot(labels);
    var status;
    status, buf, buflen := CreateQuery(name, dnsclass, qtype, id, rd, maxUdpSize);
    assert status == 0;
    QueryNameExpands(buf, 12, name);
    ExpandsExactlyWellFormed(buf, 12);
    status, text, enclen := ExpandName(12, buf);
  }

  lemma {:induction false} EscapeNulFree(s: seq<Byte>)
    requires NulFree(s)
    ensures NulFree(Escape(s))
  {
    if s != [] {
      EscapeNulFree(s[1..]);
    }
  }

  lemma {:induction false} JoinNulFree(labels: seq<seq<Byte>>)
    requires ValidLabels(labels)
    ensures NulFree(Join(labels))
  {
    if labels != [] {
      EscapeNulFree(labels[0]);
      JoinNulFree(labels[1..]);
    }
  }

  lemma JoinNotRoot(labels: seq<seq<Byte>>)
    requires ValidLabels(labels)
    ensures Join(labels) != [DOT]
  {
    if labels != [] {
      var first := labels[0];
      assert Escape(first) == EscapeByte(first[0]) + Escape(first[1..]);
      assert Join(labels)[0] == EscapeByte(first[0])[0];
    }
  }
}
