/** Encoded domain names in a message: labels and compression pointers (sections 3.1 and 4.1.4 of
    RFC 1035), and the text form with dots and backslash escapes that they expand to. */
module DnsNames {
  import opened AresStatus
  import opened Common

  // The programs use these names; what they are proved against has the numbers written out.
  const DOT: Byte := 46
  const BACKSLASH: Byte := 92
  // The two high bits of a length byte, both set, mark a pointer.
  const INDIR_MASK: Byte := 192

  // ----- one step of the walk through an encoded name

  datatype Step =
    | Outside              // the next byte needed lies outside the message
    | End                  // a zero label
    | Pointer(to: nat)     // a compression pointer
    | Label(next: nat)     // a label, and where the byte after it is

  /** Where a pointer leads: the low 14 bits of its two bytes, as the programs compute them. */
  function Target(m: seq<Byte>, p: nat): nat
    requires p + 1 < |m| && m[p] >= INDIR_MASK
  {
    (m[p] - INDIR_MASK) * 256 + m[p + 1]
  }

  function Next(m: seq<Byte>, p: nat): Step {
    if p >= |m| then Outside
    else if m[p] == 0 then End
    else if m[p] >= 192 then
      if p + 1 >= |m| then Outside
      else
        var high: int := m[p] % 64;
        var to: nat := 256 * high + m[p + 1];
        if to >= |m| then Outside else Pointer(to)
    else if p + m[p] + 1 >= |m| then Outside
    else Label(p + m[p] + 1)
  }

  // ----- what it means for a name to be well formed

  ghost predicate Follows(m: seq<Byte>, p: nat, q: nat) {
    Next(m, p) == Pointer(q) || Next(m, p) == Label(q)
  }

  /** A finite walk that stays inside the message and ends at a zero label. */
  ghost predicate IsWalk(m: seq<Byte>, path: seq<nat>) {
    && |path| > 0
    && Next(m, path[|path| - 1]).End?
    && forall i :: 0 <= i < |path| - 1 ==> Follows(m, path[i], path[i + 1])
  }

  ghost predicate IsWalkFrom(m: seq<Byte>, p: nat, path: seq<nat>) {
    IsWalk(m, path) && path[0] == p
  }

  ghost predicate WellFormed(m: seq<Byte>, p: nat) {
    exists path :: IsWalkFrom(m, p, path)
  }

  // ----- what a well formed name expands to

  function EscapeByte(b: Byte): seq<Byte> {
    if b == 46 || b == 92 then [92, b] else [b]
  }

  function Escape(s: seq<Byte>): seq<Byte> {
    if s == [] then [] else EscapeByte(s[0]) + Escape(s[1..])
  }

  /** The text with a dot after every label, and how many bytes the name takes where it stands. */
  datatype Expansion = Expansion(text: seq<Byte>, enclen: nat)

  /** The expansion of the name at p, following at most `budget` pointers. */
  function Expand(m: seq<Byte>, p: nat, budget: nat): Option<Expansion>
    decreases budget, |m| - p
  {
    match Next(m, p)
    case Outside => None
    case End => Some(Expansion([], 1))
    case Pointer(to) =>
      if budget == 0 then None
      else (match Expand(m, to, budget - 1)
            case None => None
            case Some(rest) => Some(Expansion(rest.text, 2)))
    case Label(next) =>
      match Expand(m, next, budget)
      case None => None
      case Some(rest) => Some(Expansion(Escape(m[p + 1..next]) + [46] + rest.text, next - p + rest.enclen))
  }

  /** The text as it is handed out: without the trailing dot. */
  function Name(e: Expansion): seq<Byte> {
    if e.text == [] then [] else e.text[..|e.text| - 1]
  }

  // ----- as many pointers as the message has bytes are enough

  /** Walks are determined by where they start. */
  lemma {:induction false} WalkUnique(m: seq<Byte>, a: seq<nat>, b: seq<nat>)
    requires IsWalk(m, a) && IsWalk(m, b) && a[0] == b[0]
    ensures a == b
  {
    assert |a| > 1 ==> Follows(m, a[0], a[1]);
    assert |b| > 1 ==> Follows(m, b[0], b[1]);
    if |a| > 1 && |b| > 1 {
      TailIsWalk(m, a, 1);
      TailIsWalk(m, b, 1);
      WalkUnique(m, a[1..], b[1..]);
      assert a == [a[0]] + a[1..] && b == [b[0]] + b[1..];
    }
  }

  lemma TailIsWalk(m: seq<Byte>, path: seq<nat>, i: nat)
    requires IsWalk(m, path) && i < |path|
    ensures IsWalk(m, path[i..])
  {
    forall j | 0 <= j < |path[i..]| - 1
      ensures Follows(m, path[i..][j], path[i..][j + 1])
    {
      assert Follows(m, path[i + j], path[i + j + 1]);
    }
  }

  /** A walk that ends visits no position twice: otherwise it would go round for ever. */
  lemma WalkNeverReturns(m: seq<Byte>, path: seq<nat>, i: nat, j: nat)
    requires IsWalk(m, path) && i < j < |path|
    ensures path[i] != path[j]
  {
    assert |path[i..]| > |path[j..]|;
    if path[i] == path[j] {
      TailIsWalk(m, path, i);
      TailIsWalk(m, path, j);
      WalkUnique(m, path[i..], path[j..]);
    }
  }

  lemma WalkInside(m: seq<Byte>, path: seq<nat>, i: nat)
    requires IsWalk(m, path) && i < |path|
    ensures path[i] < |m|
  {
    if i < |path| - 1 {
      assert Follows(m, path[i], path[i + 1]);
    }
  }

  /** Pigeonhole: distinct numbers below n are at most n. */
  lemma {:induction false} Pigeonhole(s: seq<nat>, n: nat)
    requires forall i, j :: 0 <= i < j < |s| ==> s[i] != s[j]
    requires forall i :: 0 <= i < |s| ==> s[i] < n
    ensures |s| <= n
  {
    assert |s| > 0 ==> s[0] < n;
    if n == 0 {
    } else if exists i :: 0 <= i < |s| && s[i] == n - 1 {
      var i :| 0 <= i < |s| && s[i] == n - 1;
      Pigeonhole(s[..i] + s[i + 1..], n - 1);
    } else {
      Pigeonhole(s, n - 1);
    }
  }

  lemma WalkShort(m: seq<Byte>, path: seq<nat>)
    requires IsWalk(m, path)
    ensures |path| <= |m|
  {
    forall i, j | 0 <= i < j < |path|
      ensures path[i] != path[j]
    {
      WalkNeverReturns(m, path, i, j);
    }
    forall i | 0 <= i < |path|
      ensures path[i] < |m|
    {
      WalkInside(m, path, i);
    }
    Pigeonhole(path, |m|);
  }

  /** Following a walk costs at most one pointer per step. */
  lemma {:induction false} WalkExpands(m: seq<Byte>, path: seq<nat>, budget: nat)
    requires IsWalk(m, path) && |path| - 1 <= budget
    ensures Expand(m, path[0], budget).Some?
    decreases |path|
  {
    if |path| > 1 {
      assert Follows(m, path[0], path[1]);
      TailIsWalk(m, path, 1);
      WalkExpands(m, path[1..], if Next(m, path[0]).Pointer? then budget - 1 else budget);
    }
  }

  lemma {:induction false} ExpansionWalks(m: seq<Byte>, p: nat, budget: nat) returns (path: seq<nat>)
    requires Expand(m, p, budget).Some?
    ensures IsWalkFrom(m, p, path)
    decreases budget, |m| - p
  {
    path := [p];
    if !Next(m, p).End? {
      var q := if Next(m, p).Pointer? then Next(m, p).to else Next(m, p).next;
      var rest := ExpansionWalks(m, q, if Next(m, p).Pointer? then budget - 1 else budget);
      path := [p] + rest;
      forall i | 0 <= i < |path| - 1
        ensures Follows(m, path[i], path[i + 1])
      {
        if i > 0 {
          assert Follows(m, rest[i - 1], rest[i]);
        }
      }
    }
  }

  /** With one pointer allowed per message byte, exactly the well formed names expand. */
  lemma ExpandsExactlyWellFormed(m: seq<Byte>, p: nat)
    ensures Expand(m, p, |m|).Some? <==> WellFormed(m, p)
  {
    if Expand(m, p, |m|).Some? {
      var path := ExpansionWalks(m, p, |m|);
      assert IsWalkFrom(m, p, path);
    }
    if WellFormed(m, p) {
      var path :| IsWalkFrom(m, p, path);
      WalkShort(m, path);
      WalkExpands(m, path, |m|);
    }
  }

  /** More pointers than needed change nothing. */
  lemma {:induction false} BudgetIrrelevant(m: seq<Byte>, p: nat, budget: nat, more: nat)
    requires Expand(m, p, budget).Some? && budget <= more
    ensures Expand(m, p, more) == Expand(m, p, budget)
    decreases budget, |m| - p
  {
    match Next(m, p)
    case Pointer(to) => BudgetIrrelevant(m, to, budget - 1, more - 1);
    case Label(next) => BudgetIrrelevant(m, next, budget, more);
    case _ =>
  }

  // ----- ares_expand_name.c

  lemma {:induction false} EscapeAppend(s: seq<Byte>, b: Byte)
    ensures Escape(s + [b]) == Escape(s) + EscapeByte(b)
  {
    if s == [] {
      assert s + [b] == [b] && [b][1..] == [];
    } else {
      assert (s + [b])[1..] == s[1..] + [b];
      EscapeAppend(s[1..], b);
    }
  }

  lemma EscapeNext(m: seq<Byte>, from: nat, i: nat)
    requires from <= i < |m|
    ensures Escape(m[from..i + 1]) == Escape(m[from..i]) + EscapeByte(m[i])
  {
    assert m[from..i + 1] == m[from..i] + [m[i]];
    EscapeAppend(m[from..i], m[i]);
  }

  /** The inner loop of `name_length`: how long one label's text is. */
  method LabelTextLength(abuf: seq<Byte>, from: nat, len: nat) returns (n: nat)
    requires from + len <= |abuf|
    ensures n == |Escape(abuf[from..from + len])|
  {
    n := 0;
    var encoded, offset := from, len;
    while offset > 0
      invariant encoded + offset == from + len && from <= encoded && offset >= 0
      invariant n == |Escape(abuf[from..encoded])|
    {
      EscapeNext(abuf, from, encoded);
      n := n + if abuf[encoded] == DOT || abuf[encoded] == BACKSLASH then 2 else 1;
      encoded := encoded + 1;
      offset := offset - 1;
    }
  }

  /** What one step of the walk adds to the expansion. */
  lemma ExpandStep(m: seq<Byte>, p: nat, budget: nat)
    ensures Next(m, p).Outside? ==> Expand(m, p, budget).None?
    ensures Next(m, p).End? ==> Expand(m, p, budget) == Some(Expansion([], 1))
    ensures Next(m, p).Pointer? ==>
      if budget == 0 || Expand(m, Next(m, p).to, budget - 1).None? then Expand(m, p, budget).None?
      else Expand(m, p, budget) == Some(Expansion(Expand(m, Next(m, p).to, budget - 1).value.text, 2))
    ensures Next(m, p).Label? ==>
      var next := Next(m, p).next;
      if Expand(m, next, budget).None? then Expand(m, p, budget).None?
      else
        var rest := Expand(m, next, budget).value;
        Expand(m, p, budget) == Some(Expansion(LabelText(m, p) + rest.text, next - p + rest.enclen))
  {
  }

  /** The text of the label at p, with its dot. */
  ghost function LabelText(m: seq<Byte>, p: nat): seq<Byte>
    requires Next(m, p).Label?
  {
    Escape(m[p + 1..Next(m, p).next]) + [46]
  }

  /** The length of the expansion, or -1: exactly when the name is not well formed. */
  method NameLength(encodedIn: nat, abuf: seq<Byte>) returns (len: int)
    ensures len == -1 || len >= 0
    ensures len >= 0 <==> WellFormed(abuf, encodedIn)
    ensures len >= 0 <==> Expand(abuf, encodedIn, |abuf|).Some?
    ensures len >= 0 ==> len == |Name(Expand(abuf, encodedIn, |abuf|).value)|
  {
    ExpandsExactlyWellFormed(abuf, encodedIn);
    hide WellFormed, Escape, Expand;
    var alen := |abuf|;
    var encoded: nat, n: nat, indir: nat := encodedIn, 0, 0;
    ExpandStep(abuf, encoded, alen);
    if encoded >= alen {
      return -1;
    }
    ghost var whole := Expand(abuf, encoded, alen);
    while abuf[encoded] != 0
      invariant encoded < alen && indir <= alen
      invariant whole.None? <==> Expand(abuf, encoded, alen - indir).None?
      invariant whole.Some? ==> |whole.value.text| == n + |Expand(abuf, encoded, alen - indir).value.text|
      decreases alen - indir, alen - encoded
    {
      ExpandStep(abuf, encoded, alen - indir);
      if abuf[encoded] >= INDIR_MASK {
        if encoded + 1 >= alen {
          return -1;
        }
        var offset := Target(abuf, encoded);
        if offset >= alen {
          return -1;
        }
        encoded := offset;
        indir := indir + 1;
        if indir > alen {
          return -1;
        }
      } else {
        var offset := abuf[encoded] as nat;
        if encoded + offset + 1 >= alen {
          return -1;
        }
        var more := LabelTextLength(abuf, encoded + 1, offset);
        encoded := encoded + offset + 1;
        n := n + more + 1;
      }
    }
    ExpandStep(abuf, encoded, alen - indir);
    len := if n > 0 then n - 1 else n;
  }

  /** `*q++ = b` */
  method PutByte(buffer: array<Byte>, q: nat, b: Byte) returns (q': nat)
    requires q < buffer.Length
    modifies buffer
    ensures q' == q + 1 && buffer[..q'] == old(buffer[..q]) + [b]
  {
    buffer[q] := b;
    q' := q + 1;
  }

  /** The inner loop of `ares_expand_name`: one label's text, written from index q on. */
  method CopyLabel(buffer: array<Byte>, q: nat, abuf: seq<Byte>, from: nat, len: nat) returns (q': nat)
    requires from + len <= |abuf| && q + |Escape(abuf[from..from + len])| <= buffer.Length
    modifies buffer
    ensures q' == q + |Escape(abuf[from..from + len])|
    ensures buffer[..q'] == old(buffer[..q]) + Escape(abuf[from..from + len])
  {
    hide Escape;
    ghost var kept := buffer[..q];
    assert abuf[from..from] == [];
    EscapeNothing();
    q' := q;
    var p, rest := from, len;
    while rest > 0
      invariant p + rest == from + len && from <= p && rest >= 0
      invariant q' == q + |Escape(abuf[from..p])| <= buffer.Length
      invariant buffer[..q'] == kept + Escape(abuf[from..p])
    {
      EscapeNext(abuf, from, p);
      EscapeGrows(abuf, from, p + 1, from + len);
      if abuf[p] == DOT || abuf[p] == BACKSLASH {
        q' := PutByte(buffer, q', BACKSLASH);
      }
      q' := PutByte(buffer, q', abuf[p]);
      p := p + 1;
      rest := rest - 1;
    }
  }

  /** The branch of `ares_expand_name` for a label. */
  method PutLabel(buffer: array<Byte>, q: nat, abuf: seq<Byte>, p: nat) returns (q': nat)
    requires Next(abuf, p).Label? && q + |LabelText(abuf, p)| <= buffer.Length
    modifies buffer
    ensures q' == q + |LabelText(abuf, p)| && buffer[..q'] == old(buffer[..q]) + LabelText(abuf, p)
  {
    hide Escape;
    ghost var written, text := buffer[..q], Escape(abuf[p + 1..p + 1 + abuf[p]]);
    q' := CopyLabel(buffer, q, abuf, p + 1, abuf[p]);
    q' := PutByte(buffer, q', DOT);
    AppendAssociates(written, text, [DOT]);
    assert p + 1 + abuf[p] == Next(abuf, p).next;
  }

  lemma EscapeNothing()
    ensures Escape([]) == []
  {
  }

  lemma {:induction false} EscapeGrows(m: seq<Byte>, from: nat, i: nat, j: nat)
    requires from <= i <= j <= |m|
    ensures |Escape(m[from..i])| <= |Escape(m[from..j])|
  {
    if i < j {
      EscapeGrows(m, from, i, j - 1);
      EscapeNext(m, from, j - 1);
    }
  }

  /** Expands a name: fails exactly on names that are not well formed, and otherwise yields a
      NUL-terminated buffer with the text, and the number of bytes the name takes in the message.
      The second walk checks nothing: that it stays inside the message and the buffer is proved. */
  method ExpandName(encoded: nat, abuf: seq<Byte>) returns (status: int, s: seq<Byte>, enclen: nat)
    ensures status == (if WellFormed(abuf, encoded) then 0 else 8)
    ensures status == 0 ==>
      && Expand(abuf, encoded, |abuf|).Some?
      && s == Name(Expand(abuf, encoded, |abuf|).value) + [0]
      && enclen == Expand(abuf, encoded, |abuf|).value.enclen
  {
    hide WellFormed, Escape, Expand, LabelText;
    s, enclen := [], 0;
    var nlen := NameLength(encoded, abuf);
    if nlen < 0 {
      return ARES_EBADNAME, s, enclen;
    }
    status := ARES_SUCCESS;
    ghost var budget: nat, whole: Expansion := |abuf|, Expand(abuf, encoded, |abuf|).value;
    ExpandStep(abuf, encoded, budget);
    var buffer := new Byte[nlen + 1];
    if nlen == 0 {
      EmptyName(abuf, encoded, budget);
      buffer[0] := 0;
      enclen := if abuf[encoded] >= INDIR_MASK then 2 else 1;
      return status, buffer[..], enclen;
    }
    var p: nat, q: nat, indir := encoded, 0, false;
    ghost var rest: Expansion := whole;
    while abuf[p] != 0
      invariant p < |abuf| && q <= buffer.Length == |whole.text|
      invariant Expand(abuf, p, budget) == Some(rest)
      invariant buffer[..q] + rest.text == whole.text
      invariant if indir then enclen == whole.enclen else encoded <= p && p - encoded + rest.enclen == whole.enclen
      decreases budget, |abuf| - p
    {
      ExpandStep(abuf, p, budget);
      ghost var written := buffer[..q];
      if abuf[p] >= INDIR_MASK {
        if !indir {
          enclen := p + 2 - encoded;
          indir := true;
        }
        p := Target(abuf, p);
        budget := budget - 1;
        rest := Expand(abuf, p, budget).value;
      } else {
        ghost var after := Expand(abuf, Next(abuf, p).next, budget).value;
        AppendAssociates(written, LabelText(abuf, p), after.text);
        q := PutLabel(buffer, q, abuf, p);
        p := p + 1 + abuf[p];
        rest := after;
      }
      ExpandStep(abuf, p, budget);
    }
    if !indir {
      enclen := p + 1 - encoded;
    }
    ExpandStep(abuf, p, budget);
    assert buffer[..q] == whole.text;
    buffer[q - 1] := 0;
    s := buffer[..];
  }

  lemma AppendAssociates<T>(a: seq<T>, b: seq<T>, c: seq<T>)
    ensures a + (b + c) == a + b + c && |a + (b + c)| == |a| + |b| + |c|
  {
  }

  /** Only a name without labels has an empty text, and it is a zero label or a pointer. */
  lemma EmptyName(m: seq<Byte>, p: nat, budget: nat)
    requires Expand(m, p, budget).Some? && Name(Expand(m, p, budget).value) == []
    ensures p < |m| && Expand(m, p, budget).value.enclen == if m[p] >= INDIR_MASK then 2 else 1
  {
    if Next(m, p).Label? {
      EscapeGrows(m, p + 1, p + 2, Next(m, p).next);
      EscapeNext(m, p + 1, p + 1);
    }
  }
}
