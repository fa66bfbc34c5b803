/** Compressed names (section 4.1.4 of RFC 1035): labels that go on at another place of the message. */
module DnsCompression {
  import opened AresStatus
  import opened Common
  import opened DnsNames
  import opened DnsQuery

  /** Labels, each after its length, and a pointer to offset t: its high byte has the two top bits set. */
  ghost predicate HoldsCompressed(m: seq<Byte>, p: nat, labels: seq<seq<Byte>>, t: nat)
    requires ValidLabels(labels)
  {
    t < 16384 && Holds(m, p, Body(labels) + [192 + t / 256, t % 256])
  }

  /** Where the first label and what follows it stand. */
  lemma CompressedSplit(m: seq<Byte>, p: nat, labels: seq<seq<Byte>>, t: nat)
    requires ValidLabels(labels) && labels != [] && HoldsCompressed(m, p, labels, t)
    ensures var next := p + |labels[0]| + 1;
      next < |m| && m[p] == |labels[0]| && m[p + 1..next] == labels[0] && HoldsCompressed(m, next, labels[1..], t)
  {
    var first, rest := labels[0], Body(labels[1..]) + [192 + t / 256, t % 256];
    assert Body(labels) + [192 + t / 256, t % 256] == [|first|] + first + rest;
    HoldsParts(m, p, [|first|] + first, rest);
    HoldsParts(m, p, [|first|], first);
    assert m[p..p + 1][0] == m[p];
  }

  lemma PointerStands(m: seq<Byte>, p: nat, t: nat)
    requires HoldsCompressed(m, p, [], t) && t < |m|
    ensures p + 1 < |m| && Next(m, p) == Pointer(t)
  {
    assert Body([]) + [192 + t / 256, t % 256] == [192 + t / 256, t % 256];
    assert m[p..p + 2][0] == m[p] && m[p..p + 2][1] == m[p + 1];
  }

  /** Labels and a pointer expand to the text of the labels and what the name at the pointer's target expands
      to, and take the bytes up to the end of the pointer. */
  lemma {:induction false} CompressedExpands(m: seq<Byte>, p: nat, labels: seq<seq<Byte>>, t: nat, budget: nat)
    requires ValidLabels(labels) && HoldsCompressed(m, p, labels, t) && Expand(m, t, budget).Some?
    ensures Expand(m, p, budget + 1) == Some(Expansion(Dotted(labels) + Expand(m, t, budget).value.text, |Body(labels)| + 2))
    decreases labels
  {
    hide Expand, Escape, HoldsCompressed;
    ExpandStep(m, p, budget + 1);
    TargetInside(m, t, budget);
    if labels == [] {
      PointerStands(m, p, t);
      assert [] + Expand(m, t, budget).value.text == Expand(m, t, budget).value.text;
    } else {
      CompressedSplit(m, p, labels, t);
      CompressedExpands(m, p + |labels[0]| + 1, labels[1..], t, budget);
      var rest := Expand(m, t, budget).value.text;
      AppendAssociates(Escape(labels[0]) + [46], Dotted(labels[1..]), rest);
    }
  }

  lemma TargetInside(m: seq<Byte>, t: nat, budget: nat)
    requires Expand(m, t, budget).Some?
    ensures t < |m|
  {
  }

  lemma {:induction false} DottedJoin(s: seq<seq<Byte>>, t: seq<seq<Byte>>)
    ensures Dotted(s + t) == Dotted(s) + Dotted(t)
  {
    if s == [] {
      assert s + t == t;
    } else {
      assert (s + t)[1..] == s[1..] + t;
      DottedJoin(s[1..], t);
      AppendAssociates(Escape(s[0]) + [46], Dotted(s[1..]), Dotted(t));
    }
  }

  lemma NameOfDotted(labels: seq<seq<Byte>>, enclen: nat)
    ensures Name(Expansion(Dotted(labels), enclen)) == Join(labels)
  {
    if labels != [] {
      DottedIsJoin(labels);
    }
  }

  /** Expands a name that stands in parts: some labels at p, a pointer to some more at t, and a pointer from there
      to the rest of the name at u. The text is that of all labels, and the name takes the bytes up to and
      including the first pointer. */
  method ExpandTwicePointed(m: seq<Byte>, p: nat, ghost front: seq<seq<Byte>>, ghost t: nat, ghost middle: seq<seq<Byte>>,
                            ghost u: nat, ghost back: seq<seq<Byte>>) returns (status: int, s: seq<Byte>, enclen: nat)
    requires ValidLabels(front) && ValidLabels(middle) && ValidLabels(back)
    requires HoldsCompressed(m, p, front, t) && HoldsCompressed(m, t, middle, u) && Holds(m, u, Wire(back))
    ensures status == 0 && s == Join(front + middle + back) + [0] && enclen == |Body(front)| + 2
  {
    hide Expand, WellFormed, HoldsCompressed, Holds, Wire;
    WireExpands(m, u, back, 0);
    CompressedExpands(m, t, middle, u, 0);
    CompressedExpands(m, p, front, t, 1);
    AppendAssociates(Dotted(front), Dotted(middle), Dotted(back));
    DottedJoin(front, middle);
    DottedJoin(front + middle, back);
    Expanded(m, p, 2);
    NameOfDotted(front + middle + back, |Body(front)| + 2);
    status, s, enclen := ExpandName(p, m);
  }

  /** Expands a name of some labels and a pointer to the others. */
  method ExpandPointed(m: seq<Byte>, p: nat, ghost front: seq<seq<Byte>>, ghost t: nat, ghost back: seq<seq<Byte>>)
    returns (status: int, s: seq<Byte>, enclen: nat)
    requires ValidLabels(front) && ValidLabels(back)
    requires HoldsCompressed(m, p, front, t) && Holds(m, t, Wire(back))
    ensures status == 0 && s == Join(front + back) + [0] && enclen == |Body(front)| + 2
  {
    hide Expand, WellFormed, HoldsCompressed, Holds, Wire;
    WireExpands(m, t, back, 0);
    CompressedExpands(m, p, front, t, 0);
    DottedJoin(front, back);
    Expanded(m, p, 1);
    NameOfDotted(front + back, |Body(front)| + 2);
    status, s, enclen := ExpandName(p, m);
  }

  /** A few pointers are within the program's own budget. */
  lemma Expanded(m: seq<Byte>, p: nat, budget: nat)
    requires Expand(m, p, budget).Some?
    ensures WellFormed(m, p) && Expand(m, p, |m|) == Expand(m, p, budget)
  {
    var path := ExpansionWalks(m, p, budget);
    assert IsWalkFrom(m, p, path);
    ExpandsExactlyWellFormed(m, p);
    if budget <= |m| {
      BudgetIrrelevant(m, p, budget, |m|);
    } else {
      BudgetIrrelevant(m, p, |m|, budget);
    }
  }

  /** Two labels compressed: "b" at offset 17 with a pointer to "a" at offset 12. */
  method PointsToTwelve() returns (status: int, s: seq<Byte>, enclen: nat)
    ensures status == 0 && s == [98, 46, 97, 0] && enclen == 4
  {
    var m: seq<Byte> := [0, 0, 0, 0, 0, 0, 0, 0, 0, 0, 0, 0, 1, 97, 0, 9, 9, 1, 98, 192, 12];
    ghost var a: seq<Byte>, b: seq<Byte> := [97], [98];
    assert Wire([a][1..]) == [0] && m[12..15] == Wire([a]);
    assert Body([b][1..]) == [] && m[17..21] == Body([b]) + [192, 12];
    assert Escape(a[1..]) == [] && Escape(b[1..]) == [];
    assert [b] + [a] == [b, a] && [b, a][1..] == [a];
    assert Join([a]) == [97];
    status, s, enclen := ExpandPointed(m, 17, [b], 12, [a]);
  }
}
