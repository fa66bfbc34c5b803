/** A table of lists as the source keeps it: a ring of nodes per bucket, and one node per query, which is
    linked in at most one of them. Its operations are those of `Tables` on the sequences. */
module RingTables {
  import opened Tables
  import opened LinkedLists

  /** The nodes of a list of queries. */
  ghost function NodesOf(list: seq<Ref>, nodes: map<Ref, ListNode>): (s: seq<ListNode>)
    requires forall i :: 0 <= i < |list| ==> list[i] in nodes
    ensures |s| == |list| && forall i :: 0 <= i < |s| ==> s[i] == nodes[list[i]]
  {
    seq(|list|, i requires 0 <= i < |list| => nodes[list[i]])
  }

  /** All heads and nodes are different objects. */
  ghost predicate Apart(heads: seq<ListNode>, nodes: map<Ref, ListNode>) {
    && (forall a, b :: 0 <= a < b < |heads| ==> heads[a] != heads[b])
    && (forall b, r :: 0 <= b < |heads| && r in nodes ==> heads[b] != nodes[r])
    && (forall q, r :: q in nodes && r in nodes && q != r ==> nodes[q] != nodes[r])
  }

  /** What is listed has a node. */
  ghost predicate HasNodes(table: Table, nodes: map<Ref, ListNode>) {
    forall b, i :: 0 <= b < |table| && 0 <= i < |table[b]| ==> table[b][i] in nodes
  }

  lemma PlacedHasNodes(table: Table, at: map<Ref, nat>, nodes: map<Ref, ListNode>)
    requires Placed(table, at) && at.Keys <= nodes.Keys
    ensures HasNodes(table, nodes)
  {
    forall b, i | 0 <= b < |table| && 0 <= i < |table[b]|
      ensures table[b][i] in nodes
    {
      assert table[b][i] in table[b];
    }
  }

  /** Two buckets share no node. */
  lemma ListsApart(heads: seq<ListNode>, nodes: map<Ref, ListNode>, table: Table, at: map<Ref, nat>, a: nat, b: nat)
    requires Apart(heads, nodes) && Placed(table, at) && HasNodes(table, nodes) && |heads| == |table| && a < |table| && b < |table|
    ensures Distinct(heads[a], NodesOf(table[a], nodes)) && heads[b] !in NodesOf(table[a], nodes)
    ensures a != b ==> heads[a] != heads[b] && forall n :: n in NodesOf(table[a], nodes) ==> n !in NodesOf(table[b], nodes)
  {
    if a != b {
      forall i, j | 0 <= i < |table[a]| && 0 <= j < |table[b]|
        ensures NodesOf(table[a], nodes)[i] != NodesOf(table[b], nodes)[j]
      {
        var x, y := table[a][i], table[b][j];
        assert x in table[a] && y in table[b];
        assert at[x] == a && at[y] == b;
        assert nodes[x] != nodes[y];
      }
    }
  }

  /** The position of a member in its bucket. */
  ghost function IndexOf(list: seq<Ref>, r: Ref): (i: nat)
    requires r in list
    ensures i < |list| && list[i] == r
  {
    if list[0] == r then 0 else IndexOf(list[1..], r) + 1
  }

  lemma NodesWithoutAt(list: seq<Ref>, nodes: map<Ref, ListNode>, i: nat)
    requires NoDuplicates(list) && i < |list| && forall j :: 0 <= j < |list| ==> list[j] in nodes
    ensures forall j :: 0 <= j < |Without(list, list[i])| ==> Without(list, list[i])[j] in nodes
    ensures NodesOf(Without(list, list[i]), nodes) == NodesOf(list, nodes)[..i] + NodesOf(list, nodes)[i + 1..]
  {
    WithoutAt(list, i);
  }

  twostate predicate SameLinks(n: ListNode)
    reads n
  {
    n.next == old(n.next) && n.prev == old(n.prev)
  }

  /** Where everything is after two lists changed places. */
  ghost function Exchanged(at: map<Ref, nat>, a: nat, b: nat): map<Ref, nat> {
    map r | r in at :: if at[r] == a then b else if at[r] == b then a else at[r]
  }

  lemma ExchangePlaced(t: Table, at: map<Ref, nat>, a: nat, b: nat)
    requires Placed(t, at) && a < |t| && b < |t|
    ensures Placed(Swap(t, a, b), Exchanged(at, a, b))
    ensures t[b] == [] ==> Exchanged(at, a, b) == Renamed(at, a, b)
  {
    assert t[b] == [] ==> forall r :: r in at ==> at[r] != b;
  }

  class RingTable {
    const heads: seq<ListNode>
    var nodes: map<Ref, ListNode>
    // The lists, where each member is, and all heads and nodes
    ghost var table: Table
    ghost var at: map<Ref, nat>
    ghost var repr: set<ListNode>

    ghost predicate Shape()
      reads this
    {
      && |table| == |heads| && Apart(heads, nodes) && Placed(table, at)
      && at.Keys <= nodes.Keys && HasNodes(table, nodes)
      && (forall h :: h in heads ==> h in repr) && (forall r :: r in nodes ==> nodes[r] in repr)
    }

    /** Every bucket is a ring, and a node that is not listed is in none. */
    ghost predicate Valid()
      reads this, repr
    {
      && Shape()
      && (forall b :: 0 <= b < |heads| ==> Ring(heads[b], NodesOf(table[b], nodes)))
      && (forall r :: r in nodes && r !in at ==> nodes[r].next == null && nodes[r].prev == null)
    }

    /** Empty lists. */
    constructor (heads: seq<ListNode>)
      requires forall a, b :: 0 <= a < b < |heads| ==> heads[a] != heads[b]
      modifies heads
      ensures Valid() && this.heads == heads && nodes == map[] && table == seq(|heads|, _ => [])
      ensures repr == set h | h in heads
    {
      for i := 0 to |heads|
        invariant forall b :: 0 <= b < i ==> Ring(heads[b], [])
      {
        InitListHead(heads[i]);
      }
      this.heads := heads;
      nodes, table, at := map[], seq(|heads|, _ => []), map[];
      repr := set h | h in heads;
    }

    /** A new query gets its node, which is in no list yet. */
    method AddNode(r: Ref, node: ListNode, data: object?)
      requires Valid() && r !in nodes && node !in repr
      modifies this`nodes, this`repr, node
      ensures Valid() && nodes == old(nodes)[r := node] && table == old(table) && at == old(at) && node.data == data
      ensures repr == old(repr) + {node}
    {
      InitListNode(node, data);
      RingsUnchanged();
      assert forall b :: 0 <= b < |heads| ==> NodesOf(table[b], nodes) == NodesOf(table[b], nodes[r := node]);
      nodes, repr := nodes[r := node], repr + {node};
    }

    /** A ring none of whose objects changed is still one. */
    twostate lemma RingUnchanged(c: nat)
      requires old(Valid()) && nodes == old(nodes) && table == old(table) && at == old(at) && repr == old(repr) && c < |heads|
      requires forall n :: n == heads[c] || n in NodesOf(table[c], nodes) ==> SameLinks(n)
      ensures Ring(heads[c], NodesOf(table[c], nodes))
    {
      ghost var head, list := heads[c], NodesOf(table[c], nodes);
      forall k | 0 <= k <= |list|
        ensures Linked(Cell(head, list, k), Cell(head, list, k + 1))
      {
        assert old(Linked(Cell(head, list, k), Cell(head, list, k + 1)));
        assert k > 0 ==> list[k - 1] in list;
        assert k < |list| ==> list[k] in list;
      }
    }

    twostate lemma RingsUnchanged()
      requires old(Valid()) && nodes == old(nodes) && table == old(table) && at == old(at) && repr == old(repr)
      requires forall o :: o in repr ==> SameLinks(o)
      ensures forall c :: 0 <= c < |heads| ==> Ring(heads[c], NodesOf(table[c], nodes))
    {
      forall c | 0 <= c < |heads|
        ensures Ring(heads[c], NodesOf(table[c], nodes))
      {
        RingUnchanged(c);
      }
    }

    /** The rings of the other buckets do not see what happens in some, and to nodes in none. */
    twostate lemma OthersUnchanged(some: set<nat>)
      requires old(Valid()) && nodes == old(nodes) && table == old(table) && at == old(at) && repr == old(repr)
      requires forall c: nat :: c < |heads| && c !in some ==> SameLinks(heads[c])
      requires forall q :: q in at && at[q] !in some ==> SameLinks(nodes[q])
      ensures forall c: nat :: c < |heads| && c !in some ==> Ring(heads[c], NodesOf(table[c], nodes))
    {
      forall c: nat | c < |heads| && c !in some
        ensures Ring(heads[c], NodesOf(table[c], nodes))
      {
        ListedThere(c);
        RingUnchanged(c);
      }
    }

    /** The nodes in the ring of bucket c are those of its members. */
    lemma ListedThere(c: nat)
      requires Shape() && c < |table|
      ensures forall n :: n in NodesOf(table[c], nodes) ==> exists q :: q in at && at[q] == c && nodes[q] == n
      ensures forall q :: q in nodes && nodes[q] in NodesOf(table[c], nodes) ==> q in at && at[q] == c
      ensures forall b :: 0 <= b < |heads| ==> heads[b] !in NodesOf(table[c], nodes)
    {
      assert forall i :: 0 <= i < |table[c]| ==> table[c][i] in table[c];
    }

    /** Where r is listed, and where not. */
    lemma Whereabouts(r: Ref)
      requires Shape()
      ensures r in at ==> r in nodes && at[r] < |table| && r in table[at[r]] && NoDuplicates(table[at[r]])
      ensures forall c :: 0 <= c < |table| && (r in at ==> c != at[r]) ==> r !in table[c]
    {
    }

    /** o belongs to bucket b or is the node of r. */
    ghost predicate OnlyIn(o: ListNode?, b: nat, r: Ref)
      reads this
    {
      && (forall c :: 0 <= c < |heads| && c != b ==> heads[c] != o)
      && (forall q :: q in nodes && nodes[q] == o ==> q == r || (q in at && at[q] == b))
    }

    /** What the links of a member point to lies in its own ring. */
    lemma LinksInside(r: Ref)
      requires Valid() && r in at
      ensures r in nodes && nodes[r].next != null && nodes[r].prev != null
      ensures nodes[r].next in repr && nodes[r].prev in repr && nodes[r] in repr
      ensures at[r] < |heads|
      ensures OnlyIn(nodes[r], at[r], r) && OnlyIn(nodes[r].next, at[r], r) && OnlyIn(nodes[r].prev, at[r], r)
    {
      var b := at[r];
      Whereabouts(r);
      ListedThere(b);
      Neighbours(heads[b], NodesOf(table[b], nodes), IndexOf(table[b], r) + 1);
    }

    /** `ares__remove_from_list`: out of whichever list it is in, if any. */
    method RemoveMember(r: Ref)
      requires Valid() && r in nodes
      modifies this`table, this`at, repr
      ensures Valid() && nodes == old(nodes) && table == Remove(old(table), r) && at == old(at) - {r}
    {
      hide Placed, Ring, Apart, Remove;
      ghost var head, list, i := nodes[r], [], 0;
      Whereabouts(r);
      if r in at {
        LinksInside(r);
        head, list, i := heads[at[r]], NodesOf(table[at[r]], nodes), IndexOf(table[at[r]], r);
      }
      RemovedNodes(r);
      RemoveFromList(nodes[r], head, list, i);
      if r in at {
        OthersUnchanged({at[r]});
      } else {
        RingsUnchanged();
      }
      table, at := Remove(table, r), at - {r};
    }

    /** The table without r, as nodes. */
    lemma RemovedNodes(r: Ref)
      requires Shape()
      ensures |Remove(table, r)| == |table| && Placed(Remove(table, r), at - {r}) && HasNodes(Remove(table, r), nodes)
      ensures forall c :: 0 <= c < |table| && (r in at ==> c != at[r]) ==> Remove(table, r)[c] == table[c]
      ensures r in at ==> at[r] < |table| && r in table[at[r]]
      ensures r in at ==>
        var i, list := IndexOf(table[at[r]], r), NodesOf(table[at[r]], nodes);
        NodesOf(Remove(table, r)[at[r]], nodes) == list[..i] + list[i + 1..]
    {
      hide Placed, Apart, NoDuplicates, Without;
      RemovePlaced(table, at, r);
      PlacedHasNodes(Remove(table, r), at - {r}, nodes);
      Whereabouts(r);
      forall c | 0 <= c < |table| && (r in at ==> c != at[r])
        ensures Remove(table, r)[c] == table[c]
      {
        WithoutAbsent(table[c], r);
      }
      if r in at {
        NodesWithoutAt(table[at[r]], nodes, IndexOf(table[at[r]], r));
      }
    }

    /** `ares__insert_in_list` before a head: at the end of its list. */
    method InsertMember(r: Ref, b: nat)
      requires Valid() && r in nodes && r !in at && b < |heads|
      modifies this`table, this`at, repr
      ensures Valid() && nodes == old(nodes) && b < |old(table)| && table == Append(old(table), b, r) && at == old(at)[r := b]
    {
      hide Placed, Ring, Apart, NoDuplicates;
      ghost var list := NodesOf(table[b], nodes);
      EndOf(b, r);
      AppendedNodes(r, b);
      InsertInList(nodes[r], heads[b], heads[b], list, |list|);
      OthersUnchanged({b});
      assert list[..|list|] + [nodes[r]] + list[|list|..] == list + [nodes[r]];
      table, at := Append(table, b, r), at[r := b];
    }

    /** The end of a list, before which another node r goes. */
    lemma EndOf(b: nat, r: Ref)
      requires Valid() && b < |heads| && r in nodes && r !in at
      ensures heads[b].prev != null && heads[b].prev in repr && heads[b] in repr && nodes[r] in repr
      ensures nodes[r] != heads[b] && nodes[r] !in NodesOf(table[b], nodes)
      ensures Ring(heads[b], NodesOf(table[b], nodes))
      ensures OnlyIn(nodes[r], b, r) && OnlyIn(heads[b], b, r) && OnlyIn(heads[b].prev, b, r)
    {
      ListedThere(b);
      Neighbours(heads[b], NodesOf(table[b], nodes), |table[b]| + 1);
    }

    /** The table with r at the end of a list, as nodes. */
    lemma AppendedNodes(r: Ref, b: nat)
      requires Shape() && r in nodes && r !in at && b < |table|
      ensures Placed(Append(table, b, r), at[r := b]) && HasNodes(Append(table, b, r), nodes)
      ensures NodesOf(Append(table, b, r)[b], nodes) == NodesOf(table[b], nodes) + [nodes[r]]
    {
      AppendPlaced(table, at, r, b);
      PlacedHasNodes(Append(table, b, r), at[r := b], nodes);
    }

    /** Re-sending a query: out of its list and into another one. */
    method MoveMember(r: Ref, b: nat)
      requires Valid() && r in nodes && b < |heads|
      modifies this`table, this`at, repr
      ensures Valid() && nodes == old(nodes) && b < |old(table)|
      ensures table == Append(Remove(old(table), r), b, r) && at == old(at)[r := b]
    {
      hide Placed, Ring, Apart, NoDuplicates, Remove, Append;
      RemoveMember(r);
      InsertMember(r, b);
      assert (old(at) - {r})[r := b] == old(at)[r := b];
    }

    /** `swap_lists` on two of the heads. */
    method SwapMembers(a: nat, b: nat)
      requires Valid() && a < |heads| && b < |heads| && a != b
      modifies this`table, this`at, repr
      ensures Valid() && nodes == old(nodes) && |heads| == |old(table)| && table == Swap(old(table), a, b)
      ensures at == Exchanged(old(at), a, b)
    {
      hide Placed, Ring, Apart, NoDuplicates;
      ListsApart(heads, nodes, table, at, a, b);
      ListsApart(heads, nodes, table, at, b, a);
      HeadInside(a);
      HeadInside(b);
      SwappedNodes(a, b);
      SwapLists(heads[a], heads[b], NodesOf(table[a], nodes), NodesOf(table[b], nodes));
      OthersUnchanged({a, b});
      table, at := Swap(table, a, b), Exchanged(at, a, b);
    }

    /** What the links of a head point to lies in its own ring. */
    lemma HeadInside(b: nat)
      requires Valid() && b < |heads|
      ensures heads[b].next != null && heads[b].prev != null
      ensures heads[b] in repr && heads[b].next in repr && heads[b].prev in repr
      ensures Ring(heads[b], NodesOf(table[b], nodes))
      ensures OnlyThere(heads[b], b) && OnlyThere(heads[b].next, b) && OnlyThere(heads[b].prev, b)
    {
      ListedThere(b);
      Neighbours(heads[b], NodesOf(table[b], nodes), |table[b]| + 1);
      Neighbours(heads[b], NodesOf(table[b], nodes), 1);
    }

    ghost predicate OnlyThere(o: ListNode?, b: nat)
      reads this
    {
      && (forall c :: 0 <= c < |heads| && c != b ==> heads[c] != o)
      && (forall q :: q in nodes && nodes[q] == o ==> q in at && at[q] == b)
    }

    lemma SwappedNodes(a: nat, b: nat)
      requires Shape() && a < |table| && b < |table|
      ensures Placed(Swap(table, a, b), Exchanged(at, a, b)) && HasNodes(Swap(table, a, b), nodes)
      ensures Exchanged(at, a, b).Keys == at.Keys
    {
      ExchangePlaced(table, at, a, b);
      PlacedHasNodes(Swap(table, a, b), Exchanged(at, a, b), nodes);
    }
  }
}
