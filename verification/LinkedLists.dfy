/** Circular doubly linked lists with a dummy head, threaded through the listed objects
    (`ares_llist.c`, and the two operations on whole lists, `swap_lists` and the head copy of
    `ares_cancel`). A list is the sequence of its nodes; every operation touches only the nodes
    whose links change. */
module LinkedLists {

  class ListNode {
    var prev: ListNode?
    var next: ListNode?
    var data: object?

    constructor ()
      ensures prev == null && next == null && data == null
    {
      prev, next, data := null, null, null;
    }
  }

  /** Position k of the ring: the head at both ends, the nodes from 1 on in between. */
  function Cell(head: ListNode, nodes: seq<ListNode>, k: nat): ListNode {
    if 1 <= k <= |nodes| then nodes[k - 1] else head
  }

  ghost predicate Linked(x: ListNode, y: ListNode)
    reads x, y
  {
    x.next == y && y.prev == x
  }

  ghost predicate Distinct(head: ListNode, nodes: seq<ListNode>) {
    head !in nodes && forall i, j :: 0 <= i < j < |nodes| ==> nodes[i] != nodes[j]
  }

  ghost predicate Ring(head: ListNode, nodes: seq<ListNode>)
    reads head, nodes
  {
    Distinct(head, nodes) && forall k :: 0 <= k <= |nodes| ==> Linked(Cell(head, nodes, k), Cell(head, nodes, k + 1))
  }

  /** Both neighbours of position k. */
  lemma Neighbours(head: ListNode, nodes: seq<ListNode>, k: nat)
    requires Ring(head, nodes) && 1 <= k <= |nodes| + 1
    ensures Linked(Cell(head, nodes, k - 1), Cell(head, nodes, k))
    ensures Cell(head, nodes, k).prev == Cell(head, nodes, k - 1)
    ensures k <= |nodes| ==> Cell(head, nodes, k).next == Cell(head, nodes, k + 1)
  {
    if k <= |nodes| {
      assert Linked(Cell(head, nodes, k), Cell(head, nodes, k + 1));
    }
  }

  method InitListHead(head: ListNode)
    modifies head
    ensures Ring(head, []) && head.data == null
  {
    head.prev := head;
    head.next := head;
    head.data := null;
  }

  method InitListNode(node: ListNode, d: object?)
    modifies node
    ensures node.prev == null && node.next == null && node.data == d
  {
    node.prev := null;
    node.next := null;
    node.data := d;
  }

  method IsListEmpty(head: ListNode, ghost nodes: seq<ListNode>) returns (empty: bool)
    requires Ring(head, nodes)
    ensures empty <==> nodes == []
  {
    assert Linked(Cell(head, nodes, 0), Cell(head, nodes, 1));
    empty := head.next == head && head.prev == head;
  }

  /** Inserts a node before another one of the list; before the head means at the end. */
  method InsertInList(newNode: ListNode, oldNode: ListNode,
                      ghost head: ListNode, ghost nodes: seq<ListNode>, ghost i: nat)
    requires Ring(head, nodes) && newNode != head && newNode !in nodes
    requires i <= |nodes| && oldNode == Cell(head, nodes, i + 1)
    modifies newNode, oldNode, oldNode.prev
    ensures Ring(head, nodes[..i] + [newNode] + nodes[i..])
  {
    ghost var nodes' := nodes[..i] + [newNode] + nodes[i..];
    Neighbours(head, nodes, i + 1);
    newNode.next := oldNode;
    newNode.prev := oldNode.prev;
    oldNode.prev.next := newNode;
    oldNode.prev := newNode;
    forall k | 0 <= k <= |nodes'|
      ensures Linked(Cell(head, nodes', k), Cell(head, nodes', k + 1))
    {
      if k < i || k > i + 1 {
        var j := if k < i then k else k - 1;
        assert old(Linked(Cell(head, nodes, j), Cell(head, nodes, j + 1)));
        assert Cell(head, nodes', k) == Cell(head, nodes, j) && Cell(head, nodes', k + 1) == Cell(head, nodes, j + 1);
      } else {
        assert Cell(head, nodes', i) == Cell(head, nodes, i) && Cell(head, nodes', i + 2) == Cell(head, nodes, i + 1);
      }
    }
  }

  /** Removes a node from the list it is in; does nothing to a node in no list. */
  method RemoveFromList(node: ListNode, ghost head: ListNode, ghost nodes: seq<ListNode>, ghost i: nat)
    requires node.next != null ==> Ring(head, nodes) && i < |nodes| && nodes[i] == node
    requires node.next == null ==> node.prev == null
    modifies node, node.prev, node.next
    ensures node.prev == null && node.next == null
    ensures old(node.next) != null ==> Ring(head, nodes[..i] + nodes[i + 1..])
  {
    if node.next != null {
      ghost var nodes' := nodes[..i] + nodes[i + 1..];
      Neighbours(head, nodes, i + 1);
      node.prev.next := node.next;
      node.next.prev := node.prev;
      node.prev := null;
      node.next := null;
      forall k | 0 <= k <= |nodes'|
        ensures Linked(Cell(head, nodes', k), Cell(head, nodes', k + 1))
      {
        if k == i {
          assert Cell(head, nodes', i) == Cell(head, nodes, i) && Cell(head, nodes', i + 1) == Cell(head, nodes, i + 2);
        } else {
          var j := if k < i then k else k + 1;
          assert old(Linked(Cell(head, nodes, j), Cell(head, nodes, j + 1)));
          assert Cell(head, nodes', k) == Cell(head, nodes, j) && Cell(head, nodes', k + 1) == Cell(head, nodes, j + 1);
        }
      }
    }
  }

  /** The dummy head `to` takes over a list from the head `from`: an empty list by closing the ring
      on itself, any other by redirecting the first and the last node. */
  method TakeOver(from: ListNode, to: ListNode, next: ListNode?, prev: ListNode?, ghost nodes: seq<ListNode>)
    requires Distinct(to, nodes) && from != to && from !in nodes
    requires nodes != [] ==> next == nodes[0] && prev == nodes[|nodes| - 1]
    requires nodes == [] ==> next == null && prev == null
    requires forall k :: 1 <= k < |nodes| ==> Linked(Cell(from, nodes, k), Cell(from, nodes, k + 1))
    modifies to, next, prev
    ensures Ring(to, nodes)
  {
    if next == null || prev == null {
      InitListHead(to);
    } else {
      to.prev, to.next := prev, next;
      next.prev := to;
      prev.next := to;
      forall k | 0 <= k <= |nodes|
        ensures Linked(Cell(to, nodes, k), Cell(to, nodes, k + 1))
      {
        if 1 <= k < |nodes| {
          assert old(Linked(Cell(from, nodes, k), Cell(from, nodes, k + 1)));
        }
      }
    }
  }

  /** First and last node of a nonempty list are the head's neighbours. */
  lemma Ends(head: ListNode, nodes: seq<ListNode>)
    requires Ring(head, nodes) && nodes != []
    ensures head.next == nodes[0] && head.prev == nodes[|nodes| - 1]
  {
    Neighbours(head, nodes, 1);
    Neighbours(head, nodes, |nodes| + 1);
  }

  /** `swap_lists`: two heads exchange their lists. */
  method SwapLists(headA: ListNode, headB: ListNode, ghost a: seq<ListNode>, ghost b: seq<ListNode>)
    requires Ring(headA, a) && Ring(headB, b) && headA != headB
    requires headA !in b && headB !in a && (forall n :: n in a ==> n !in b)
    modifies headA, headB, headA.next, headA.prev, headB.next, headB.prev
    ensures Ring(headA, b) && Ring(headB, a)
  {
    var isAEmpty := IsListEmpty(headA, a);
    var isBEmpty := IsListEmpty(headB, b);
    var nextA, prevA, nextB, prevB := headA.next, headA.prev, headB.next, headB.prev;
    if a != [] {
      Ends(headA, a);
    }
    if b != [] {
      Ends(headB, b);
    }
    TakeOver(headA, headB, if isAEmpty then null else nextA, if isAEmpty then null else prevA, a);
    forall k | 1 <= k < |b|
      ensures Linked(Cell(headB, b, k), Cell(headB, b, k + 1))
    {
      assert old(Linked(Cell(headB, b, k), Cell(headB, b, k + 1)));
      assert b[k - 1] in b && b[k] in b && (a != [] ==> a[0] in a && a[|a| - 1] in a);
    }
    label First:
    TakeOver(headB, headA, if isBEmpty then null else nextB, if isBEmpty then null else prevB, b);
    forall k | 0 <= k <= |a|
      ensures Linked(Cell(headB, a, k), Cell(headB, a, k + 1))
    {
      assert old@First(Linked(Cell(headB, a, k), Cell(headB, a, k + 1)));
      assert (k > 0 ==> a[k - 1] in a) && (k < |a| ==> a[k] in a) && (b != [] ==> b[0] in b && b[|b| - 1] in b);
    }
  }

  /** The head copy of `ares_cancel`: a nonempty list moves to a fresh head and leaves an empty one. */
  method StealList(head: ListNode, copy: ListNode, ghost nodes: seq<ListNode>)
    requires Ring(head, nodes) && nodes != [] && copy != head && copy !in nodes
    modifies head, copy, head.next, head.prev
    ensures Ring(copy, nodes) && Ring(head, [])
  {
    Ends(head, nodes);
    TakeOver(head, copy, head.next, head.prev, nodes);
    label Taken:
    head.prev := head;
    head.next := head;
    forall k | 0 <= k <= |nodes|
      ensures Linked(Cell(copy, nodes, k), Cell(copy, nodes, k + 1))
    {
      assert old@Taken(Linked(Cell(copy, nodes, k), Cell(copy, nodes, k + 1)));
    }
  }
}
