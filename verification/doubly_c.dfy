/** The C doubly linked list of docs/linked-list/code/doubly_linked_list.c.

    As for the singly linked list, `Node **head` is modelled by returning
    the new head, and a ghost sequence of nodes, in list order, is what the
    `next` and `prev` fields are proved against. "Index out of bounds" is
    `ok == false`. The source keeps no tail pointer and has no deletions. */
module DoublyC {
  import Sequences

  class Node {
    var data: int
    var next: Node?
    var prev: Node?

    /** `create_node`: a fresh node holding `data`, both links NULL. */
    constructor (data: int)
      ensures this.data == data && next == null && prev == null
    {
      this.data := data;
      next := null;
      prev := null;
    }
  }

  // Starts, Succ, Values and the Values lemmas repeat those of SinglyC:
  // this Node is a different class, with a `prev` field.

  /** `head` is the first of `nodes`, NULL when there are none. */
  predicate Starts(head: Node?, nodes: seq<Node>)
  {
    if nodes == [] then head == null else head == nodes[0]
  }

  /** Where `next` of the node at position `k` must point. */
  function Succ(nodes: seq<Node>, k: int): Node?
    requires 0 <= k < |nodes|
  {
    if k + 1 < |nodes| then nodes[k + 1] else null
  }

  /** Where `prev` of the node at position `k` must point. */
  function Pred(nodes: seq<Node>, k: int): Node?
    requires 0 <= k < |nodes|
  {
    if k > 0 then nodes[k - 1] else null
  }

  /** A consistent doubly linked list: walking `next` from `head` visits
      exactly the distinct `nodes` and then NULL; the head's `prev` is NULL
      and for every adjacent pair A -> B, `B->prev == A`. */
  ghost predicate Doubly(head: Node?, nodes: seq<Node>)
    reads nodes
  {
    && Starts(head, nodes)
    && Sequences.Distinct(nodes)
    && (forall k {:trigger nodes[k].next} :: 0 <= k < |nodes| ==> nodes[k].next == Succ(nodes, k))
    && (forall k {:trigger nodes[k].prev} :: 0 <= k < |nodes| ==> nodes[k].prev == Pred(nodes, k))
  }

  /** The values held by `nodes`, in order. */
  ghost function Values(nodes: seq<Node>): (s: seq<int>)
    reads nodes
    ensures |s| == |nodes|
    ensures forall i :: 0 <= i < |nodes| ==> s[i] == nodes[i].data
  {
    seq(|nodes|, i requires 0 <= i < |nodes| reads nodes => nodes[i].data)
  }

  /** The values met by following `prev` from `from`, for at most `steps`
      nodes or until NULL. */
  ghost function WalkBack(nodes: seq<Node>, from: Node?, steps: nat): seq<int>
    reads nodes
    requires from == null || from in nodes
    requires forall x :: x in nodes ==> x.prev == null || x.prev in nodes
    decreases steps
  {
    if from == null || steps == 0 then []
    else [from.data] + WalkBack(nodes, from.prev, steps - 1)
  }

  /** Under the list invariant every `prev` is NULL or one of the nodes. */
  lemma PrevClosed(head: Node?, nodes: seq<Node>)
    requires Doubly(head, nodes)
    ensures forall x :: x in nodes ==> x.prev == null || x.prev in nodes
  {
    forall x | x in nodes
      ensures x.prev == null || x.prev in nodes
    {
      var k :| 0 <= k < |nodes| && nodes[k] == x;
      assert x.prev == Pred(nodes, k);
    }
  }

  /** Walking `prev` from position `i` visits the values at positions
      `i`, `i - 1`, ..., `0` and then reaches NULL. */
  lemma {:induction false} WalkBackFrom(head: Node?, nodes: seq<Node>, i: nat, steps: nat)
    requires Doubly(head, nodes) && i < |nodes| && steps > i
    requires forall x :: x in nodes ==> x.prev == null || x.prev in nodes
    ensures WalkBack(nodes, nodes[i], steps) == Sequences.Reverse(Values(nodes)[..i + 1])
  {
    var vs := Values(nodes);
    if i == 0 {
      assert nodes[0].prev == Pred(nodes, 0) == null;
      assert WalkBack(nodes, nodes[0], steps) == [vs[0]];
      Sequences.ReversePrefixStep(vs, 0);
      assert vs[..0] == [];
    } else {
      assert nodes[i].prev == Pred(nodes, i) == nodes[i - 1];
      var rest := WalkBack(nodes, nodes[i - 1], steps - 1);
      assert WalkBack(nodes, nodes[i], steps) == [vs[i]] + rest;
      WalkBackFrom(head, nodes, i - 1, steps - 1);
      assert rest == Sequences.Reverse(vs[..i]);
      Sequences.ReversePrefixStep(vs, i);
    }
  }

  /** Under the list invariant, walking `prev` from the last node visits
      the forward sequence back to front, and no more than that however
      many steps are allowed. */
  lemma BackwardIsReverse(head: Node?, nodes: seq<Node>, steps: nat)
    requires Doubly(head, nodes) && nodes != [] && steps >= |nodes|
    ensures forall x :: x in nodes ==> x.prev == null || x.prev in nodes
    ensures WalkBack(nodes, nodes[|nodes| - 1], steps) == Sequences.Reverse(Values(nodes))
  {
    PrevClosed(head, nodes);
    WalkBackFrom(head, nodes, |nodes| - 1, steps);
    assert Values(nodes)[..|nodes|] == Values(nodes);
  }

  /** Rewriting links leaves the values where they were. */
  twostate lemma ValuesKept(nodes: seq<Node>)
    requires forall k :: 0 <= k < |nodes| ==> nodes[k].data == old(nodes[k].data)
    ensures Values(nodes) == old(Values(nodes))
  {
  }

  lemma ValuesInsert(nodes: seq<Node>, index: nat, x: Node)
    requires index <= |nodes|
    ensures Values(Sequences.InsertAt(nodes, index, x)) == Sequences.InsertAt(Values(nodes), index, x.data)
  {
  }

  /** `x` has been linked in at position `index`: its neighbours point to
      it, it points to them, and every other link is as before. */
  lemma SplicedDoubly(nodes: seq<Node>, index: nat, x: Node)
    requires Sequences.Distinct(nodes) && x !in nodes && index <= |nodes|
    requires forall k :: 0 <= k < |nodes| && k != index - 1 ==> nodes[k].next == Succ(nodes, k)
    requires forall k :: 0 <= k < |nodes| && k != index ==> nodes[k].prev == Pred(nodes, k)
    requires index > 0 ==> nodes[index - 1].next == x
    requires index < |nodes| ==> nodes[index].prev == x
    requires x.prev == (if index > 0 then nodes[index - 1] else null)
    requires x.next == (if index < |nodes| then nodes[index] else null)
    ensures Doubly(Sequences.InsertAt(nodes, index, x)[0], Sequences.InsertAt(nodes, index, x))
  {
    var r := Sequences.InsertAt(nodes, index, x);
    Sequences.DistinctInsert(nodes, index, x);
    forall k | 0 <= k < |r|
      ensures r[k].next == Succ(r, k) && r[k].prev == Pred(r, k)
    {
      if k < index {
        assert r[k] == nodes[k];
      } else if k > index {
        assert r[k] == nodes[k - 1];
      }
    }
  }

  /** `insert_at_head`: the new node gets `prev == NULL` and `next` the old
      head; the old head, if any, gets `prev` the new node. */
  method InsertAtHead(head: Node?, ghost nodes: seq<Node>, data: int)
    returns (newHead: Node, ghost newNodes: seq<Node>)
    requires Doubly(head, nodes)
    modifies nodes
    ensures fresh(newHead) && newNodes == [newHead] + nodes
    ensures Doubly(newHead, newNodes)
    ensures Values(newNodes) == [data] + old(Values(nodes))
    ensures newHead.prev == null && (head != null ==> head.prev == newHead)
  {
    var newNode := new Node(data);
    newNode.prev := null;
    newNode.next := head;
    if head != null {
      head.prev := newNode;
    }
    newHead, newNodes := newNode, [newNode] + nodes;
    forall k | 0 <= k < |nodes|
      ensures nodes[k].next == Succ(nodes, k)
      ensures k != 0 ==> nodes[k].prev == Pred(nodes, k)
    {
      assert old(nodes[k].next) == Succ(nodes, k) && old(nodes[k].prev) == Pred(nodes, k);
      assert k != 0 ==> nodes[k] != head;
    }
    assert newNodes == Sequences.InsertAt(nodes, 0, newNode);
    SplicedDoubly(nodes, 0, newNode);
    ValuesKept(nodes);
    ValuesInsert(nodes, 0, newNode);
  }

  /** `insert_at_tail`: on an empty list the new node becomes the head with
      `prev == NULL`; otherwise the walk stops at the last node, whose
      `next` becomes the new node, whose `prev` becomes that last node. */
  method InsertAtTail(head: Node?, ghost nodes: seq<Node>, data: int)
    returns (newHead: Node, ghost newNodes: seq<Node>)
    requires Doubly(head, nodes)
    modifies nodes
    ensures |newNodes| == |nodes| + 1 && newNodes[..|nodes|] == nodes
    ensures fresh(newNodes[|nodes|])
    ensures head != null ==> newHead == head
    ensures Doubly(newHead, newNodes)
    ensures Values(newNodes) == old(Values(nodes)) + [data]
    ensures newNodes[|nodes|].next == null
    ensures newNodes[|nodes|].prev == if nodes == [] then null else nodes[|nodes| - 1]
  {
    var newNode := new Node(data);
    newNode.next := null;
    if head == null {
      newNode.prev := null;
      return newNode, [newNode];
    }
    var current := head;
    ghost var i := 0;
    while current.next != null
      invariant 0 <= i < |nodes| && current == nodes[i]
      decreases |nodes| - i
    {
      current := current.next;
      i := i + 1;
    }
    assert i == |nodes| - 1;
    current.next := newNode;
    newNode.prev := current;
    newHead, newNodes := head, nodes + [newNode];
    forall k | 0 <= k < |nodes|
      ensures k != i ==> nodes[k].next == Succ(nodes, k)
      ensures nodes[k].prev == Pred(nodes, k)
    {
      assert old(nodes[k].next) == Succ(nodes, k) && old(nodes[k].prev) == Pred(nodes, k);
      assert k != i ==> nodes[k] != current;
    }
    assert newNodes == Sequences.InsertAt(nodes, |nodes|, newNode);
    SplicedDoubly(nodes, |nodes|, newNode);
    ValuesKept(nodes);
    ValuesInsert(nodes, |nodes|, newNode);
  }

  /** `insert_at_index`: position 0 goes through `insert_at_head`;
      otherwise the cursor stops at position `index - 1` (position 0 for a
      negative `index`) or at NULL, whichever comes first. At NULL nothing
      changes and no node is created; else `LinkAfter` splices the new node
      in after the cursor. */
  method InsertAtIndex(head: Node?, ghost nodes: seq<Node>, data: int, index: int)
    returns (newHead: Node?, ghost newNodes: seq<Node>, ok: bool)
    requires Doubly(head, nodes)
    modifies nodes
    ensures ok <==> Sequences.EffectivePosition(index) <= |nodes|
    ensures Doubly(newHead, newNodes)
    ensures ok ==> |newNodes| == |nodes| + 1 && fresh(newNodes[Sequences.EffectivePosition(index)])
    ensures ok ==> newNodes == Sequences.InsertAt(nodes, Sequences.EffectivePosition(index), newNodes[Sequences.EffectivePosition(index)])
    ensures ok ==> Values(newNodes) == Sequences.InsertAt(old(Values(nodes)), Sequences.EffectivePosition(index), data)
    ensures !ok ==> newHead == head && newNodes == nodes && unchanged(nodes)
  {
    if index == 0 {
      newHead, newNodes := InsertAtHead(head, nodes, data);
      assert newNodes == Sequences.InsertAt(nodes, 0, newHead);
      return newHead, newNodes, true;
    }
    ghost var p := Sequences.EffectivePosition(index);
    var current := head;
    var i := 0;
    while i < index - 1 && current != null
      invariant 0 <= i <= p - 1 && i <= |nodes|
      invariant current == if i < |nodes| then nodes[i] else null
      decreases p - 1 - i
    {
      current := current.next;
      i := i + 1;
    }
    if current == null {
      return head, nodes, false;
    }
    assert i == p - 1 && current == nodes[p - 1];
    var newNode := LinkAfter(current, nodes, p, data);
    newHead, newNodes, ok := head, Sequences.InsertAt(nodes, p, newNode), true;
  }

  /** The end of `insert_at_index`: a new node is linked in between the
      cursor `nodes[p - 1]` and its successor, whose `prev` is updated only
      if it exists. */
  method LinkAfter(current: Node, ghost nodes: seq<Node>, ghost p: nat, data: int)
    returns (newNode: Node)
    requires 0 < p <= |nodes| && Doubly(nodes[0], nodes) && current == nodes[p - 1]
    modifies nodes
    ensures fresh(newNode)
    ensures Doubly(nodes[0], Sequences.InsertAt(nodes, p, newNode))
    ensures Values(Sequences.InsertAt(nodes, p, newNode)) == Sequences.InsertAt(old(Values(nodes)), p, data)
    ensures newNode.prev == current && newNode.next == Succ(nodes, p - 1)
  {
    newNode := new Node(data);
    newNode.next := current.next;
    newNode.prev := current;
    if current.next != null {
      current.next.prev := newNode;
    }
    current.next := newNode;
    forall k | 0 <= k < |nodes|
      ensures k != p - 1 ==> nodes[k].next == Succ(nodes, k)
      ensures k != p ==> nodes[k].prev == Pred(nodes, k)
    {
      assert old(nodes[k].next) == Succ(nodes, k) && old(nodes[k].prev) == Pred(nodes, k);
      assert k != p - 1 ==> nodes[k] != current;
      assert p < |nodes| && k != p ==> nodes[k] != nodes[p];
    }
    SplicedDoubly(nodes, p, newNode);
    ValuesKept(nodes);
    ValuesInsert(nodes, p, newNode);
  }
}
