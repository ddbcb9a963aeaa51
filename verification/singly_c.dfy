/** The C singly linked list of docs/linked-list/code/singly.c.

    Nodes are heap objects. A function that takes `Node **head` and writes
    `*head` is a method that returns the new head; the caller stores it
    back. Every method also takes, as a ghost parameter, the sequence of
    nodes reachable from the head, in order, and returns the new one: that
    sequence is what the pointer fields are proved against. Freeing a node
    is unlinking it. Where the C code prints "Index out of bounds" or "List
    is empty" and returns, the method returns `ok == false`. */
module SinglyC {
  import Sequences

  class Node {
    var data: int
    var next: Node?

    /** `create_node`: a fresh node holding `data` whose `next` is NULL. */
    constructor (data: int)
      ensures this.data == data && next == null
    {
      this.data := data;
      next := null;
    }
  }

  // Starts, Succ, Values and the Values lemmas are repeated in DoublyC:
  // its Node is a different class, with a `prev` field.

  /** `head` is the first of `nodes`, NULL when there are none. */
  predicate Starts(head: Node?, nodes: seq<Node>)
  {
    if nodes == [] then head == null else head == nodes[0]
  }

  /** Where the `next` of the node at position `k` must point in a
      NULL-terminated list. */
  function Succ(nodes: seq<Node>, k: int): Node?
    requires 0 <= k < |nodes|
  {
    if k + 1 < |nodes| then nodes[k + 1] else null
  }

  /** A NULL-terminated list: walking `next` from `head` visits exactly
      the distinct `nodes`, in order, and then reaches NULL. */
  ghost predicate Chain(head: Node?, nodes: seq<Node>)
    reads nodes
  {
    && Starts(head, nodes)
    && Sequences.Distinct(nodes)
    && (forall k {:trigger nodes[k].next} :: 0 <= k < |nodes| ==> nodes[k].next == Succ(nodes, k))
  }

  /** The values held by `nodes`, in order. */
  ghost function Values(nodes: seq<Node>): (s: seq<int>)
    reads nodes
    ensures |s| == |nodes|
    ensures forall i :: 0 <= i < |nodes| ==> s[i] == nodes[i].data
  {
    seq(|nodes|, i requires 0 <= i < |nodes| reads nodes => nodes[i].data)
  }

  /** Rewriting `next` fields leaves the values where they were. */
  twostate lemma ValuesKept(nodes: seq<Node>)
    requires forall k :: 0 <= k < |nodes| ==> nodes[k].data == old(nodes[k].data)
    ensures Values(nodes) == old(Values(nodes))
  {
  }

  /** The node at position `index - 1` now points to `x`, which points to
      where it used to point; every other node is as before. */
  lemma SplicedChain(nodes: seq<Node>, index: nat, x: Node)
    requires Sequences.Distinct(nodes) && x !in nodes && 0 < index <= |nodes|
    requires forall k :: 0 <= k < |nodes| && k != index - 1 ==> nodes[k].next == Succ(nodes, k)
    requires nodes[index - 1].next == x && x.next == Succ(nodes, index - 1)
    ensures Chain(nodes[0], Sequences.InsertAt(nodes, index, x))
  {
    var r := Sequences.InsertAt(nodes, index, x);
    Sequences.DistinctInsert(nodes, index, x);
    forall k | 0 <= k < |r|
      ensures r[k].next == Succ(r, k)
    {
      if k < index - 1 {
        assert r[k] == nodes[k];
      } else if k > index {
        assert r[k] == nodes[k - 1];
      }
    }
  }

  /** The node at position `index - 1` now points past the node at
      `index`; every other node before or after is as before. */
  lemma BypassedChain(nodes: seq<Node>, index: nat)
    requires Sequences.Distinct(nodes) && 0 < index < |nodes|
    requires forall k :: 0 <= k < |nodes| && k != index - 1 && k != index ==> nodes[k].next == Succ(nodes, k)
    requires nodes[index - 1].next == Succ(nodes, index)
    ensures Chain(nodes[0], Sequences.RemoveAt(nodes, index))
  {
    var r := Sequences.RemoveAt(nodes, index);
    Sequences.DistinctRemove(nodes, index);
    forall k | 0 <= k < |r|
      ensures r[k].next == Succ(r, k)
    {
      if k < index - 1 {
        assert r[k] == nodes[k];
      } else if k >= index {
        assert r[k] == nodes[k + 1];
      }
    }
  }

  lemma ValuesInsert(nodes: seq<Node>, index: nat, x: Node)
    requires index <= |nodes|
    ensures Values(Sequences.InsertAt(nodes, index, x)) == Sequences.InsertAt(Values(nodes), index, x.data)
  {
  }

  lemma ValuesReverse(nodes: seq<Node>)
    ensures Values(Sequences.Reverse(nodes)) == Sequences.Reverse(Values(nodes))
  {
  }

  lemma ValuesRemove(nodes: seq<Node>, index: nat)
    requires index < |nodes|
    ensures Values(Sequences.RemoveAt(nodes, index)) == Sequences.RemoveAt(Values(nodes), index)
  {
  }

  /** `get_node`: the node at position `index`, or NULL when `index` is
      negative or not below the length. */
  method GetNode(head: Node?, ghost nodes: seq<Node>, index: int) returns (r: Node?)
    requires Chain(head, nodes)
    ensures r == if 0 <= index < |nodes| then nodes[index] else null
  {
    var current := head;
    var i := 0;
    while current != null
      invariant 0 <= i <= |nodes|
      invariant current == if i < |nodes| then nodes[i] else null
      invariant index < 0 || i <= index
      decreases |nodes| - i
    {
      if i == index {
        return current;
      }
      current := current.next;
      i := i + 1;
    }
    return null;
  }

  /** `traverse_apply`: `func` is applied to every node's value in order;
      no `next` pointer changes. */
  method TraverseApply(head: Node?, ghost nodes: seq<Node>, func: int -> int)
    requires Chain(head, nodes)
    modifies nodes
    ensures forall i :: 0 <= i < |nodes| ==> nodes[i].next == old(nodes[i].next)
    ensures Chain(head, nodes)
    ensures Values(nodes) == Sequences.Map(func, old(Values(nodes)))
  {
    var current := head;
    ghost var i := 0;
    while current != null
      invariant 0 <= i <= |nodes|
      invariant current == if i < |nodes| then nodes[i] else null
      invariant forall k :: 0 <= k < |nodes| ==> nodes[k].next == old(nodes[k].next)
      invariant forall k :: 0 <= k < i ==> nodes[k].data == func(old(nodes[k].data))
      invariant forall k :: i <= k < |nodes| ==> nodes[k].data == old(nodes[k].data)
      decreases |nodes| - i
    {
      current.data := func(current.data);
      current := current.next;
      i := i + 1;
    }
  }

  /** `double_value`, the callback handed to `traverse_apply`. */
  function DoubleValue(x: int): int
  {
    x * 2
  }

  /** `traverse_apply(head, double_value)`: every value doubled in place,
      the links untouched. */
  method DoubleAll(head: Node?, ghost nodes: seq<Node>)
    requires Chain(head, nodes)
    modifies nodes
    ensures Chain(head, nodes)
    ensures forall i :: 0 <= i < |nodes| ==> nodes[i].next == old(nodes[i].next)
    ensures forall i :: 0 <= i < |nodes| ==> nodes[i].data == 2 * old(nodes[i].data)
  {
    TraverseApply(head, nodes, DoubleValue);
  }

  /** `insert_at_head`: a new node in front; it becomes `*head`. */
  method InsertAtHead(head: Node?, ghost nodes: seq<Node>, data: int)
    returns (newHead: Node, ghost newNodes: seq<Node>)
    requires Chain(head, nodes)
    ensures fresh(newHead) && newNodes == [newHead] + nodes
    ensures Chain(newHead, newNodes)
    ensures Values(newNodes) == [data] + Values(nodes)
  {
    newHead := new Node(data);
    newHead.next := head;
    newNodes := [newHead] + nodes;
  }

  /** `insert_at_tail`: on an empty list the new node becomes `*head`;
      otherwise the walk stops at the node whose `next` is NULL and the new
      node is attached there. */
  method InsertAtTail(head: Node?, ghost nodes: seq<Node>, data: int)
    returns (newHead: Node, ghost newNodes: seq<Node>)
    requires Chain(head, nodes)
    modifies nodes
    ensures |newNodes| == |nodes| + 1 && newNodes[..|nodes|] == nodes
    ensures fresh(newNodes[|nodes|])
    ensures head != null ==> newHead == head
    ensures Chain(newHead, newNodes)
    ensures Values(newNodes) == old(Values(nodes)) + [data]
  {
    var newNode := new Node(data);
    if head == null {
      return newNode, [newNode];
    }
    var current := head;
    ghost var i := 0;
    while current.next != null
      invariant 0 <= i < |nodes| && current == nodes[i]
      decreases |nodes| - i
    {
      current := current.next;
      i := i + 1;
    }
    current.next := newNode;
    newHead, newNodes := head, nodes + [newNode];
  }

  /** `insert_at_index`: position 0 goes through `insert_at_head`;
      otherwise the cursor stops at position `index - 1` or at NULL,
      whichever comes first. At NULL the list is untouched and no node is
      created; else the new node is spliced in after the cursor. */
  method InsertAtIndex(head: Node?, ghost nodes: seq<Node>, data: int, index: int)
    returns (newHead: Node?, ghost newNodes: seq<Node>, ok: bool)
    requires Chain(head, nodes)
    modifies nodes
    ensures ok <==> Sequences.EffectivePosition(index) <= |nodes|
    ensures Chain(newHead, newNodes)
    ensures ok ==> |newNodes| == |nodes| + 1 && fresh(newNodes[Sequences.EffectivePosition(index)])
    ensures ok ==> newNodes == Sequences.InsertAt(nodes, Sequences.EffectivePosition(index), newNodes[Sequences.EffectivePosition(index)])
    ensures ok ==> Values(newNodes) == Sequences.InsertAt(old(Values(nodes)), Sequences.EffectivePosition(index), data)
    ensures !ok ==> newHead == head && newNodes == nodes && unchanged(nodes)
  {
    if index == 0 {
      newHead, newNodes := InsertAtHead(head, nodes, data);
      return newHead, newNodes, true;
    }
    ghost var p := Sequences.EffectivePosition(index);
    var current := head;
    var i := 0;
    while i < index - 1 && current != null
      invariant 0 <= i <= p - 1 && i <= |nodes|
      invariant current == if i < |nodes| then nodes[i] else null
      decreases p - 1 - i
    {
      current := current.next;
      i := i + 1;
    }
    if current == null {
      return head, nodes, false;
    }
    assert i == p - 1 && current == nodes[p - 1];
    var newNode := new Node(data);
    newNode.next := current.next;
    current.next := newNode;
    newHead, newNodes, ok := head, Sequences.InsertAt(nodes, p, newNode), true;
    forall k | 0 <= k < |nodes| && k != p - 1
      ensures nodes[k].next == Succ(nodes, k)
    {
      assert nodes[k] != current && old(nodes[k].next) == Succ(nodes, k);
    }
    SplicedChain(nodes, p, newNode);
    ValuesKept(nodes);
    ValuesInsert(nodes, p, newNode);
  }

  /** `delete_at_head`: `*head` advances to the second node; an empty list
      is left as it is. */
  method DeleteAtHead(head: Node?, ghost nodes: seq<Node>)
    returns (newHead: Node?, ghost newNodes: seq<Node>, ok: bool)
    requires Chain(head, nodes)
    ensures ok <==> nodes != []
    ensures Chain(newHead, newNodes)
    ensures newNodes == if nodes == [] then [] else nodes[1..]
    ensures Values(newNodes) == if nodes == [] then [] else Values(nodes)[1..]
  {
    if head == null {
      return head, nodes, false;
    }
    newHead, newNodes, ok := head.next, nodes[1..], true;
  }

  /** `delete_at_tail`: an empty list is left as it is, a single node
      leaves `*head == NULL`, and otherwise the walk stops at the
      second-to-last node and clears its `next`. */
  method DeleteAtTail(head: Node?, ghost nodes: seq<Node>)
    returns (newHead: Node?, ghost newNodes: seq<Node>, ok: bool)
    requires Chain(head, nodes)
    modifies nodes
    ensures ok <==> nodes != []
    ensures Chain(newHead, newNodes)
    ensures newNodes == if nodes == [] then [] else nodes[..|nodes| - 1]
    ensures Values(newNodes) == if nodes == [] then [] else old(Values(nodes))[..|nodes| - 1]
    ensures |nodes| == 1 ==> newHead == null
  {
    if head == null {
      return head, nodes, false;
    }
    if head.next == null {
      return null, [], true;
    }
    var current := head;
    ghost var i := 0;
    while current.next.next != null
      invariant 0 <= i < |nodes| - 1 && current == nodes[i]
      decreases |nodes| - i
    {
      current := current.next;
      i := i + 1;
    }
    current.next := null;
    newHead, newNodes, ok := head, nodes[..|nodes| - 1], true;
  }

  /** `delete_at_index`: an empty list is left as it is; position 0 goes
      through `delete_at_head`; otherwise the cursor stops at position
      `index - 1` or at the last node, whichever comes first, and the node
      after it is bypassed if there is one. */
  method DeleteAtIndex(head: Node?, ghost nodes: seq<Node>, index: int)
    returns (newHead: Node?, ghost newNodes: seq<Node>, ok: bool)
    requires Chain(head, nodes)
    modifies nodes
    ensures ok <==> Sequences.EffectivePosition(index) < |nodes|
    ensures Chain(newHead, newNodes)
    ensures ok ==> newNodes == Sequences.RemoveAt(nodes, Sequences.EffectivePosition(index))
    ensures ok ==> Values(newNodes) == Sequences.RemoveAt(old(Values(nodes)), Sequences.EffectivePosition(index))
    ensures !ok ==> newHead == head && newNodes == nodes && unchanged(nodes)
  {
    if head == null {
      return head, nodes, false;
    }
    if index == 0 {
      newHead, newNodes, ok := DeleteAtHead(head, nodes);
      return;
    }
    ghost var p := Sequences.EffectivePosition(index);
    var current := head;
    var i := 0;
    while i < index - 1 && current.next != null
      invariant 0 <= i <= p - 1 && i < |nodes| && current == nodes[i]
      decreases p - 1 - i
    {
      current := current.next;
      i := i + 1;
    }
    if current.next == null {
      return head, nodes, false;
    }
    assert i == p - 1;
    var temp := current.next;
    current.next := temp.next;
    newHead, newNodes, ok := head, Sequences.RemoveAt(nodes, p), true;
    forall k | 0 <= k < |nodes| && k != p - 1
      ensures nodes[k].next == Succ(nodes, k)
    {
      assert nodes[k] != current && old(nodes[k].next) == Succ(nodes, k);
    }
    BypassedChain(nodes, p);
    ValuesKept(nodes);
    ValuesRemove(nodes, p);
  }

  /** `reverse_list`: every `next` pointer is turned around; the returned
      head is the former last node. The same nodes are used, none is created
      or released. */
  method ReverseList(head: Node?, ghost nodes: seq<Node>)
    returns (newHead: Node?, ghost newNodes: seq<Node>)
    requires Chain(head, nodes)
    modifies nodes
    ensures newNodes == Sequences.Reverse(nodes)
    ensures Chain(newHead, newNodes)
    ensures Values(newNodes) == Sequences.Reverse(old(Values(nodes)))
  {
    ghost var n := |nodes|;
    var prev: Node? := null;
    var curr := head;
    ghost var i := 0;
    while curr != null
      invariant 0 <= i <= n
      invariant curr == if i < n then nodes[i] else null
      invariant prev == if i == 0 then null else nodes[i - 1]
      invariant forall k :: 0 <= k < n ==> nodes[k].next == TurnedSucc(nodes, i, k)
      invariant forall k :: 0 <= k < n ==> nodes[k].data == old(nodes[k].data)
      decreases n - i
    {
      var next := curr.next;
      assert forall k :: 0 <= k < n && k != i ==> nodes[k] != curr;
      curr.next := prev;
      prev := curr;
      curr := next;
      i := i + 1;
    }
    newHead, newNodes := prev, Sequences.Reverse(nodes);
    Sequences.DistinctReverse(nodes);
    forall k | 0 <= k < n
      ensures newNodes[k].next == Succ(newNodes, k)
    {
      assert newNodes[k] == nodes[n - 1 - k];
      assert nodes[n - 1 - k].next == TurnedSucc(nodes, n, n - 1 - k);
      if k < n - 1 {
        assert newNodes[k + 1] == nodes[n - 1 - k - 1];
      }
    }
    ValuesKept(nodes);
    ValuesReverse(nodes);
  }

  /** Where the node at position `k` points once the first `i` nodes have
      been turned around by `reverse_list`. */
  ghost function TurnedSucc(nodes: seq<Node>, i: nat, k: nat): Node?
    requires k < |nodes|
  {
    if k < i then (if k == 0 then null else nodes[k - 1]) else Succ(nodes, k)
  }

  /** Reversing twice gives back the original head, node order and values. */
  method ReverseTwice(head: Node?, ghost nodes: seq<Node>)
    returns (newHead: Node?, ghost newNodes: seq<Node>)
    requires Chain(head, nodes)
    modifies nodes
    ensures newHead == head && newNodes == nodes
    ensures Chain(newHead, newNodes)
    ensures Values(newNodes) == old(Values(nodes))
  {
    var once;
    ghost var onceNodes;
    once, onceNodes := ReverseList(head, nodes);
    forall x | x in onceNodes
      ensures x in nodes
    {
      var k :| 0 <= k < |onceNodes| && onceNodes[k] == x;
      assert nodes[|nodes| - 1 - k] == x;
    }
    label Once:
    newHead, newNodes := ReverseList(once, onceNodes);
    Sequences.ReverseInvolution(nodes);
    assert old@Once(Values(onceNodes)) == Sequences.Reverse(old(Values(nodes)));
    Sequences.ReverseInvolution(old(Values(nodes)));
  }

  // ---------------------------------------------------------------------
  // Cycle detection

  /** Each node but the last points to the one after it. */
  ghost predicate Forward(nodes: seq<Node>)
    reads nodes
  {
    forall k :: 0 <= k < |nodes| - 1 ==> nodes[k].next == nodes[k + 1]
  }

  /** A chain that may close into a loop: walking from `head` visits the
      distinct `nodes` in order, and the last one's `next` is NULL or one of
      `nodes`. Every chain of finitely many heap nodes has this shape. */
  ghost predicate Lasso(head: Node?, nodes: seq<Node>)
    reads nodes
  {
    && Starts(head, nodes)
    && Sequences.Distinct(nodes)
    && Forward(nodes)
    && (nodes != [] ==> nodes[|nodes| - 1].next == null || nodes[|nodes| - 1].next in nodes)
  }

  /** The last node points back into the list. */
  ghost predicate Cyclic(nodes: seq<Node>)
    reads nodes
  {
    nodes != [] && nodes[|nodes| - 1].next != null
  }

  /** The position (into `nodes`, of length `n`) reached from position `p`
      by one `next` step; -1 is NULL. `loop` is where the last node points
      back to, -1 when it points to NULL. */
  ghost function Next(n: nat, loop: int, p: int): (q: int)
    requires -1 <= loop < n && -1 <= p < n
    ensures -1 <= q < n
  {
    if p < 0 then -1 else if p < n - 1 then p + 1 else loop
  }

  /** The position reached from the head after `t` steps. */
  ghost function Pos(n: nat, loop: int, t: nat): (p: int)
    requires n > 0 && -1 <= loop < n
    ensures -1 <= p < n
  {
    if t == 0 then 0 else Next(n, loop, Pos(n, loop, t - 1))
  }

  /** The node reached from the head after `t` steps, NULL once the walk
      has run off the end. */
  ghost function NodeAt(nodes: seq<Node>, loop: int, t: nat): Node?
    requires nodes != [] && -1 <= loop < |nodes|
  {
    var p := Pos(|nodes|, loop, t);
    if p < 0 then null else nodes[p]
  }

  /** The last node's `next` is the node at position `loop`, or NULL. */
  ghost predicate ClosesAt(nodes: seq<Node>, loop: int)
    reads nodes
  {
    nodes != [] && -1 <= loop < |nodes| &&
    nodes[|nodes| - 1].next == (if loop < 0 then null else nodes[loop])
  }

  /** One pointer step is one more step of the walk. */
  lemma StepIsNext(nodes: seq<Node>, loop: int, t: nat)
    requires ClosesAt(nodes, loop) && Forward(nodes)
    requires Pos(|nodes|, loop, t) >= 0
    ensures NodeAt(nodes, loop, t) != null
    ensures NodeAt(nodes, loop, t).next == NodeAt(nodes, loop, t + 1)
  {
  }

  /** Without a loop the walk visits positions 0, 1, ... and then NULL. */
  lemma {:induction false} StraightWalk(n: nat, t: nat)
    requires n > 0
    ensures Pos(n, -1, t) == if t < n then t else -1
  {
    if t > 0 {
      StraightWalk(n, t - 1);
    }
  }

  /** With a loop the walk never reaches NULL, and once past position
      `loop` it stays on the loop. */
  lemma {:induction false} OnLoop(n: nat, loop: nat, t: nat)
    requires loop < n
    ensures Pos(n, loop, t) >= 0
    ensures t >= loop ==> Pos(n, loop, t) >= loop
    ensures t < n ==> Pos(n, loop, t) == t
  {
    if t > 0 {
      OnLoop(n, loop, t - 1);
    }
  }

  /** From a position on the loop, `j` steps (at most one lap) advance the
      position by `j`, wrapping back by the lap length `n - loop`. */
  lemma {:induction false} AlongLoop(n: nat, loop: nat, t: nat, j: nat)
    requires loop < n && loop <= Pos(n, loop, t) && j <= n - loop
    ensures Pos(n, loop, t + j) ==
      if Pos(n, loop, t) + j < n then Pos(n, loop, t) + j else Pos(n, loop, t) + j - (n - loop)
  {
    if j > 0 {
      AlongLoop(n, loop, t, j - 1);
    }
  }

  lemma MulFacts(a: nat, b: nat)
    ensures a * b >= 0
    ensures (a + 1) * b == a * b + b
    ensures b >= 1 ==> a * b >= a
  {
  }

  /** Once on the loop, the walk repeats itself every `n - loop` steps. */
  lemma {:induction false} Periodic(n: nat, loop: nat, t: nat, k: nat)
    requires loop < n && t >= loop
    ensures Pos(n, loop, t + k * (n - loop)) == Pos(n, loop, t)
  {
    if k > 0 {
      var L := n - loop;
      MulFacts(k - 1, L);
      var u: nat := t + (k - 1) * L;
      Periodic(n, loop, t, k - 1);
      OnLoop(n, loop, u);
      AlongLoop(n, loop, u, L);
      assert t + k * L == u + L;
    }
  }

  /** With a loop, the tortoise (after `t` steps) and the hare (after `2t`)
      stand on the same position for some `t >= 1`. */
  lemma MeetingTime(n: nat, loop: nat) returns (t: nat)
    requires loop < n
    ensures t >= 1 && Pos(n, loop, t) == Pos(n, loop, 2 * t)
  {
    var L := n - loop;
    MulFacts(loop, L);
    t := (loop + 1) * L;
    Periodic(n, loop, t, loop + 1);
    assert 2 * t == t + (loop + 1) * L;
  }

  /** `has_cycle`: Floyd's tortoise and hare. Returns 1 exactly when the
      list closes into a loop, 0 when it ends in NULL (including the empty
      list and a single node). Nodes are compared by identity. */
  method HasCycle(head: Node?, ghost nodes: seq<Node>) returns (r: int)
    requires Lasso(head, nodes)
    ensures r == if Cyclic(nodes) then 1 else 0
  {
    if head == null || head.next == null {
      assert |nodes| >= 2 ==> nodes[0].next == nodes[1];
      return 0;
    }
    ghost var n := |nodes|;
    ghost var loop: int := -1;
    if nodes[n - 1].next != null {
      loop :| 0 <= loop < n && nodes[loop] == nodes[n - 1].next;
    }
    assert ClosesAt(nodes, loop);
    ghost var meet: nat := 0;
    if loop >= 0 {
      meet := MeetingTime(n, loop);
    }
    var slow := head;
    var fast := head;
    ghost var t: nat := 0;
    while fast != null && fast.next != null
      invariant Pos(n, loop, t) >= 0
      invariant slow == NodeAt(nodes, loop, t) && fast == NodeAt(nodes, loop, 2 * t)
      invariant t >= 1 ==> slow != fast
      invariant loop >= 0 ==> t <= meet
      invariant loop < 0 ==> t < n
      decreases if loop < 0 then n - t else meet - t
    {
      FloydStep(nodes, loop, t, meet);
      slow := slow.next;
      fast := fast.next.next;
      t := t + 1;
      if slow == fast {
        return 1;
      }
    }
    if loop >= 0 {
      OnLoop(n, loop, 2 * t);
      StepIsNext(nodes, loop, 2 * t);
      assert false;
    }
    assert !Cyclic(nodes);
    return 0;
  }

  /** What one round of the `has_cycle` loop relies on: both pointers can
      move, the tortoise stays off NULL, a meeting on a NULL-terminated list
      is impossible, and with a loop the round comes before the meeting
      time. */
  lemma FloydStep(nodes: seq<Node>, loop: int, t: nat, meet: nat)
    requires ClosesAt(nodes, loop) && Forward(nodes) && Sequences.Distinct(nodes)
    requires Pos(|nodes|, loop, t) >= 0
    requires NodeAt(nodes, loop, 2 * t) != null && NodeAt(nodes, loop, 2 * t + 1) != null
    requires t >= 1 ==> NodeAt(nodes, loop, t) != NodeAt(nodes, loop, 2 * t)
    requires loop >= 0 ==> t <= meet && meet >= 1 && Pos(|nodes|, loop, meet) == Pos(|nodes|, loop, 2 * meet)
    ensures NodeAt(nodes, loop, t).next == NodeAt(nodes, loop, t + 1)
    ensures NodeAt(nodes, loop, 2 * t).next == NodeAt(nodes, loop, 2 * t + 1)
    ensures NodeAt(nodes, loop, 2 * t + 1).next == NodeAt(nodes, loop, 2 * t + 2)
    ensures Pos(|nodes|, loop, t + 1) >= 0
    ensures loop < 0 ==> t + 1 < |nodes| && NodeAt(nodes, loop, t + 1) != NodeAt(nodes, loop, 2 * t + 2)
    ensures loop >= 0 ==> t < meet
  {
    var n := |nodes|;
    StepIsNext(nodes, loop, t);
    StepIsNext(nodes, loop, 2 * t);
    StepIsNext(nodes, loop, 2 * t + 1);
    if loop < 0 {
      StraightWalk(n, t + 1);
      StraightWalk(n, 2 * t + 1);
      StraightWalk(n, 2 * t + 2);
    } else {
      OnLoop(n, loop, t + 1);
    }
  }

  /** The node reached from `x` by following `next` `k` times, NULL once
      the walk has run off the end. */
  ghost function Follow(nodes: seq<Node>, x: Node, k: nat): Node?
    reads nodes
    requires x in nodes
    requires forall y :: y in nodes ==> y.next == null || y.next in nodes
    decreases k
  {
    if k == 0 then x
    else if x.next == null then null
    else Follow(nodes, x.next, k - 1)
  }

  /** In a lasso every `next` is NULL or one of the nodes. */
  lemma NextClosed(head: Node?, nodes: seq<Node>)
    requires Lasso(head, nodes)
    ensures forall y :: y in nodes ==> y.next == null || y.next in nodes
  {
    forall y | y in nodes
      ensures y.next == null || y.next in nodes
    {
      var k :| 0 <= k < |nodes| && nodes[k] == y;
      if k < |nodes| - 1 {
        assert y.next == nodes[k + 1];
      }
    }
  }

  /** From position `m` on the loop, `n - m` steps lead to the node where
      the loop closes. */
  lemma {:induction false} FollowToLoop(nodes: seq<Node>, j: nat, m: nat)
    requires Forward(nodes) && j <= m < |nodes| && nodes[|nodes| - 1].next == nodes[j]
    requires forall y :: y in nodes ==> y.next == null || y.next in nodes
    ensures Follow(nodes, nodes[m], |nodes| - m) == nodes[j]
    decreases |nodes| - m
  {
    if m < |nodes| - 1 {
      assert nodes[m].next == nodes[m + 1];
      FollowToLoop(nodes, j, m + 1);
    }
  }

  /** What `has_cycle` answering 1 means on the heap: when the list is
      cyclic, some node comes back to itself after `n - j >= 1` `next`
      steps. */
  lemma CyclicReachesItself(head: Node?, nodes: seq<Node>)
    requires Lasso(head, nodes) && Cyclic(nodes)
    ensures forall y :: y in nodes ==> y.next == null || y.next in nodes
    ensures exists j :: 0 <= j < |nodes| && Follow(nodes, nodes[j], |nodes| - j) == nodes[j]
  {
    NextClosed(head, nodes);
    var j :| 0 <= j < |nodes| && nodes[j] == nodes[|nodes| - 1].next;
    FollowToLoop(nodes, j, j);
  }

  /** The loop found by `has_cycle` really is one: the node at position
      `loop` is reached again `n - loop >= 1` steps later. */
  lemma CycleReturns(n: nat, loop: nat)
    requires loop < n
    ensures Pos(n, loop, loop) == loop && Pos(n, loop, n) == loop
  {
    OnLoop(n, loop, loop);
    AlongLoop(n, loop, loop, n - loop);
  }

  /** A NULL-terminated list never visits a node twice. */
  lemma NoRevisit(n: nat, a: nat, b: nat)
    requires n > 0 && a < b && Pos(n, -1, a) >= 0
    ensures Pos(n, -1, a) != Pos(n, -1, b)
  {
    StraightWalk(n, a);
    StraightWalk(n, b);
  }

  /** The list built at the end of `main`: 1 -> 2 -> 3 -> 4 by four
      `insert_at_tail` calls, then the last node's `next` redirected to the
      second node. `has_cycle` reports it. */
  method DetectDemoCycle() returns (r: int)
    ensures r == 1
  {
    var head: Node? := null;
    ghost var nodes: seq<Node> := [];
    head, nodes := InsertAtTail(head, nodes, 1);
    head, nodes := InsertAtTail(head, nodes, 2);
    head, nodes := InsertAtTail(head, nodes, 3);
    head, nodes := InsertAtTail(head, nodes, 4);
    var second := head.next;
    var last := head;
    ghost var i := 0;
    while last.next != null
      invariant 0 <= i < |nodes| && last == nodes[i]
      decreases |nodes| - i
    {
      last := last.next;
      i := i + 1;
    }
    assert i == 3 && second == nodes[1];
    assert forall k :: 0 <= k < 3 ==> nodes[k] != last;
    last.next := second;
    assert Lasso(head, nodes);
    r := HasCycle(head, nodes);
  }
}
