/** The Rust singly linked list of docs/linked-list/code/singly.rs.

    An `Option<Box<Node>>` is a uniquely owned chain, so it is a value: `Nil`
    is `None` and `Cons(data, next)` is `Some(Box<Node { data, next }>)`.
    Every operation takes the chain and gives back the new head, as the Rust
    functions do. Where the Rust code rewrites `current.next` through a
    `&mut` cursor, the model rebuilds the prefix it walked over; with a
    single owner nobody can observe the difference. A `panic!` is the
    `Panicked` outcome. */
module SinglyRust {
  import Sequences

  datatype List = Nil | Cons(data: int, next: List)

  datatype Option<T> = None | Some(value: T)

  /** What an operation that may `panic!("Index out of bounds")` produces. */
  datatype Outcome = Ok(list: List) | Panicked

  /** The values met walking from the head to `None`. */
  function Elements(l: List): seq<int>
  {
    match l
    case Nil => []
    case Cons(d, next) => [d] + Elements(next)
  }

  /** Two chains with the same values are the same chain. */
  lemma {:induction false} ElementsInjective(a: List, b: List)
    requires Elements(a) == Elements(b)
    ensures a == b
  {
    match a
    case Nil =>
    case Cons(d, next) =>
      assert Elements(b) != [];
      assert Elements(b)[1..] == Elements(next) && Elements(a)[1..] == Elements(b.next);
      ElementsInjective(next, b.next);
  }

  /** `Node::new`: a one-node chain. */
  function New(data: int): (r: List)
    ensures Elements(r) == [data]
  {
    Cons(data, Nil)
  }

  /** `Node::get`: walks a cursor from the head counting positions and
      returns the node holding element `index`, or `None` when the walk
      reaches the end first. */
  method Get(head: List, index: nat) returns (r: Option<List>)
    ensures r.Some? <==> index < |Elements(head)|
    ensures r.Some? ==> r.value.Cons? && Elements(r.value) == Elements(head)[index..]
    ensures r.Some? ==> r.value.data == Elements(head)[index]
  {
    var current := head;
    var i := 0;
    while current.Cons?
      invariant i <= index && i <= |Elements(head)|
      invariant Elements(current) == Elements(head)[i..]
      decreases current
    {
      if i == index {
        return Some(current);
      }
      current := current.next;
      i := i + 1;
    }
    return None;
  }

  /** `Node::traverse_apply`: visits every node in order and replaces its
      value by `func` of it; the chain keeps its length and node order. */
  function TraverseApply(head: List, func: int -> int): (r: List)
    ensures Elements(r) == Sequences.Map(func, Elements(head))
  {
    match head
    case Nil => Nil
    case Cons(d, next) => Cons(func(d), TraverseApply(next, func))
  }

  /** `Node::insert_at_head`: a new node in front of the old chain. */
  function InsertAtHead(head: List, data: int): (r: List)
    ensures Elements(r) == [data] + Elements(head)
  {
    Cons(data, head)
  }

  /** `Node::insert_at_tail`: an empty chain becomes `Node::new(data)`;
      otherwise the new node is attached after the last node. */
  function InsertAtTail(head: List, data: int): (r: List)
    ensures Elements(r) == Elements(head) + [data]
  {
    match head
    case Nil => New(data)
    case Cons(_, _) => AttachAfterLast(head, data)
  }

  /** The walk `while current.next.is_some()` followed by
      `current.next = Some(Node::new(data))`. */
  function AttachAfterLast(node: List, data: int): (r: List)
    requires node.Cons?
    ensures Elements(r) == Elements(node) + [data]
  {
    if node.next.Nil? then Cons(node.data, New(data))
    else Cons(node.data, AttachAfterLast(node.next, data))
  }

  /** `Node::insert_at_index`: position 0 puts the node in front (also on an
      empty chain); otherwise the cursor walks `index - 1` nodes, panicking
      if it runs off the end, and splices the node in after it. So it
      panics exactly when `index` exceeds the length. */
  function InsertAtIndex(head: List, data: int, index: nat): (r: Outcome)
    ensures r.Ok? <==> index <= |Elements(head)|
    ensures r.Ok? ==> Elements(r.list) == Sequences.InsertAt(Elements(head), index, data)
  {
    match head
    case Nil => if index == 0 then Ok(New(data)) else Panicked
    case Cons(_, _) =>
      if index == 0 then Ok(Cons(data, head))
      else SpliceAfter(head, data, index - 1)
  }

  /** The cursor of `insert_at_index` advanced `steps` more nodes from
      `node`, then `node.next` replaced by a new node owning the rest. */
  function SpliceAfter(node: List, data: int, steps: nat): (r: Outcome)
    requires node.Cons?
    ensures r.Ok? <==> steps < |Elements(node)|
    ensures r.Ok? ==> Elements(r.list) == Sequences.InsertAt(Elements(node), steps + 1, data)
  {
    if steps == 0 then Ok(Cons(node.data, Cons(data, node.next)))
    else if node.next.Nil? then Panicked
    else
      match SpliceAfter(node.next, data, steps - 1)
      case Ok(rest) => Ok(Cons(node.data, rest))
      case Panicked => Panicked
  }

  /** `Node::delete_at_head`: the chain after the first node; an empty chain
      stays empty ("List is empty" is only printed). */
  function DeleteAtHead(head: List): (r: List)
    ensures Elements(r) == if head.Nil? then [] else Elements(head)[1..]
  {
    match head
    case Nil => Nil
    case Cons(_, next) => next
  }

  /** `Node::delete_at_tail`: an empty chain stays empty, a one-node chain
      goes through `delete_at_head`, a longer one loses its last node. */
  function DeleteAtTail(head: List): (r: List)
    ensures Elements(r) == if head.Nil? then [] else Elements(head)[..|Elements(head)| - 1]
  {
    match head
    case Nil => Nil
    case Cons(_, next) =>
      if next.Nil? then DeleteAtHead(head) else DetachLast(head)
  }

  /** The walk `while current.next.next.is_some()` followed by
      `current.next = None`. */
  function DetachLast(node: List): (r: List)
    requires node.Cons? && node.next.Cons?
    ensures Elements(r) == Elements(node)[..|Elements(node)| - 1]
  {
    if node.next.next.Nil? then Cons(node.data, Nil)
    else Cons(node.data, DetachLast(node.next))
  }

  /** `Node::delete_at_index`: an empty chain stays empty whatever the index;
      position 0 goes through `delete_at_head`; otherwise the cursor walks
      `index - 1` nodes and unlinks the one after it, panicking when the
      walk or the target runs off the end. */
  function DeleteAtIndex(head: List, index: nat): (r: Outcome)
    ensures r.Ok? <==> (head.Nil? || index < |Elements(head)|)
    ensures r.Ok? && head.Nil? ==> r.list == Nil
    ensures r.Ok? && head.Cons? ==> Elements(r.list) == Sequences.RemoveAt(Elements(head), index)
  {
    match head
    case Nil => Ok(Nil)
    case Cons(_, _) =>
      if index == 0 then Ok(DeleteAtHead(head))
      else UnlinkAfter(head, index - 1)
  }

  /** The cursor of `delete_at_index` advanced `steps` more nodes from
      `node`, then the node after it bypassed. */
  function UnlinkAfter(node: List, steps: nat): (r: Outcome)
    requires node.Cons?
    ensures r.Ok? <==> steps + 1 < |Elements(node)|
    ensures r.Ok? ==> Elements(r.list) == Sequences.RemoveAt(Elements(node), steps + 1)
  {
    if steps == 0 then
      if node.next.Nil? then Panicked else Ok(Cons(node.data, node.next.next))
    else if node.next.Nil? then Panicked
    else
      match UnlinkAfter(node.next, steps - 1)
      case Ok(rest) => Ok(Cons(node.data, rest))
      case Panicked => Panicked
  }

  /** `Node::reverse`: takes each node off the front of `curr` and pushes it
      onto `prev`; `prev` ends up holding the chain back to front. */
  method Reverse(head: List) returns (r: List)
    ensures Elements(r) == Sequences.Reverse(Elements(head))
  {
    ghost var s := Elements(head);
    var prev := Nil;
    var curr := head;
    ghost var i := 0;
    while curr.Cons?
      invariant i <= |s|
      invariant Elements(curr) == s[i..]
      invariant Elements(prev) == Sequences.Reverse(s[..i])
      decreases curr
    {
      var next := curr.next;
      Sequences.ReversePrefixStep(s, i);
      prev := Cons(curr.data, prev);
      curr := next;
      i := i + 1;
    }
    assert s[..i] == s;
    r := prev;
  }

  /** Reversing twice gives back the very same chain. */
  method ReverseTwice(head: List) returns (r: List)
    ensures r == head
  {
    var once := Reverse(head);
    r := Reverse(once);
    Sequences.ReverseInvolution(Elements(head));
    ElementsInjective(r, head);
  }
}
