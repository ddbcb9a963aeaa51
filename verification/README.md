# Linked lists in Rust and C, modelled in Dafny

This project models the linked-list code of the documentation site: the Rust
singly linked list (`docs/linked-list/code/singly.rs`), the C singly linked
list (`docs/linked-list/code/singly.c`) and the C doubly linked list
(`docs/linked-list/code/doubly_linked_list.c`). Each operation is proved
against the abstract value of a list: the sequence of values met when
walking it from the head.

- `sequences.dfy` (module `Sequences`) holds the sequence vocabulary the
  three models share. It covers insertion at a position, removal at a
  position, mapping and reversal, with the facts proved about reversal.
- `singly_rs.dfy` (module `SinglyRust`): `Option<Box<Node>>` is the
  datatype `List = Nil | Cons(data, next)`. A uniquely owned chain is a
  value, so each Rust function returns the new chain as a Dafny function or
  method does.
  - The cursor loops that rewrite `current.next` through `&mut` become
    recursive helpers that rebuild the prefix they walk over.
  - `get` and `reverse` stay loops.
  - `panic!("Index out of bounds")` is the `Panicked` outcome, and the exact
    condition under which it happens is proved.
- `singly_c.dfy` (module `SinglyC`): `Node` is a class whose `data` and
  `next` fields are updated in place.
  - A ghost sequence `nodes` lists the nodes of the chain in order, and the
    predicate `Chain` ties the `next` fields to it.
  - Writing `*head` is modelled by returning the new head.
  - The `printf` error paths ("List is empty", "Index out of bounds") are a
    status `ok == false` under which nothing changes.
  - `has_cycle` is proved for every chain that may close into a loop (a
    "lasso"), comparing nodes by identity.
- `doubly_c.dfy` (module `DoublyC`): the same shape with a `prev` field. The
  predicate `Doubly` states that `next` and `prev` agree with the ghost node
  sequence. It is proved that walking `prev` from the last node reads the
  list backwards.

### Indices and negative input

The C `insert_at_index` and `delete_at_index` take an `int`. For a negative
index (above `INT_MIN`) the cursor loop
`for (int i = 0; i < index - 1 && ...; i++)` does not run, so the operation
acts on position 1, right after the head. A negative index is not rejected
for being negative: it is reported out of bounds only when position 1 is,
that is on an empty list for `insert_at_index` and on a list of at most one
node for `delete_at_index`. `Sequences.EffectivePosition` maps every index to the
position acted on, and the contracts are stated in terms of it.
`get_node` compares `i == index`, so it returns NULL for a negative index,
as proved.

The C error paths print a message and leave the list unchanged. The Rust
`Index out of bounds` paths panic; the Rust `List is empty` paths print and
return `None`.

## Model

| member | source | states |
|---|---|---|
| Sequences.ReverseInvolution | docs/linked-list/code/singly.rs:181-196 | reversing a sequence twice gives it back, for every sequence including the empty and one-element ones |
| Sequences.ReversePrefixStep | docs/linked-list/code/singly.rs:186-193 | moving one more element from the unreversed rest onto the reversed part puts it in front: the step that both reversal loops repeat |
| SinglyRust.ElementsInjective | docs/linked-list/code/singly.rs:2-5 | two chains holding the same sequence of values are the same chain, so a statement about values is a statement about the chain |
| SinglyRust.New | docs/linked-list/code/singly.rs:9-11 | `Node::new` builds a chain holding exactly the one value |
| SinglyRust.Get | docs/linked-list/code/singly.rs:13-27 | the result is `Some` exactly when `index` is below the length; the node returned holds element `index` and the rest of the list from there |
| SinglyRust.TraverseApply | docs/linked-list/code/singly.rs:47-58 | every element `x` becomes `func(x)`, in order, with the length kept |
| SinglyRust.InsertAtHead | docs/linked-list/code/singly.rs:60-62 | the new list is `[data]` followed by the old one |
| SinglyRust.InsertAtTail | docs/linked-list/code/singly.rs:64-79 | the new list is the old one followed by `[data]`; an empty list becomes the one-element list |
| SinglyRust.AttachAfterLast | docs/linked-list/code/singly.rs:67-76 | walking to the node whose `next` is `None` and attaching a new node there appends `data` |
| SinglyRust.InsertAtIndex | docs/linked-list/code/singly.rs:81-116 | it panics exactly when `index` exceeds the length, whether the list is empty or not; otherwise `data` ends up at position `index` with the other elements in order, so `index == length` appends |
| SinglyRust.SpliceAfter | docs/linked-list/code/singly.rs:98-113 | advancing the cursor `steps` nodes succeeds exactly when there are that many nodes after it, and the splice puts `data` right after the cursor |
| SinglyRust.DeleteAtHead | docs/linked-list/code/singly.rs:118-126 | the first element is dropped; an empty list stays empty |
| SinglyRust.DeleteAtTail | docs/linked-list/code/singly.rs:128-148 | exactly the last element is dropped; a one-element list becomes empty and an empty list stays empty |
| SinglyRust.DetachLast | docs/linked-list/code/singly.rs:139-143 | walking to the second-to-last node and clearing its `next` drops exactly the last element |
| SinglyRust.DeleteAtIndex | docs/linked-list/code/singly.rs:150-179 | an empty list stays empty for any index; a non-empty list panics exactly when `index` is not below the length, and otherwise loses exactly element `index` with the rest kept in order |
| SinglyRust.UnlinkAfter | docs/linked-list/code/singly.rs:161-174 | the cursor walk plus bypass succeeds exactly when the target exists, and removes exactly the target |
| SinglyRust.Reverse | docs/linked-list/code/singly.rs:181-196 | the result holds the elements back to front |
| SinglyRust.ReverseTwice | docs/linked-list/code/singly.rs:181-196 | reversing twice returns the very same chain, including the empty and one-node chains |
| SinglyC.Node.constructor | docs/linked-list/code/singly.c:10-15 | `create_node` gives a fresh node holding `data` whose `next` is NULL |
| SinglyC.GetNode | docs/linked-list/code/singly.c:17-31 | the node at position `index`, and NULL exactly when `index` is negative or not below the length |
| SinglyC.TraverseApply | docs/linked-list/code/singly.c:49-57 | every node's value `x` becomes `func(x)` in place, in order; no `next` pointer changes and the chain stays intact |
| SinglyC.DoubleAll | docs/linked-list/code/singly.c:49-61 | `traverse_apply` with `double_value` doubles every value in place and leaves every `next` pointer as it was |
| SinglyC.InsertAtHead | docs/linked-list/code/singly.c:72-76 | the new head is a fresh node in front of the old chain, whose values become `[data]` followed by the old ones |
| SinglyC.InsertAtTail | docs/linked-list/code/singly.c:78-92 | a fresh node is attached after the old last node, so the values become the old ones followed by `data`; an empty list gets the new node as its head, and otherwise the head is kept |
| SinglyC.SplicedChain | docs/linked-list/code/singly.c:110-113 | linking a node that is not yet in the list between positions `index - 1` and `index` yields a well-formed chain with that node at `index` |
| SinglyC.InsertAtIndex | docs/linked-list/code/singly.c:94-114 | succeeds exactly when the effective position is at most the length and then puts a fresh node there with the others in order; otherwise the head, the nodes and every field are unchanged and no node is created |
| SinglyC.DeleteAtHead | docs/linked-list/code/singly.c:117-127 | fails exactly on the empty list; otherwise the second node becomes the head and the first value is gone |
| SinglyC.DeleteAtTail | docs/linked-list/code/singly.c:129-149 | fails exactly on the empty list; otherwise exactly the last node and value are gone, and a one-node list leaves the head NULL |
| SinglyC.BypassedChain | docs/linked-list/code/singly.c:172-173 | pointing the node at `index - 1` past the node at `index` yields a well-formed chain without that node |
| SinglyC.DeleteAtIndex | docs/linked-list/code/singly.c:151-176 | succeeds exactly when the effective position is below the length and then removes exactly that node and value; an empty list or an index past the end changes nothing |
| SinglyC.ReverseList | docs/linked-list/code/singly.c:179-199 | the same nodes, none created or freed, now linked in reverse order; the returned head is the former last node and the values read back to front |
| SinglyC.ReverseTwice | docs/linked-list/code/singly.c:179-199 | reversing twice restores the original head, node order and values |
| SinglyC.HasCycle | docs/linked-list/code/singly.c:201-219 | returns 1 exactly when the last node points back into the list and 0 when the list ends in NULL, including the empty list and a single node |
| SinglyC.FloydStep | docs/linked-list/code/singly.c:209-216 | each round of the tortoise and hare loop can move both pointers; on a NULL-terminated list they never meet, and with a loop the round comes before the meeting time |
| SinglyC.MeetingTime | docs/linked-list/code/singly.c:209-216 | with a loop there is a step count `t >= 1` after which the tortoise (`t` steps) and the hare (`2t` steps) stand on the same node |
| SinglyC.Periodic | docs/linked-list/code/singly.c:209-216 | once on the loop, the walk repeats every loop-length steps |
| SinglyC.StraightWalk | docs/linked-list/code/singly.c:209-216 | without a loop, `t` steps from the head reach position `t` while `t` is below the length, and NULL after that |
| SinglyC.OnLoop | docs/linked-list/code/singly.c:209-216 | with a loop the walk never reaches NULL, and once past the loop's entry it stays on the loop |
| SinglyC.AlongLoop | docs/linked-list/code/singly.c:209-216 | on the loop, up to one lap of steps advances the position by that many steps, wrapping back by the loop length |
| SinglyC.StepIsNext | docs/linked-list/code/singly.c:210-211 | following `next` from the node reached after `t` steps gives the node reached after `t + 1` steps |
| SinglyC.CycleReturns | docs/linked-list/code/singly.c:201-219 | the node where the loop closes is reached again one lap later, so a detected cycle is a node reachable from itself |
| SinglyC.CyclicReachesItself | docs/linked-list/code/singly.c:201-219 | when the list is cyclic (the case where `has_cycle` returns 1), some node `nodes[j]` comes back to itself after `n - j >= 1` `next` steps |
| SinglyC.FollowToLoop | docs/linked-list/code/singly.c:209-211 | following `next` from any node on the loop leads, after the remaining steps to the end, to the node where the loop closes |
| SinglyC.NoRevisit | docs/linked-list/code/singly.c:201-219 | a NULL-terminated list never visits a node twice, so 0 is the right answer there |
| SinglyC.DetectDemoCycle | docs/linked-list/code/singly.c:250-262 | building 1 -> 2 -> 3 -> 4 with `insert_at_tail` and pointing the last node back to the second makes `has_cycle` return 1 |
| DoublyC.Node.constructor | docs/linked-list/code/doubly_linked_list.c:11-17 | `create_node` gives a fresh node holding `data` with `next` and `prev` both NULL |
| DoublyC.PrevClosed | docs/linked-list/code/doubly_linked_list.c:4-8 | under the list invariant every `prev` is NULL or a node of the list |
| DoublyC.WalkBackFrom | docs/linked-list/code/doubly_linked_list.c:4-8 | following `prev` from position `i` visits the values at positions `i` down to 0 and then reaches NULL |
| DoublyC.BackwardIsReverse | docs/linked-list/code/doubly_linked_list.c:4-8 | under the list invariant, walking `prev` from the last node visits exactly the reverse of the forward sequence, however many steps are allowed |
| DoublyC.SplicedDoubly | docs/linked-list/code/doubly_linked_list.c:96-103 | linking a new node in both directions between its neighbours, with every other link kept, re-establishes the `next`/`prev` invariant |
| DoublyC.InsertAtHead | docs/linked-list/code/doubly_linked_list.c:45-55 | the forward values become `[data]` followed by the old ones; the new head's `prev` is NULL, the old head (if any) points back to it, and the `next`/`prev` invariant holds |
| DoublyC.InsertAtTail | docs/linked-list/code/doubly_linked_list.c:57-76 | the forward values become the old ones followed by `data`; the new node's `next` is NULL and its `prev` is the old last node, or NULL on an empty list where it becomes the head; the invariant holds |
| DoublyC.InsertAtIndex | docs/linked-list/code/doubly_linked_list.c:78-104 | succeeds exactly when the effective position is at most the length and then puts a fresh node there with the invariant kept; otherwise the head and every `next`/`prev` field are unchanged and nothing is allocated |
| DoublyC.LinkAfter | docs/linked-list/code/doubly_linked_list.c:94-103 | the new node's `prev` is the cursor and its `next` the cursor's old successor, whose `prev` now points back to it; the values gain `data` at that position and the invariant holds |

## Left out

- `print_list`, `free_list` and the `main` drivers of all three files are not modelled, except the cycle demonstration at the end of the C `main`. The trace comments in the two `main` functions do not match what the code computes from `delete_at_head` on, and are not used as properties.
- The `printf`/`println!` messages are not modelled. Only the resulting list and the `ok` status are.
- Allocation failure in `create_node` is not modelled: `malloc` always succeeds, as `new` does.
- `free` is modelled as unlinking. The released node is not reclaimed, and dangling pointers are not modelled.
- SinglyC.DetectDemoCycle: it starts from an empty list, but the C `main` calls `insert_at_tail` on `head` right after `free_list(head)` without resetting it to NULL. That is a use of freed memory, which the model cannot express.
- SinglyC.InsertAtIndex, SinglyC.DeleteAtIndex and DoublyC.InsertAtIndex: the C `int index` is an unbounded integer here. For `index == INT_MIN`, `index - 1` in the loop test overflows, which is undefined behaviour in C; the contracts say position 1 for every negative index and do not cover that case.
- SinglyC.DoubleAll: values are unbounded integers. Overflow of `int` in `*data *= 2`, which is undefined behaviour in C, is not modelled. Neither is the `i32` overflow of a Rust callback.
- SinglyC.TraverseApply: the callback `void (*func)(int *)` is a pure function from the old value to the new one. A callback with other effects is not modelled.
- SinglyRust.TraverseApply: the `FnMut` closure is a pure function `int -> int`. A closure that keeps state between calls is not modelled.
- SinglyRust.InsertAtTail, SinglyRust.InsertAtIndex, SinglyRust.DeleteAtTail, SinglyRust.DeleteAtIndex and SinglyRust.TraverseApply rewrite nodes in place through a `&mut` cursor. Here they rebuild the walked prefix instead. With a single owner the difference cannot be observed, so update in place is not modelled for the Rust list.
- SinglyC.HasCycle: the precondition `Lasso` describes the reachable nodes: distinct, linked in order, and the last one's `next` is NULL or one of them. Every chain of finitely many heap nodes has that shape. Nodes outside the reachable part are not considered.
- The `Node **head` out-parameter is modelled by returning the new head. The caller passes the ghost node sequence that describes the list.
- These files contain no tail pointer and no doubly-linked deletion, so the model has neither.
