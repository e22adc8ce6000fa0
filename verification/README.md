# Doubly linked list

A Dafny model of `DoublyLinkedList.js`, a doubly linked list made of heap
nodes. Each node holds a value plus a `next` and a `prev` link. The list
keeps `head`, `tail` and `length`, and offers these operations:

- `push` and `unshift` add a value at either end;
- `pop` and `shift` detach and return the end node;
- `get` walks to the node at an index, from the head when `index <= length / 2`
  and from the tail otherwise;
- `set` overwrites the value at an index;
- `insert` places a value at an index;
- `remove` detaches the node at an index.

Out-of-range indices and empty lists give a sentinel: `null` for a node, or
`false` for `set` and `insert`. They never raise an error.

The project has three modules:

- `sequences.dfy` (module `Sequences`) holds the abstract view of the list,
  which is its sequence of values. It defines the two positional edits that
  `insert` and `remove` make to that sequence (`Inserted` and `Removed`) and
  proves that they undo each other.
- `linked_list.dfy` (module `LinkedList`) holds the classes `Node` and
  `DoublyLinkedList`. Their fields are the ones in the source, and the
  methods update them in place in the source's own order. Each list carries
  two ghost fields:
  - `Nodes`, the chain from head to tail;
  - `Contents`, the values held in that chain.

  The list's footprint is the list object together with `Nodes`. The
  invariant comes in two layers:
  - `ForwardLinked()` covers `length`, the two ends, the `next` chain, the
    null end links, distinct nodes, and values that match `Contents`;
  - `Valid()` adds that every `prev` link mirrors a `next` link.

  Every method is specified by its effect on `Contents`, `Nodes` and the
  fields.
- `scenarios.dfy` (module `Scenarios`) holds client code built on the list:
  - the call sequences that expose the defect in `remove`, and the same
    sequence with the corrected removal;
  - draining a list in FIFO order with `shift` and in LIFO order with `pop`;
  - the insert-then-remove round trip, with `remove` as written and with
    the corrected removal.

The source tests `index <= this.length / 2` in `get` using real division.
For integer indices this is the same as `2 * index <= length`, and the model
uses that form.

One point of disagreement: a removal from the middle of the list is
described as setting the successor's `prev` to the predecessor. The code
instead sets it to the predecessor's own `prev` (`DoublyLinkedList.js:274`).
The model follows the code in `Remove` and adds `RemoveCorrected` for the
intended behaviour (see "## Findings").

## Model

| member | source | states |
|---|---|---|
| Sequences.Inserted | DoublyLinkedList.js:216-246 | The value lands at position `i`. Elements before `i` keep their positions, elements from `i` on move up by one, and the length grows by one. |
| Sequences.Removed | DoublyLinkedList.js:253-283 | Elements before `i` keep their positions, elements after `i` move down by one, and the length shrinks by one. |
| Sequences.InsertedAtEnds | DoublyLinkedList.js:221-227 | Inserting at position 0 is prepending (what `unshift` does). Inserting at position `length` is appending (what `push` does). |
| Sequences.RemovedAtEnds | DoublyLinkedList.js:258-264 | Removing position 0 drops the first element (what `shift` does). Removing the last position truncates (what `pop` does). |
| Sequences.RemovedInserted | DoublyLinkedList.js:216-283 | Removing at `i` right after inserting at `i` gives back the original sequence. |
| Sequences.InsertedRemoved | DoublyLinkedList.js:216-283 | Putting a removed element back at its position gives back the original sequence. |
| Sequences.DistinctInserted | DoublyLinkedList.js:229-241 | Splicing a fresh node into a chain of distinct nodes keeps the nodes distinct. |
| Sequences.DistinctRemoved | DoublyLinkedList.js:266-278 | Splicing a node out keeps the other nodes distinct, and the removed node is no longer among them. |
| LinkedList.Node.constructor | DoublyLinkedList.js:2-25 | A new node holds the given value and has no `next` and no `prev`. |
| LinkedList.DoublyLinkedList.constructor | DoublyLinkedList.js:28-46 | A new list is valid and empty: `head` and `tail` are null and `length` is 0. |
| LinkedList.DoublyLinkedList.Push | DoublyLinkedList.js:54-72 | The value is appended to the contents and `length` grows by one. A fresh node becomes the tail, with no successor. Its back link is the old tail, or the node is also the head when the list was empty. The list stays valid. |
| LinkedList.DoublyLinkedList.Unshift | DoublyLinkedList.js:135-153 | The value is prepended to the contents and `length` grows by one. A fresh node becomes the head, with no predecessor. Its `next` is the old head, or the node is also the tail when the list was empty. The list stays valid. |
| LinkedList.DoublyLinkedList.Pop | DoublyLinkedList.js:78-100 | Returns null exactly when the list is empty, and then changes nothing. Otherwise it returns the old tail, with both links cleared, and drops the last value. The new tail is the old tail's `prev`, with no successor. The head stays unless the list becomes empty. A valid list stays valid, and then `Nodes` and `Contents` fix every remaining link and value. On a list that was not valid, no node other than the old and the new tail changes its links, and no node changes its value. It needs only the forward structure, plus a tail whose `prev` is inside the chain. |
| LinkedList.DoublyLinkedList.Shift | DoublyLinkedList.js:106-128 | Returns null exactly when the list is empty, and then changes nothing. Otherwise it returns the old head, with both links cleared, and drops the first value. The new head is the old head's `next`, with no predecessor. The list stays valid. |
| LinkedList.DoublyLinkedList.Get | DoublyLinkedList.js:160-190 | Returns null exactly when `index < 0` or `index >= length`. Otherwise it returns the node at position `index`, whichever end the walk starts from. |
| LinkedList.DoublyLinkedList.Set | DoublyLinkedList.js:198-208 | Returns true exactly when `0 <= index < length`. Then the value at `index` is replaced and nothing else changes: nodes, links, `head`, `tail` and `length` all stay. Out of range, nothing changes at all. |
| LinkedList.DoublyLinkedList.Insert | DoublyLinkedList.js:216-246 | Returns true exactly when `0 <= index <= length`, and out of range changes nothing. On success the contents become `Inserted(old contents, index, value)`, a fresh node sits at `index` in the chain, and `length` grows by one. The list stays valid. |
| LinkedList.DoublyLinkedList.SplicedIn | DoublyLinkedList.js:229-243 | Writing only the four links around a new node placed between two neighbours keeps every link consistent. |
| LinkedList.DoublyLinkedList.Remove | DoublyLinkedList.js:253-283 | Returns null exactly when the index is out of range, and then changes nothing. Otherwise it returns the node that was at `index`, with both links cleared. The contents and the chain lose position `index` and `length` shrinks by one, and the forward structure always survives. At either end the list stays valid. In the middle, every back link is right except the successor's: it points two places back (null when the predecessor is the head), so the list is no longer valid. |
| LinkedList.DoublyLinkedList.RemoveCorrected | DoublyLinkedList.js:253-283 | The same result as `Remove`, with the successor's back link set to the predecessor, so the list stays valid in every case. |
| LinkedList.DoublyLinkedList.SplicedOut | DoublyLinkedList.js:266-280 | Making the predecessor's `next` skip the removed node keeps the forward structure and every back link except the successor's. The removed node is gone from the chain. The list is valid exactly when the successor's `prev` is the predecessor. |
| LinkedList.DoublyLinkedList.TailPrevInChain | DoublyLinkedList.js:90-92 | On a valid list with at least two nodes, the tail's `prev` is the node just before it. |
| LinkedList.DoublyLinkedList.WalkForwardFrom | DoublyLinkedList.js:168-176 | Following `next` for `i - j` steps from position `j` reaches position `i`. |
| LinkedList.DoublyLinkedList.WalkBackwardFrom | DoublyLinkedList.js:178-186 | Following `prev` for `j - i` steps from position `j` reaches position `i`. |
| LinkedList.DoublyLinkedList.WalksMeet | DoublyLinkedList.js:160-190 | The node at position `i` is `i` forward steps from the head and `length - 1 - i` backward steps from the tail. The two walks in `get` therefore agree. |
| Scenarios.RemoveThenPopTrace | DoublyLinkedList.js:274 | After pushing a, b, c, d, removing index 2 and popping, `head` and `tail` are the same node, which has no successor, while `length` is 2. The node holding b is still counted but unreachable, and its `next` still leads to the popped node. |
| Scenarios.RemoveMiddleOfThreeTrace | DoublyLinkedList.js:274 | After pushing a, b, c and removing index 1, `length` is 2 but the tail's `prev` is null, so a following `pop` would set the tail to null and then write to it. |
| Scenarios.RemoveCorrectedThenPopTrace | DoublyLinkedList.js:253-283 | With the corrected removal, the same calls leave `length` 2, with `head` and `tail` two distinct nodes that link to each other both ways and hold a and b. |
| Scenarios.FromSeq | DoublyLinkedList.js:54-72 | Pushing the values of a sequence in order builds a fresh valid list with exactly those contents. |
| Scenarios.FifoDrain | DoublyLinkedList.js:106-128 | Pushing values and then shifting until the list is empty returns them in their original order, and `length` ends at 0. |
| Scenarios.LifoDrain | DoublyLinkedList.js:78-100 | Pushing values and then popping until the list is empty returns them in reverse order, and `length` ends at 0. |
| Scenarios.InsertThenRemove | DoublyLinkedList.js:216-283 | An insert followed by `remove` as written at the same index restores the exact contents and `length`, and the forward structure holds. The list stays valid when the index is 0 or the old length, and is no longer valid when the index lies strictly between them. |
| Scenarios.InsertThenRemoveCorrected | DoublyLinkedList.js:216-246 | An insert followed by the corrected removal at the same index restores the exact contents and `length`, and the list stays valid. |

## Left out

- A non-integer `index` (for example 1.5) is not modelled. Indices are mathematical integers. With such an index, the loops in `get` never meet their target.
- No distinction is drawn between `undefined` and `null`. The source's bare `return` in `pop`, `shift` and `remove` is modelled as returning `null`.
- The `return this` in `push` and `unshift` is not modelled, because those methods return nothing here. The `!!` in `insert` therefore always yields `true`, and `Insert` returns `true` directly in those branches.
- `length` is an unbounded integer. JavaScript number precision limits are not modelled.
- Values are of an arbitrary type `T`. Aliasing of the same value object stored twice is not observable in the model.
- Garbage collection and concurrency are not modelled. The source is single-threaded.
- Get, Set, Insert, Push, Unshift, Shift, Remove and RemoveCorrected: each requires `Valid()`. So the model does not follow these operations on a list that a middle removal has already damaged. Only `Pop` is modelled on such a list, because it needs just the forward structure and a tail whose `prev` lies inside the chain. It is the second step of the first trace in "## Findings".
- Pop: requires that the tail's `prev` lies inside the chain when `length >= 2`. If it did not, the source would write to a node outside the list or throw on `null`. `RemoveMiddleOfThreeTrace` shows a list where a `remove` as written leaves exactly that state.

## Findings

| source | as written | input that shows it | evidently intended | confidence | as-written member | corrected member |
|---|---|---|---|---|---|---|
| DoublyLinkedList.js:274 | `remove` sets the successor's `prev` to `beforeNode.prev`, so the successor points two places back, or to `null` when the predecessor is the head. | Push a, b, c, d, call `remove(2)` and then `pop()`. `d.prev` is a, so `pop` makes a both `head` and `tail` with no successor, while `length` is 2. Or push a, b, c and call `remove(1)`: `c.prev` is null, so a following `pop()` sets the tail to null and then writes its `next`. | `afterNode.prev = beforeNode`, which keeps every back link the mirror of a forward link. | not executed | LinkedList.DoublyLinkedList.Remove, Scenarios.RemoveThenPopTrace, Scenarios.RemoveMiddleOfThreeTrace, Scenarios.InsertThenRemove | LinkedList.DoublyLinkedList.RemoveCorrected, Scenarios.InsertThenRemoveCorrected |
