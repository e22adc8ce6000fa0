/** A doubly linked list of heap nodes. Every node holds a value and a
    forward (`next`) and a backward (`prev`) link; the list keeps `head`,
    `tail` and `length`. Out-of-range indices and empty lists are answered
    with a sentinel (`null` or `false`), never with a failure. */
module LinkedList {
  import opened Sequences

  /** One cell of the chain. A fresh node has no neighbours. */
  class Node<T> {
    var value: T
    var next: Node?<T>
    var prev: Node?<T>

    constructor (value: T)
      ensures this.value == value && next == null && prev == null
    {
      this.value := value;
      next := null;
      prev := null;
    }
  }

  class DoublyLinkedList<T> {
    var head: Node?<T>
    var tail: Node?<T>
    var length: int

    // public view: the chain of nodes from head to tail and their values;
    // the list's footprint is `this` together with `Nodes`
    ghost var Nodes: seq<Node<T>>
    ghost var Contents: seq<T>

    /** The forward structure: `length` counts the nodes, `head` and `tail`
        are the two ends (both null exactly when the list is empty), each
        node's `next` is its successor, the end links are null, no node
        occurs twice, and `Contents` are the nodes' values. Nothing is said
        about the `prev` links of the inner nodes. */
    ghost predicate ForwardLinked()
      reads this, Nodes
    {
      && length == |Nodes| == |Contents|
      && (forall k :: 0 <= k < |Nodes| ==> Nodes[k].value == Contents[k])
      && Distinct(Nodes)
      && (Nodes == [] ==> head == null && tail == null)
      && (Nodes != [] ==> head == Nodes[0] && tail == Nodes[|Nodes| - 1])
      && (Nodes != [] ==> Nodes[0].prev == null && Nodes[|Nodes| - 1].next == null)
      && (forall k :: 0 <= k < |Nodes| - 1 ==> Nodes[k].next == Nodes[k + 1])
    }

    /** The full invariant: the forward structure, and every back link is
        the mirror of a forward link. */
    ghost predicate Valid()
      reads this, Nodes
    {
      && ForwardLinked()
      && (forall k :: 0 < k < |Nodes| ==> Nodes[k].prev == Nodes[k - 1])
    }

    /** Every back link except possibly the one of position `i` mirrors a
        forward link. */
    ghost predicate BackLinkedExcept(i: int)
      reads this, Nodes
    {
      forall k :: 0 < k < |Nodes| && k != i ==> Nodes[k].prev == Nodes[k - 1]
    }

    /** Since the pre-state, no node of `ns` changed its value, and none
        other than `x` and `y` changed its links. */
    twostate predicate KeptExcept(ns: seq<Node<T>>, x: Node?<T>, y: Node?<T>)
      reads ns
    {
      forall k :: 0 <= k < |ns| ==>
        && ns[k].value == old(ns[k].value)
        && (ns[k] != x && ns[k] != y ==> ns[k].next == old(ns[k].next) && ns[k].prev == old(ns[k].prev))
    }

    /** The node reached from `from` by following `steps` links, forward
        along `next` or backward along `prev`. */
    ghost function Walk(from: Node?<T>, steps: nat, forward: bool): (r: Node?<T>)
      reads this, Nodes
      decreases steps
    {
      if steps == 0 || from == null || from !in Nodes then from
      else Walk(if forward then from.next else from.prev, steps - 1, forward)
    }

    constructor ()
      ensures Valid()
      ensures head == null && tail == null && length == 0
      ensures Nodes == [] && Contents == []
    {
      head := null;
      tail := null;
      length := 0;
      Nodes := [];
      Contents := [];
    }

    /** Appends `value` in a new node that becomes the tail. */
    method Push(value: T)
      requires Valid()
      modifies this, Nodes
      ensures Valid()
      ensures Contents == old(Contents) + [value]
      ensures length == old(length) + 1
      ensures tail != null && fresh(tail) && Nodes == old(Nodes) + [tail]
      ensures tail.value == value && tail.next == null
      ensures old(length) == 0 ==> head == tail && tail.prev == null
      ensures old(length) > 0 ==> head == old(head) && tail.prev == old(tail)
    {
      var newNode := new Node(value);
      if head == null {
        head := newNode;
        tail := newNode;
      } else {
        tail.next := newNode;
        newNode.prev := tail;
        tail := newNode;
      }
      length := length + 1;
      Nodes := Nodes + [newNode];
      Contents := Contents + [value];
    }

    /** Prepends `value` in a new node that becomes the head. */
    method Unshift(value: T)
      requires Valid()
      modifies this, Nodes
      ensures Valid()
      ensures Contents == [value] + old(Contents)
      ensures length == old(length) + 1
      ensures head != null && fresh(head) && Nodes == [head] + old(Nodes)
      ensures head.value == value && head.prev == null
      ensures old(length) == 0 ==> tail == head && head.next == null
      ensures old(length) > 0 ==> tail == old(tail) && head.next == old(head)
    {
      var newNode := new Node(value);
      if head == null {
        head := newNode;
        tail := newNode;
      } else {
        head.prev := newNode;
        newNode.next := head;
        head := newNode;
      }
      length := length + 1;
      Nodes := [newNode] + Nodes;
      Contents := [value] + Contents;
      // every old node moved up one position; only the old head's back link changed
      forall k | 0 < k < |Nodes|
        ensures Nodes[k] == old(Nodes)[k - 1]
        ensures Nodes[k].prev == if k == 1 then newNode else old(Nodes[k - 1].prev)
      {
      }
    }

    /** Detaches and returns the tail node, or returns null on an empty list.
        Only the forward structure and the tail's own back link are needed,
        so this also runs on a list whose inner back links are broken; on
        such a list the result need not be a valid list again, and what is
        kept is stated node by node (`KeptExcept`). On a valid list the new
        `Nodes` and `Contents` already fix every remaining link and value. */
    method Pop() returns (r: Node?<T>)
      requires ForwardLinked()
      requires length >= 2 ==> tail.prev in Nodes[..|Nodes| - 1]
      modifies this, Nodes
      ensures r == null <==> old(length) == 0
      ensures old(length) == 0 ==> unchanged(this)
      ensures r != null ==> && r == old(tail) && r.prev == null && r.next == null
                            && r.value == old(Contents[|Contents| - 1])
                            && length == old(length) - 1 && r !in Nodes
                            && Nodes == old(Nodes[..|Nodes| - 1])
                            && Contents == old(Contents[..|Contents| - 1])
      ensures old(length) == 1 ==> head == null && tail == null
      ensures old(length) >= 2 ==> head == old(head) && tail == old(tail.prev) && tail.next == null
      ensures old(Valid()) ==> Valid()
      ensures !old(Valid()) ==> KeptExcept(old(Nodes), old(tail), tail)
    {
      if head == null {
        return null;
      }
      r := tail;
      if length == 1 {
        head := null;
        tail := null;
      } else {
        tail := r.prev;
        tail.next := null;
        r.prev := null;
      }
      length := length - 1;
      Nodes := Nodes[..|Nodes| - 1];
      Contents := Contents[..|Contents| - 1];
    }

    /** Detaches and returns the head node, or returns null on an empty list. */
    method Shift() returns (r: Node?<T>)
      requires Valid()
      modifies this, Nodes
      ensures Valid()
      ensures r == null <==> old(length) == 0
      ensures old(length) == 0 ==> unchanged(this)
      ensures r != null ==> && r == old(head) && r.prev == null && r.next == null
                            && r.value == old(Contents[0])
                            && length == old(length) - 1 && r !in Nodes
                            && Nodes == old(Nodes[1..])
                            && Contents == old(Contents[1..])
      ensures old(length) == 1 ==> head == null && tail == null
      ensures old(length) >= 2 ==> tail == old(tail) && head == old(head.next) && head.prev == null
    {
      if head == null {
        return null;
      }
      r := head;
      if length == 1 {
        head := null;
        tail := null;
      } else {
        assert r.next == Nodes[1];
        head := r.next;
        head.prev := null;
        r.next := null;
      }
      length := length - 1;
      Nodes := Nodes[1..];
      Contents := Contents[1..];
    }

    /** The node at `index`, or null when `index` is out of range. The walk
        starts at the head when `index <= length / 2` (real division) and at
        the tail otherwise; both walks reach the same node. */
    method Get(index: int) returns (r: Node?<T>)
      requires Valid()
      ensures r == null <==> index < 0 || index >= length
      ensures 0 <= index < length ==> r == Nodes[index]
    {
      if index < 0 || index >= length {
        return null;
      }
      var count: int;
      if 2 * index <= length {
        count := 0;
        r := head;
        while count != index
          invariant 0 <= count <= index
          invariant r == Nodes[count]
          decreases index - count
        {
          r := r.next;
          count := count + 1;
        }
      } else {
        count := length - 1;
        r := tail;
        while count != index
          invariant index <= count < length
          invariant r == Nodes[count]
          decreases count - index
        {
          r := r.prev;
          count := count - 1;
        }
      }
    }

    /** On a valid list the tail's back link stays inside the chain, which is
        what `Pop` needs. */
    lemma TailPrevInChain()
      requires Valid()
      ensures length >= 2 ==> tail.prev in Nodes[..|Nodes| - 1] && tail.prev == Nodes[|Nodes| - 2]
    {
      if length >= 2 {
        assert Nodes[..|Nodes| - 1][|Nodes| - 2] == tail.prev;
      }
    }

    /** Overwrites the value at `index`; false, and no change, when out of range. */
    method Set(index: int, value: T) returns (ok: bool)
      requires Valid()
      modifies this, Nodes
      ensures Valid() && Nodes == old(Nodes)
      ensures ok <==> 0 <= index < old(length)
      ensures !ok ==> unchanged(this) && unchanged(Nodes)
      ensures Contents == if ok then old(Contents)[index := value] else old(Contents)
      ensures head == old(head) && tail == old(tail) && length == old(length)
      ensures forall k :: 0 <= k < |Nodes| ==>
                Nodes[k].next == old(Nodes[k].next) && Nodes[k].prev == old(Nodes[k].prev)
    {
      var node := Get(index);
      if node != null {
        node.value := value;
        Contents := Contents[index := value];
        return true;
      }
      return false;
    }

    /** Inserts `value` so that it ends up at `index`; false, and no change,
        unless `0 <= index <= length`. */
    method Insert(index: int, value: T) returns (ok: bool)
      requires Valid()
      modifies this, Nodes
      ensures Valid()
      ensures ok <==> 0 <= index <= old(length)
      ensures !ok ==> unchanged(this) && unchanged(old(Nodes))
      ensures ok ==> && Contents == Inserted(old(Contents), index, value)
                     && length == old(length) + 1
                     && 0 <= index < |Nodes| && fresh(Nodes[index])
                     && Nodes == Inserted(old(Nodes), index, Nodes[index])
    {
      if index < 0 || index > length {
        return false;
      }
      if index == 0 {
        Unshift(value);
        InsertedAtEnds(old(Contents), value);
        InsertedAtEnds(old(Nodes), head);
        return true;
      }
      if index == length {
        Push(value);
        InsertedAtEnds(old(Contents), value);
        InsertedAtEnds(old(Nodes), tail);
        return true;
      }
      ghost var ns := Nodes;
      var newNode := new Node(value);
      var beforeNode := Get(index - 1);
      assert beforeNode.next == ns[index];
      var afterNode := beforeNode.next;
      beforeNode.next := newNode;
      newNode.prev := beforeNode;
      newNode.next := afterNode;
      afterNode.prev := newNode;
      length := length + 1;
      Nodes := Inserted(Nodes, index, newNode);
      Contents := Inserted(Contents, index, value);
      SplicedIn(index);
      return true;
    }

    /** The splice of `Insert`: a new node now sits at position `i`, between
        the old positions `i - 1` and `i`, and only the four links around it
        were written. */
    twostate lemma SplicedIn(i: nat)
      requires old(Valid()) && 0 < i < old(|Nodes|)
      requires |Nodes| == old(|Nodes|) + 1 && Nodes[i] !in old(Nodes)
      requires Nodes == Inserted(old(Nodes), i, Nodes[i])
      requires Contents == Inserted(old(Contents), i, Nodes[i].value)
      requires length == old(length) + 1 && head == old(head) && tail == old(tail)
      requires forall k :: 0 <= k < old(|Nodes|) ==>
                 && old(Nodes)[k].value == old(Nodes[k].value)
                 && (k != i - 1 ==> old(Nodes)[k].next == old(Nodes[k].next))
                 && (k != i ==> old(Nodes)[k].prev == old(Nodes[k].prev))
      requires old(Nodes)[i - 1].next == Nodes[i] && Nodes[i].prev == old(Nodes)[i - 1]
      requires Nodes[i].next == old(Nodes)[i] && old(Nodes)[i].prev == Nodes[i]
      ensures Valid()
    {
      var ns := old(Nodes);
      DistinctInserted(ns, i, Nodes[i]);
      forall k | 0 <= k < |Nodes| - 1 ensures Nodes[k].next == Nodes[k + 1] {
        if k + 1 < i {
          assert Nodes[k] == ns[k] && Nodes[k + 1] == ns[k + 1];
        } else if k + 1 > i + 1 {
          assert Nodes[k] == ns[k - 1] && Nodes[k + 1] == ns[k];
        }
      }
      forall k | 0 < k < |Nodes| ensures Nodes[k].prev == Nodes[k - 1] {
        if k < i {
          assert Nodes[k] == ns[k] && Nodes[k - 1] == ns[k - 1];
        } else if k > i + 1 {
          assert Nodes[k] == ns[k - 1] && Nodes[k - 1] == ns[k - 2];
        }
      }
    }

    /** `remove` as the source writes it. The node at `index` is detached
        and returned and the forward chain is spliced correctly, but in the
        middle case the successor's back link is set to the predecessor's
        own `prev` instead of to the predecessor: the successor then points
        back two places (or to null when the predecessor is the head), so
        only the forward structure survives. */
    method Remove(index: int) returns (r: Node?<T>)
      requires Valid()
      modifies this, Nodes
      ensures ForwardLinked()
      ensures r == null <==> index < 0 || index >= old(length)
      ensures r == null ==> unchanged(this) && unchanged(old(Nodes))
      ensures r != null ==> && r == old(Nodes[index]) && r.prev == null && r.next == null
                            && r.value == old(Contents[index])
                            && length == old(length) - 1 && r !in Nodes
                            && Nodes == Removed(old(Nodes), index)
                            && Contents == Removed(old(Contents), index)
      ensures !(0 < index < old(length) - 1) ==> Valid()
      ensures 0 < index < old(length) - 1 ==>
                && BackLinkedExcept(index)
                && Nodes[index].prev == (if index == 1 then null else Nodes[index - 2])
                && !Valid()
    {
      if index < 0 || index >= length {
        return null;
      }
      if index == 0 {
        RemovedAtEnds(old(Nodes));
        RemovedAtEnds(old(Contents));
        r := Shift();
        return;
      }
      if index == length - 1 {
        RemovedAtEnds(old(Nodes));
        RemovedAtEnds(old(Contents));
        TailPrevInChain();
        r := Pop();
        return;
      }
      ghost var ns := Nodes;
      var nodeToRemove := Get(index);
      assert nodeToRemove.prev == ns[index - 1] && nodeToRemove.next == ns[index + 1];
      var beforeNode := nodeToRemove.prev;
      beforeNode.next := nodeToRemove.next;
      var afterNode := nodeToRemove.next;
      afterNode.prev := beforeNode.prev;
      nodeToRemove.prev := null;
      nodeToRemove.next := null;
      length := length - 1;
      Nodes := Removed(Nodes, index);
      Contents := Removed(Contents, index);
      SplicedOut(index);
      r := nodeToRemove;
    }

    /** `remove` with the successor's back link set to the predecessor,
        which keeps the full invariant. */
    method RemoveCorrected(index: int) returns (r: Node?<T>)
      requires Valid()
      modifies this, Nodes
      ensures Valid()
      ensures r == null <==> index < 0 || index >= old(length)
      ensures r == null ==> unchanged(this) && unchanged(old(Nodes))
      ensures r != null ==> && r == old(Nodes[index]) && r.prev == null && r.next == null
                            && r.value == old(Contents[index])
                            && length == old(length) - 1 && r !in Nodes
                            && Nodes == Removed(old(Nodes), index)
                            && Contents == Removed(old(Contents), index)
    {
      if index < 0 || index >= length {
        return null;
      }
      if index == 0 {
        RemovedAtEnds(old(Nodes));
        RemovedAtEnds(old(Contents));
        r := Shift();
        return;
      }
      if index == length - 1 {
        RemovedAtEnds(old(Nodes));
        RemovedAtEnds(old(Contents));
        TailPrevInChain();
        r := Pop();
        return;
      }
      ghost var ns := Nodes;
      var nodeToRemove := Get(index);
      assert nodeToRemove.prev == ns[index - 1] && nodeToRemove.next == ns[index + 1];
      var beforeNode := nodeToRemove.prev;
      beforeNode.next := nodeToRemove.next;
      var afterNode := nodeToRemove.next;
      afterNode.prev := beforeNode;
      nodeToRemove.prev := null;
      nodeToRemove.next := null;
      length := length - 1;
      Nodes := Removed(Nodes, index);
      Contents := Removed(Contents, index);
      SplicedOut(index);
      r := nodeToRemove;
    }

    /** The splice of `remove`: the node at position `i` is gone, the
        predecessor's `next` skips it, and apart from the successor's `prev`
        no other link was written. */
    twostate lemma SplicedOut(i: nat)
      requires old(Valid()) && 0 < i < old(|Nodes|) - 1
      requires Nodes == Removed(old(Nodes), i) && Contents == Removed(old(Contents), i)
      requires length == old(length) - 1 && head == old(head) && tail == old(tail)
      requires forall k :: 0 <= k < old(|Nodes|) ==>
                 && old(Nodes)[k].value == old(Nodes[k].value)
                 && (k != i - 1 && k != i ==> old(Nodes)[k].next == old(Nodes[k].next))
                 && (k != i && k != i + 1 ==> old(Nodes)[k].prev == old(Nodes[k].prev))
      requires old(Nodes)[i - 1].next == old(Nodes)[i + 1]
      ensures ForwardLinked()
      ensures BackLinkedExcept(i)
      ensures Nodes[i - 1] == old(Nodes)[i - 1] && Nodes[i] == old(Nodes)[i + 1]
      ensures old(Nodes)[i] !in Nodes
      ensures i >= 2 ==> Nodes[i - 2] == old(Nodes)[i - 2] && Nodes[i - 2] != Nodes[i - 1]
      ensures Valid() <==> Nodes[i].prev == Nodes[i - 1]
    {
      var ns := old(Nodes);
      DistinctRemoved(ns, i);
      forall k | 0 <= k < |Nodes| - 1 ensures Nodes[k].next == Nodes[k + 1] {
        if k + 1 < i {
          assert Nodes[k] == ns[k] && Nodes[k + 1] == ns[k + 1];
        } else if k >= i {
          assert Nodes[k] == ns[k + 1] && Nodes[k + 1] == ns[k + 2];
        }
      }
      forall k | 0 < k < |Nodes| && k != i ensures Nodes[k].prev == Nodes[k - 1] {
        if k < i {
          assert Nodes[k] == ns[k] && Nodes[k - 1] == ns[k - 1];
        } else {
          assert Nodes[k] == ns[k + 1] && Nodes[k - 1] == ns[k];
        }
      }
    }

    /** Following `next` from position `j` for `i - j` steps reaches position `i`. */
    lemma {:induction false} WalkForwardFrom(j: nat, i: nat)
      requires Valid() && j <= i < |Nodes|
      ensures Walk(Nodes[j], i - j, true) == Nodes[i]
      decreases i - j
    {
      if j < i {
        WalkForwardFrom(j + 1, i);
      }
    }

    /** Following `prev` from position `j` for `j - i` steps reaches position `i`. */
    lemma {:induction false} WalkBackwardFrom(j: nat, i: nat)
      requires Valid() && i <= j < |Nodes|
      ensures Walk(Nodes[j], j - i, false) == Nodes[i]
      decreases j - i
    {
      if i < j {
        WalkBackwardFrom(j - 1, i);
      }
    }

    /** The node at position `i` is `i` forward steps from the head and
        `length - 1 - i` backward steps from the tail. */
    lemma WalksMeet(i: nat)
      requires Valid() && i < length
      ensures Walk(head, i, true) == Nodes[i]
      ensures Walk(tail, length - 1 - i, false) == Nodes[i]
    {
      WalkForwardFrom(0, i);
      WalkBackwardFrom(length - 1, i);
    }
  }
}
