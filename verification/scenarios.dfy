/** Client-side uses of the list: the trace that exposes the broken back
    link left by `remove`, draining the list from either end, and an
    insert undone by a remove. */
module Scenarios {
  import opened Sequences
  import opened LinkedList

  /** Push a, b, c, d and remove position 2 (c): d's back link now points at
      a, so the following pop makes a both head and tail, with no successor,
      while the list still reports two elements. b is still counted but no
      longer reachable, and its `next` still leads to the popped d. */
  method RemoveThenPopTrace<T>(a: T, b: T, c: T, d: T)
    returns (length: int, headIsTail: bool, headHasNext: bool, orphanLinksPopped: bool)
    ensures length == 2 && headIsTail && !headHasNext && orphanLinksPopped
  {
    var l := new DoublyLinkedList();
    l.Push(a);
    var na := l.tail;
    l.Push(b);
    var nb := l.tail;
    l.Push(c);
    l.Push(d);
    var nd := l.tail;
    assert l.Nodes[0] == na && l.Nodes[1] == nb && l.Nodes[3] == nd;
    var removed := l.Remove(2);
    assert l.Nodes[0] == na && l.Nodes[1] == nb && l.Nodes[2] == nd;
    assert nd.prev == na && nb.next == nd;
    assert l.Nodes[..2] == [l.Nodes[0], l.Nodes[1]];
    var popped := l.Pop();
    length := l.length;
    headIsTail := l.head != null && l.head == l.tail;
    headHasNext := l.head != null && l.head.next != null;
    orphanLinksPopped := nb != l.head && nb.next == popped;
  }

  /** Push a, b, c and remove position 1 (b): c's back link becomes a's, which
      is null, so the tail has no predecessor while two elements are counted.
      A following pop would set the tail to null and then write its `next`,
      which fails. */
  method RemoveMiddleOfThreeTrace<T>(a: T, b: T, c: T)
    returns (length: int, tailPrevIsNull: bool)
    ensures length == 2 && tailPrevIsNull
  {
    var l := new DoublyLinkedList();
    l.Push(a);
    l.Push(b);
    l.Push(c);
    var nc := l.tail;
    assert l.Nodes[2] == nc;
    var removed := l.Remove(1);
    assert l.Nodes[1] == nc;
    length := l.length;
    tailPrevIsNull := l.tail != null && l.tail.prev == null;
  }

  /** The same trace with the corrected removal: head and tail are two
      distinct nodes linked both ways, holding a and b. */
  method RemoveCorrectedThenPopTrace<T>(a: T, b: T, c: T, d: T)
    returns (length: int, headIsTail: bool, headNextIsTail: bool, tailPrevIsHead: bool, values: seq<T>)
    ensures length == 2 && !headIsTail && headNextIsTail && tailPrevIsHead
    ensures values == [a, b]
  {
    var l := new DoublyLinkedList();
    l.Push(a);
    l.Push(b);
    l.Push(c);
    l.Push(d);
    var removed := l.RemoveCorrected(2);
    l.TailPrevInChain();
    var popped := l.Pop();
    l.TailPrevInChain();
    length := l.length;
    headIsTail := l.head == l.tail;
    headNextIsTail := l.head != null && l.head.next == l.tail;
    tailPrevIsHead := l.tail != null && l.tail.prev == l.head;
    values := if l.head != null && l.tail != null then [l.head.value, l.tail.value] else [];
  }

  /** A new list built by pushing the values of `vs` in order. */
  method FromSeq<T>(vs: seq<T>) returns (l: DoublyLinkedList<T>)
    ensures fresh(l) && fresh(l.Nodes) && l.Valid() && l.Contents == vs
  {
    l := new DoublyLinkedList();
    var i := 0;
    while i < |vs|
      invariant 0 <= i <= |vs|
      invariant fresh(l) && fresh(l.Nodes) && l.Valid()
      invariant l.Contents == vs[..i]
    {
      l.Push(vs[i]);
      i := i + 1;
    }
    assert vs[..i] == vs;
  }

  /** Pushing every value and then shifting until the list is empty yields
      the values in their original order. */
  method FifoDrain<T>(vs: seq<T>) returns (out: seq<T>, remaining: int)
    ensures out == vs && remaining == 0
  {
    var l := FromSeq(vs);
    out := [];
    var node := l.Shift();
    while node != null
      invariant fresh(l) && fresh(l.Nodes) && l.Valid()
      invariant out + (if node == null then [] else [node.value]) + l.Contents == vs
      invariant node == null ==> l.Contents == []
      decreases |l.Contents| + (if node == null then 0 else 1)
    {
      out := out + [node.value];
      node := l.Shift();
    }
    remaining := l.length;
  }

  /** Pushing every value and then popping until the list is empty yields
      the values in reverse order. */
  method LifoDrain<T>(vs: seq<T>) returns (out: seq<T>, remaining: int)
    ensures |out| == |vs| && remaining == 0
    ensures forall k :: 0 <= k < |vs| ==> out[k] == vs[|vs| - 1 - k]
  {
    var l := FromSeq(vs);
    out := [];
    l.TailPrevInChain();
    var node := l.Pop();
    while node != null
      invariant fresh(l) && fresh(l.Nodes) && l.Valid()
      invariant |l.Contents| + |out| + (if node == null then 0 else 1) == |vs|
      invariant l.Contents == vs[..|l.Contents|]
      invariant node == null ==> l.Contents == []
      invariant node != null ==> node.value == vs[|l.Contents|]
      invariant forall k :: 0 <= k < |out| ==> out[k] == vs[|vs| - 1 - k]
      decreases |l.Contents| + (if node == null then 0 else 1)
    {
      out := out + [node.value];
      l.TailPrevInChain();
      node := l.Pop();
    }
    remaining := l.length;
  }

  /** Inserting a value and then removing it at the same position with
      `remove` as written: the contents and the length come back and the
      forward structure holds, but when the removal is in the middle the
      list is no longer valid. */
  method InsertThenRemove<T>(l: DoublyLinkedList<T>, index: int, value: T) returns (ok: bool)
    requires l.Valid()
    modifies l, l.Nodes
    ensures l.ForwardLinked()
    ensures ok <==> 0 <= index <= old(l.length)
    ensures l.Contents == old(l.Contents) && l.length == old(l.length)
    ensures (index == 0 || index == old(l.length)) ==> l.Valid()
    ensures 0 < index < old(l.length) ==> !l.Valid()
  {
    ok := l.Insert(index, value);
    if ok {
      var r := l.Remove(index);
      RemovedInserted(old(l.Contents), index, value);
    }
  }

  /** The same round trip with the corrected removal: the contents and the
      length come back and the list stays valid. */
  method InsertThenRemoveCorrected<T>(l: DoublyLinkedList<T>, index: int, value: T) returns (ok: bool)
    requires l.Valid()
    modifies l, l.Nodes
    ensures l.Valid()
    ensures ok <==> 0 <= index <= old(l.length)
    ensures l.Contents == old(l.Contents) && l.length == old(l.length)
  {
    ok := l.Insert(index, value);
    if ok {
      var r := l.RemoveCorrected(index);
      RemovedInserted(old(l.Contents), index, value);
    }
  }
}
