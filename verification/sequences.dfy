/** The abstract view of the list: the sequence of values it holds, and
    the two positional edits that `insert` and `remove` perform on it. */
module Sequences {

  /** `s` with `v` placed so that it ends up at position `i`. */
  function Inserted<T>(s: seq<T>, i: nat, v: T): (r: seq<T>)
    requires i <= |s|
    ensures |r| == |s| + 1 && r[i] == v
    ensures forall k :: 0 <= k < i ==> r[k] == s[k]
    ensures forall k :: i < k < |r| ==> r[k] == s[k - 1]
  {
    s[..i] + [v] + s[i..]
  }

  /** `s` without the element at position `i`. */
  function Removed<T>(s: seq<T>, i: nat): (r: seq<T>)
    requires i < |s|
    ensures |r| == |s| - 1
    ensures forall k :: 0 <= k < i ==> r[k] == s[k]
    ensures forall k :: i <= k < |r| ==> r[k] == s[k + 1]
  {
    s[..i] + s[i + 1..]
  }

  /** No element occurs twice in `s`. */
  predicate Distinct<T(==)>(s: seq<T>)
  {
    forall j, k :: 0 <= j < k < |s| ==> s[j] != s[k]
  }

  /** Inserting an element that does not occur keeps the elements distinct. */
  lemma DistinctInserted<T>(s: seq<T>, i: nat, v: T)
    requires i <= |s| && Distinct(s) && v !in s
    ensures Distinct(Inserted(s, i, v))
  {
    var r := Inserted(s, i, v);
    forall j, k | 0 <= j < k < |r| ensures r[j] != r[k] {
      if j != i && k != i {
        assert r[j] == s[if j < i then j else j - 1];
        assert r[k] == s[if k < i then k else k - 1];
      }
    }
  }

  /** Removing an element keeps the rest distinct and leaves the removed
      element out. */
  lemma DistinctRemoved<T>(s: seq<T>, i: nat)
    requires i < |s| && Distinct(s)
    ensures Distinct(Removed(s, i)) && s[i] !in Removed(s, i)
  {
    var r := Removed(s, i);
    forall j, k | 0 <= j < k < |r| ensures r[j] != r[k] {
      assert r[j] == s[if j < i then j else j + 1];
      assert r[k] == s[if k < i then k else k + 1];
    }
    forall j | 0 <= j < |r| ensures r[j] != s[i] {
      assert r[j] == s[if j < i then j else j + 1];
    }
  }

  /** Inserting at the front is prepending; inserting at the end is appending. */
  lemma InsertedAtEnds<T>(s: seq<T>, v: T)
    ensures Inserted(s, 0, v) == [v] + s
    ensures Inserted(s, |s|, v) == s + [v]
  {
    assert s[..0] == [] && s[0..] == s;
    assert s[..|s|] == s && s[|s|..] == [];
  }

  /** Removing the first element is dropping it; removing the last is truncating. */
  lemma RemovedAtEnds<T>(s: seq<T>)
    requires |s| > 0
    ensures Removed(s, 0) == s[1..]
    ensures Removed(s, |s| - 1) == s[..|s| - 1]
  {
    assert s[..0] == [];
    assert s[|s|..] == [];
  }

  /** Removing what was just inserted at the same position restores the sequence. */
  lemma RemovedInserted<T>(s: seq<T>, i: nat, v: T)
    requires i <= |s|
    ensures Removed(Inserted(s, i, v), i) == s
  {
    var t := Inserted(s, i, v);
    assert t[..i] == s[..i];
    assert t[i + 1..] == s[i..];
  }

  /** Inserting the removed element back at its position restores the sequence. */
  lemma InsertedRemoved<T>(s: seq<T>, i: nat)
    requires i < |s|
    ensures Inserted(Removed(s, i), i, s[i]) == s
  {
    var t := Removed(s, i);
    assert t[..i] == s[..i];
    assert t[i..] == s[i + 1..];
  }
}
