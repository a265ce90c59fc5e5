/**
 * The three in-place operations that the note list performs on a Swift
 * `Array`: `remove(at:)`, `insert(_:at:)` and the remove-then-insert that
 * reorders a row. They are stated here on values; the controller applies
 * them to its `notes` field.
 */
module Sequences {

  /** `Array.remove(at: i)`: drop the element at `i`, keeping the prefix and
      shifting the suffix down by one. Swift traps when `i` is out of range. */
  function RemoveAt<T>(s: seq<T>, i: nat): (r: seq<T>)
    requires i < |s|
    ensures |r| == |s| - 1
    ensures forall j :: 0 <= j < i ==> r[j] == s[j]
    ensures forall j :: i <= j < |r| ==> r[j] == s[j + 1]
  {
    s[..i] + s[i + 1..]
  }

  /** `Array.insert(x, at: i)`: `x` lands at `i`, the prefix stays, the suffix
      moves up by one. Swift traps unless `i <= count`. */
  function InsertAt<T>(s: seq<T>, i: nat, x: T): (r: seq<T>)
    requires i <= |s|
    ensures |r| == |s| + 1 && r[i] == x
    ensures forall j :: 0 <= j < i ==> r[j] == s[j]
    ensures forall j :: i < j < |r| ==> r[j] == s[j - 1]
  {
    s[..i] + [x] + s[i..]
  }

  /** Reordering a table row: take the element at `from` out, then put it
      back at `to` in the shortened sequence. */
  function Moved<T>(s: seq<T>, from: nat, to: nat): (r: seq<T>)
    requires from < |s| && to < |s|
    ensures |r| == |s| && r[to] == s[from]
  {
    InsertAt(RemoveAt(s, from), to, s[from])
  }

  /** Removing at `i` takes exactly one copy of `s[i]` out of the multiset. */
  lemma RemoveAtMultiset<T>(s: seq<T>, i: nat)
    requires i < |s|
    ensures multiset(RemoveAt(s, i)) == multiset(s) - multiset{s[i]}
  {
    assert s == s[..i] + [s[i]] + s[i + 1..];
  }

  /** Inserting `x` adds exactly one copy of `x` to the multiset. */
  lemma InsertAtMultiset<T>(s: seq<T>, i: nat, x: T)
    requires i <= |s|
    ensures multiset(InsertAt(s, i, x)) == multiset(s) + multiset{x}
  {
    assert s == s[..i] + s[i..];
  }

  /** Putting the removed element back where it was restores the sequence. */
  lemma InsertRemoveInverse<T>(s: seq<T>, i: nat)
    requires i < |s|
    ensures InsertAt(RemoveAt(s, i), i, s[i]) == s
  {
    var r := InsertAt(RemoveAt(s, i), i, s[i]);
    assert forall j :: 0 <= j < |s| ==> r[j] == s[j];
  }

  /** Removing what was just inserted restores the sequence. */
  lemma RemoveInsertInverse<T>(s: seq<T>, i: nat, x: T)
    requires i <= |s|
    ensures RemoveAt(InsertAt(s, i, x), i) == s
  {
    var r := RemoveAt(InsertAt(s, i, x), i);
    assert forall j :: 0 <= j < |s| ==> r[j] == s[j];
  }

  /** A move is a permutation: no note is lost or duplicated. */
  lemma MovedIsPermutation<T>(s: seq<T>, from: nat, to: nat)
    requires from < |s| && to < |s|
    ensures multiset(Moved(s, from, to)) == multiset(s)
  {
    RemoveAtMultiset(s, from);
    InsertAtMultiset(RemoveAt(s, from), to, s[from]);
    assert s[from] in multiset(s);
  }

  /** The notes other than the moved one keep their relative order: taking
      the moved note out of the result gives the same sequence as taking it
      out of the input. */
  lemma MovedKeepsOthersInOrder<T>(s: seq<T>, from: nat, to: nat)
    requires from < |s| && to < |s|
    ensures RemoveAt(Moved(s, from, to), to) == RemoveAt(s, from)
  {
    RemoveInsertInverse(RemoveAt(s, from), to, s[from]);
  }

  /** Dropping a row onto itself changes nothing. */
  lemma MoveToSameRow<T>(s: seq<T>, i: nat)
    requires i < |s|
    ensures Moved(s, i, i) == s
  {
    InsertRemoveInverse(s, i);
  }

  /** Moving from `from` to `to` and then from `to` back to `from` restores
      the original order. */
  lemma MoveBack<T>(s: seq<T>, from: nat, to: nat)
    requires from < |s| && to < |s|
    ensures Moved(Moved(s, from, to), to, from) == s
  {
    var m := Moved(s, from, to);
    MovedKeepsOthersInOrder(s, from, to);
    InsertRemoveInverse(s, from);
  }

  /** Where every element ends up after a move, position by position. */
  lemma MovedAt<T>(s: seq<T>, from: nat, to: nat, k: nat)
    requires from < |s| && to < |s| && k < |s|
    ensures Moved(s, from, to)[k] ==
      if k == to then s[from]
      else if from <= k < to then s[k + 1]
      else if to < k <= from then s[k - 1]
      else s[k]
  {
  }

  /** The first position of `x` in `s`. */
  function IndexOf<T(==)>(s: seq<T>, x: T): (i: nat)
    requires x in s
    ensures i < |s| && s[i] == x && x !in s[..i]
  {
    if s[0] == x then 0
    else
      assert x in s[1..];
      1 + IndexOf(s[1..], x)
  }

  /** `idx` lists, in increasing order, the positions of `s` at which the
      elements of `sub` are found. */
  ghost predicate IsEmbedding<T>(idx: seq<int>, sub: seq<T>, s: seq<T>)
  {
    |idx| == |sub| &&
    (forall k :: 0 <= k < |idx| ==> 0 <= idx[k] < |s| && sub[k] == s[idx[k]]) &&
    (forall k, l :: 0 <= k < l < |idx| ==> idx[k] < idx[l])
  }

  /** `sub` is obtained from `s` by deleting elements, keeping the order. */
  ghost predicate IsSubsequence<T>(sub: seq<T>, s: seq<T>)
  {
    exists idx :: IsEmbedding(idx, sub, s)
  }

  /** Skipping a leading element keeps a subsequence a subsequence, and so
      does keeping the same leading element on both sides. */
  lemma SubsequenceCons<T>(x: T, sub: seq<T>, s: seq<T>)
    requires IsSubsequence(sub, s)
    ensures IsSubsequence(sub, [x] + s)
    ensures IsSubsequence([x] + sub, [x] + s)
  {
    var idx :| IsEmbedding(idx, sub, s);
    var shifted := seq(|idx|, k requires 0 <= k < |idx| => idx[k] + 1);
    assert IsEmbedding(shifted, sub, [x] + s);
    assert IsEmbedding([0] + shifted, [x] + sub, [x] + s);
  }
}
