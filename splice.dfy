/** The two uses of Array.prototype.splice in `onDragEnd`: `splice(i, 1)`,
    which takes out the element at `i`, and `splice(i, 0, x)`, which puts `x`
    in front of position `i` (ECMA-262, section 23.1.3.31). An insertion
    position beyond the end of the array is clamped to its length. */
module Splice {

  /** The position `splice(start, 0, x)` inserts at in an array of length `len`. */
  function ClampedStart(start: nat, len: nat): (k: nat)
    ensures k <= len
    ensures start <= len ==> k == start
    ensures len < start ==> k == len
  {
    if start <= len then start else len
  }

  /** `s` after `s.splice(i, 1)`: the element at `i` is gone and the ones
      after it move one place to the left. */
  function RemoveAt<T>(s: seq<T>, i: nat): (r: seq<T>)
    requires i < |s|
    ensures |r| == |s| - 1
    ensures forall k :: 0 <= k < i ==> r[k] == s[k]
    ensures forall k :: i <= k < |r| ==> r[k] == s[k + 1]
  {
    s[..i] + s[i + 1..]
  }

  /** `s` after `s.splice(i, 0, x)`: `x` sits at `i` and the elements from
      `i` on move one place to the right. */
  function InsertAt<T>(s: seq<T>, i: nat, x: T): (r: seq<T>)
    requires i <= |s|
    ensures |r| == |s| + 1 && r[i] == x
    ensures forall k :: 0 <= k < i ==> r[k] == s[k]
    ensures forall k :: i < k < |r| ==> r[k] == s[k - 1]
  {
    s[..i] + [x] + s[i..]
  }

  /** Removing the element at `from` and inserting it again at `to`. */
  function Move<T>(s: seq<T>, from: nat, to: nat): (r: seq<T>)
    requires from < |s|
    ensures |r| == |s|
  {
    var rest := RemoveAt(s, from);
    InsertAt(rest, ClampedStart(to, |rest|), s[from])
  }

  /** A sequence is what comes before position `i`, the element there, and what comes after. */
  lemma SplitAround<T>(s: seq<T>, i: nat)
    requires i < |s|
    ensures s == s[..i] + [s[i]] + s[i + 1..]
  {
  }

  /** A non-empty sequence is its head in front of its tail. */
  lemma HeadTail<T>(s: seq<T>)
    requires s != []
    ensures s == [s[0]] + s[1..]
  {
  }

  /** The head of `[x] + t` is `x` and its tail is `t`. */
  lemma ConsParts<T>(x: T, t: seq<T>)
    ensures ([x] + t)[0] == x && ([x] + t)[1..] == t
  {
  }

  lemma ConsAssoc<T>(x: seq<T>, t: seq<T>, b: seq<T>)
    ensures (x + t) + b == x + (t + b)
  {
  }

  /** Replacing the element at `i` leaves what is before and after it alone. */
  lemma UpdateOutside<T>(s: seq<T>, i: nat, y: T)
    requires i < |s|
    ensures s[i := y][..i] == s[..i] && s[i := y][i + 1..] == s[i + 1..]
  {
  }

  /** Replacing the middle element of `p + [x] + q`. */
  lemma UpdateMiddle<T>(p: seq<T>, x: T, q: seq<T>, y: T)
    ensures (p + [x] + q)[|p| := y] == p + [y] + q
  {
  }

  /** Putting back what was removed restores the sequence. */
  lemma InsertRemoved<T>(s: seq<T>, i: nat)
    requires i < |s|
    ensures InsertAt(RemoveAt(s, i), i, s[i]) == s
  {
    assert s[..i] + [s[i]] + s[i + 1..] == s;
  }

  /** Taking out what was inserted restores the sequence. */
  lemma RemoveInserted<T>(s: seq<T>, i: nat, x: T)
    requires i <= |s|
    ensures RemoveAt(InsertAt(s, i, x), i) == s
  {
    var r := RemoveAt(InsertAt(s, i, x), i);
    assert forall k :: 0 <= k < |s| ==> r[k] == s[k];
  }

  /** Taking out the element at `i` takes exactly that element out of the multiset. */
  lemma RemoveAtMultiset<T>(s: seq<T>, i: nat)
    requires i < |s|
    ensures multiset(RemoveAt(s, i)) + multiset{s[i]} == multiset(s)
  {
    SplitAround(s, i);
    assert RemoveAt(s, i) == s[..i] + s[i + 1..];
  }

  /** Putting `x` in at `i` adds exactly `x` to the multiset. */
  lemma InsertAtMultiset<T>(s: seq<T>, i: nat, x: T)
    requires i <= |s|
    ensures multiset(InsertAt(s, i, x)) == multiset(s) + multiset{x}
  {
    assert InsertAt(s, i, x) == s[..i] + [x] + s[i..];
    assert s == s[..i] + s[i..];
  }

  /** A move rearranges the elements and neither adds nor loses any. */
  lemma MoveIsPermutation<T>(s: seq<T>, from: nat, to: nat)
    requires from < |s|
    ensures multiset(Move(s, from, to)) == multiset(s)
  {
    var rest := RemoveAt(s, from);
    InsertAtMultiset(rest, ClampedStart(to, |rest|), s[from]);
    RemoveAtMultiset(s, from);
  }

  /** The moved element lands at the (clamped) destination, and the others
      keep their relative order. */
  lemma MovePlacement<T>(s: seq<T>, from: nat, to: nat)
    requires from < |s|
    ensures Move(s, from, to)[ClampedStart(to, |s| - 1)] == s[from]
    ensures RemoveAt(Move(s, from, to), ClampedStart(to, |s| - 1)) == RemoveAt(s, from)
  {
    RemoveInserted(RemoveAt(s, from), ClampedStart(to, |s| - 1), s[from]);
  }

  /** Dragging the element back to where it came from undoes a move. */
  lemma {:induction false} MoveUndo<T>(s: seq<T>, from: nat, to: nat)
    requires from < |s| && to < |s|
    ensures Move(Move(s, from, to), to, from) == s
  {
    var r := Move(s, from, to);
    MovePlacement(s, from, to);
    assert RemoveAt(r, to) == RemoveAt(s, from);
    InsertRemoved(s, from);
  }

  /** A move that stays inside a prefix leaves the rest of the sequence alone. */
  lemma MoveWithinPrefix<T>(a: seq<T>, c: seq<T>, from: nat, to: nat)
    requires from < |a| && to < |a|
    ensures Move(a + c, from, to) == Move(a, from, to) + c
  {
    var s := a + c;
    assert s[from] == a[from];
    var rest := RemoveAt(s, from);
    assert rest == RemoveAt(a, from) + c;
    var l, r := Move(s, from, to), Move(a, from, to) + c;
    assert ClampedStart(to, |rest|) == to == ClampedStart(to, |a| - 1);
    assert forall k :: 0 <= k < |l| ==> l[k] == r[k];
  }

  /** Dragging the first element one place down swaps it with the second. */
  lemma MoveFirstDown<T>(p: T, q: T, w: T)
    ensures Move([p, q], 0, 1) == [q, p]
    ensures Move([p, q, w], 0, 1) == [q, p, w]
  {
    assert RemoveAt([p, q], 0) == [q];
    assert RemoveAt([p, q, w], 0) == [q, w];
  }
}
