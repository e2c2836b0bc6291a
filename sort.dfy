/** `updatedHabits.sort((a, b) => a.completed - b.completed)` of
    `toggleComplete` (src/App.js:65) as an in-place sort of the copied array.
    The algorithm is a stable insertion sort driven by the comparator; by
    `HabitList.StableSortIsUnique` every stable sort ends in the same array. */
module InPlaceSort {
  import opened Habits
  import opened HabitList

  /** The prefix `s[..i + 1]` is the prefix `s[..i]` followed by `s[i]`,
      and the filters follow. */
  lemma FiltersOfLongerPrefix(s: seq<Habit>, i: nat)
    requires i < |s|
    ensures Active(s[..i + 1]) == Active(s[..i]) + (if s[i].completed then [] else [s[i]])
    ensures Completed(s[..i + 1]) == Completed(s[..i]) + (if s[i].completed then [s[i]] else [])
  {
    assert s[..i + 1] == s[..i] + [s[i]];
    ActiveAppend(s[..i], [s[i]]);
    CompletedAppend(s[..i], [s[i]]);
    assert [s[i]][1..] == [];
  }

  /** `r` after the first `i` steps of the insertion sort of `s`: the
      active habits of `s[..i]`, then its completed ones, then the rest of
      `s` untouched. */
  ghost predicate SortedUpTo(r: seq<Habit>, s: seq<Habit>, i: nat) {
    && i <= |s| == |r|
    && var act, com := Active(s[..i]), Completed(s[..i]);
    && |act| + |com| == i
    && (forall k :: 0 <= k < |act| ==> r[k] == act[k])
    && (forall k :: |act| <= k < i ==> r[k] == com[k - |act|])
    && (forall k :: i <= k < |r| ==> r[k] == s[k])
  }

  /** `after` is `before` with its element at `i` moved to `p` when that
      element is active, and `before` itself when it is completed. */
  ghost predicate Shifted(before: seq<Habit>, after: seq<Habit>, i: nat, p: nat)
    requires p <= i < |before|
  {
    && |after| == |before|
    && (before[i].completed ==> forall k :: 0 <= k < |before| ==> after[k] == before[k])
    && (!before[i].completed ==>
      && (forall k :: 0 <= k < p ==> after[k] == before[k])
      && after[p] == before[i]
      && (forall k :: p < k <= i ==> after[k] == before[k - 1])
      && (forall k :: i < k < |before| ==> after[k] == before[k]))
  }

  /** One step of the insertion sort: the habit at `i` moves left past the
      completed habits at `p..i` when it is active itself, and stays where
      it is when it is completed. */
  method ShiftIntoPlace(a: array<Habit>, i: nat, ghost p: nat)
    requires p <= i < a.Length
    requires forall k :: 0 <= k < p ==> !a[k].completed
    requires forall k :: p <= k < i ==> a[k].completed
    modifies a
    ensures Shifted(old(a[..]), a[..], i, p)
  {
    var x := a[i];
    var j := i;
    while j > 0 && Compare(a[j - 1], x) > 0
      invariant p <= j <= i
      invariant x.completed ==> j == i
      invariant forall k :: 0 <= k < j ==> a[k] == old(a[k])
      invariant forall k :: j < k <= i ==> a[k] == old(a[k - 1])
      invariant forall k :: i < k < a.Length ==> a[k] == old(a[k])
    {
      a[j] := a[j - 1];
      j := j - 1;
    }
    a[j] := x;
  }

  /** The first `i` steps leave the active habits in front of the completed ones. */
  lemma SortedUpToGroups(r: seq<Habit>, s: seq<Habit>, i: nat)
    requires SortedUpTo(r, s, i)
    ensures forall k :: 0 <= k < |Active(s[..i])| ==> !r[k].completed
    ensures forall k :: |Active(s[..i])| <= k < i ==> r[k].completed
  {
  }

  /** One more step of the sort extends the sorted prefix by one habit. */
  lemma SortedUpToStep(before: seq<Habit>, after: seq<Habit>, s: seq<Habit>, i: nat)
    requires SortedUpTo(before, s, i) && i < |s|
    requires Shifted(before, after, i, |Active(s[..i])|)
    ensures SortedUpTo(after, s, i + 1)
  {
    var act, com := Active(s[..i]), Completed(s[..i]);
    FiltersOfLongerPrefix(s, i);
    if s[i].completed {
      assert Active(s[..i + 1]) == act;
      assert Completed(s[..i + 1]) == com + [s[i]];
    } else {
      assert Active(s[..i + 1]) == act + [s[i]];
      assert Completed(s[..i + 1]) == com;
    }
  }

  /** A sequence that agrees with `p + q` position by position is `p + q`. */
  lemma PointwiseConcat<T>(r: seq<T>, p: seq<T>, q: seq<T>)
    requires |r| == |p| + |q|
    requires forall k :: 0 <= k < |p| ==> r[k] == p[k]
    requires forall k :: |p| <= k < |r| ==> r[k] == q[k - |p|]
    ensures r == p + q
  {
  }

  /** Sorts `a` in place: every habit is taken in turn and moved in front of
      the sorted habits it sorts before, without passing any it sorts with. */
  method SortByCompletedInPlace(a: array<Habit>)
    modifies a
    ensures a[..] == SortByCompleted(old(a[..]))
  {
    ghost var s := a[..];
    assert s[..0] == [];
    var i := 0;
    while i < a.Length
      invariant 0 <= i <= a.Length
      invariant SortedUpTo(a[..], s, i)
    {
      ghost var before := a[..];
      SortedUpToGroups(before, s, i);
      ShiftIntoPlace(a, i, |Active(s[..i])|);
      SortedUpToStep(before, a[..], s, i);
      i := i + 1;
    }
    assert s[..i] == s;
    PointwiseConcat(a[..], Active(s), Completed(s));
    SortIsStablePartition(s);
  }
}
