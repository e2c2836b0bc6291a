/** Two index spaces meet in src/App.js: the rows on screen are
    `activeHabits.map((habit, index) => ...)`, so the `index` a row hands to
    `toggleDay` and the indices the drag-and-drop layer hands to `onDragEnd`
    count positions in the ACTIVE list, while both handlers index the FULL
    `habits` list. This module says when the two agree, which handlers keep
    that condition, and what happens when it fails. */
module IndexSpace {
  import opened Habits
  import opened Splice
  import opened HabitList

  /** The position in the full list of the `i`-th active habit. */
  function ActivePosition(hs: seq<Habit>, i: nat): (k: nat)
    requires i < |Active(hs)|
    ensures k < |hs| && !hs[k].completed
    ensures |Active(hs[..k])| == i && Active(hs)[i] == hs[k]
    decreases |hs|
  {
    var t := hs[1..];
    assert hs == [hs[0]] + t;
    if !hs[0].completed && i == 0 then
      assert hs[..0] == [];
      0
    else
      var j := if hs[0].completed then i else i - 1;
      var k' := ActivePosition(t, j);
      assert hs[..k' + 1] == [hs[0]] + t[..k'];
      k' + 1
  }

  /** Splitting the filters around position `k`. */
  lemma FiltersAround(hs: seq<Habit>, k: nat)
    requires k < |hs|
    ensures Active(hs) == Active(hs[..k]) + Active([hs[k]]) + Active(hs[k + 1..])
    ensures Completed(hs) == Completed(hs[..k]) + Completed([hs[k]]) + Completed(hs[k + 1..])
  {
    var p, x, q := hs[..k], [hs[k]], hs[k + 1..];
    SplitAround(hs, k);
    calc {
      Active(hs);
      { ActiveAppend(p + x, q); }
      Active(p + x) + Active(q);
      { ActiveAppend(p, x); }
      Active(p) + Active(x) + Active(q);
    }
    calc {
      Completed(hs);
      { CompletedAppend(p + x, q); }
      Completed(p + x) + Completed(q);
      { CompletedAppend(p, x); }
      Completed(p) + Completed(x) + Completed(q);
    }
  }

  lemma {:induction false} NoActiveMeansAllCompleted(hs: seq<Habit>)
    requires Active(hs) == []
    ensures forall k :: 0 <= k < |hs| ==> hs[k].completed
  {
    if hs != [] {
      assert hs == [hs[0]] + hs[1..];
      NoActiveMeansAllCompleted(hs[1..]);
      assert forall k :: 1 <= k < |hs| ==> hs[k] == hs[1..][k - 1];
    }
  }

  /** The index of a shown row and the index into the full list denote the
      same habit, for every row, exactly when the list is partitioned. */
  lemma PartitionedIffIndicesAgree(hs: seq<Habit>)
    ensures Partitioned(hs) <==> hs[..|Active(hs)|] == Active(hs)
  {
    var a := Active(hs);
    PartitionedIsConcat(hs);
    if hs[..|a|] == a {
      var rest := hs[|a|..];
      assert hs == a + rest;
      ActiveAppend(a, rest);
      AllActiveFilters(a);
      assert Active(rest) == [];
      NoActiveMeansAllCompleted(rest);
      ConcatIsPartitioned(a, rest);
    }
    if Partitioned(hs) {
      assert hs == a + Completed(hs);
      assert hs[..|a|] == a;
    }
  }

  /** On a partitioned list the `i`-th shown row is at position `i`. */
  lemma PartitionedActivePosition(hs: seq<Habit>, i: nat)
    requires Partitioned(hs) && i < |Active(hs)|
    ensures ActivePosition(hs, i) == i
  {
    var k := ActivePosition(hs, i);
    var a := Active(hs);
    PartitionedIffIndicesAgree(hs);
    PartitionedIsConcat(hs);
    assert forall j :: |a| <= j < |hs| ==> hs[j] == Completed(hs)[j - |a|];
    assert k < |a|;
    assert hs[..k] == a[..k];
    AllActiveFilters(a[..k]);
  }

  /** `toggleComplete` always leaves the list partitioned, so after it the
      indices of the shown rows are right again. */
  lemma ToggleCompleteRealignsIndices(hs: seq<Habit>, id: string)
    ensures var r := ToggleComplete(hs, id);
            Partitioned(r) && r[..|Active(r)|] == Active(r)
  {
    ToggleCompleteSpec(hs, id);
    PartitionedIffIndicesAgree(ToggleComplete(hs, id));
  }

  /** `toggleCompleted`, the "un-archive" button of the completed list, can
      leave a completed habit in front of an active one: from two completed
      habits, un-archiving the second one breaks the partition. */
  lemma ToggleCompletedBreaksPartition()
    ensures var hs := [Habit("1", "Read", true, FirstDaysDone(0)), Habit("2", "Run", true, FirstDaysDone(0))];
            && Partitioned(hs)
            && !Partitioned(FlipCompleted(hs, "2"))
  {
    var hs := [Habit("1", "Read", true, FirstDaysDone(0)), Habit("2", "Run", true, FirstDaysDone(0))];
    var r := FlipCompleted(hs, "2");
    assert r[0].completed && !r[1].completed;
  }

  /** A drag whose two indices fall among the active habits of a
      partitioned list keeps the list partitioned, and moves the shown rows
      exactly as the drag did on screen. */
  lemma DragWithinActiveKeepsPartition(hs: seq<Habit>, source: nat, destination: nat)
    requires Partitioned(hs)
    requires source < |Active(hs)| && destination < |Active(hs)|
    ensures Partitioned(DragEnd(hs, source, Some(destination)))
    ensures Active(DragEnd(hs, source, Some(destination))) == Move(Active(hs), source, destination)
  {
    var a, c := Active(hs), Completed(hs);
    PartitionedIsConcat(hs);
    MoveWithinPrefix(a, c, source, destination);
    var m := Move(a, source, destination);
    MoveIsPermutation(a, source, destination);
    forall k | 0 <= k < |m| ensures !m[k].completed {
      assert multiset(m)[m[k]] > 0;
      assert m[k] in a;
    }
    ConcatIsPartitioned(m, c);
  }

  // ---------------------------------------------------------------------
  // What the user sees when the list is not partitioned

  /** The list `toggleCompleted` leaves in `ToggleCompletedBreaksPartition`. */
  function Unpartitioned(): seq<Habit> {
    [Habit("1", "Read", true, FirstDaysDone(0)), Habit("2", "Run", false, FirstDaysDone(0))]
  }

  /** As written: the only row on screen is "Run" (active index 0), but
      clicking its Monday button flips Monday of the archived "Read", and the
      row on screen stays as it was. */
  lemma ShownDayToggleHitsOtherHabit()
    ensures Unpartitioned() == FlipCompleted([Habit("1", "Read", true, FirstDaysDone(0)), Habit("2", "Run", true, FirstDaysDone(0))], "2")
    ensures Active(Unpartitioned()) == [Unpartitioned()[1]]
    ensures var r := FlipDay(Unpartitioned(), 0, 0);
            && Active(r) == Active(Unpartitioned())
            && r[0].name == "Read" && r[0].weekProgress[0]
  {
    var hs := Unpartitioned();
    var r0 := FlipCompleted([Habit("1", "Read", true, FirstDaysDone(0)), Habit("2", "Run", true, FirstDaysDone(0))], "2");
    assert r0[0] == hs[0] && r0[1] == hs[1];
    assert Active(hs) == Active([hs[1]]);
    var r := FlipDay(hs, 0, 0);
    assert r == [r[0], hs[1]];
    assert Active(r) == Active([hs[1]]);
  }

  /** Corrected: the day toggle that finds the shown row's habit in the full
      list first. */
  function ToggleShownDay(hs: seq<Habit>, index: nat, day: nat): (r: seq<Habit>)
    requires index < |Active(hs)| && day < |Active(hs)[index].weekProgress|
    ensures |r| == |hs|
  {
    FlipDay(hs, ActivePosition(hs, index), day)
  }

  /** The corrected toggle flips the day of the habit in the shown row and
      of no other habit, and on a partitioned list it is `toggleDay` itself. */
  lemma ToggleShownDayFlipsShownHabit(hs: seq<Habit>, index: nat, day: nat)
    requires index < |Active(hs)| && day < |Active(hs)[index].weekProgress|
    ensures var a := Active(hs);
            Active(ToggleShownDay(hs, index, day)) == a[index := FlipDayOf(a[index], day)]
    ensures Completed(ToggleShownDay(hs, index, day)) == Completed(hs)
    ensures Partitioned(hs) ==>
      && index < |hs| && hs[index] == Active(hs)[index]
      && ToggleShownDay(hs, index, day) == FlipDay(hs, index, day)
  {
    var k := ActivePosition(hs, index);
    var y := FlipDayOf(hs[k], day);
    var r := ToggleShownDay(hs, index, day);
    FiltersAround(hs, k);
    FiltersAround(r, k);
    assert r == hs[k := y];
    UpdateOutside(hs, k, y);
    assert Active([y]) == [y] && Active([hs[k]]) == [hs[k]];
    assert Completed([y]) == [] && Completed([hs[k]]) == [];
    UpdateMiddle(Active(hs[..k]), hs[k], Active(hs[k + 1..]), y);
    if Partitioned(hs) {
      PartitionedActivePosition(hs, index);
    }
  }

  /** As written: behind an archived habit `x`, the rows on screen are `a`
      and `b`; dragging row 0 below row 1 moves `x` instead, and the rows on
      screen keep their order. */
  lemma ShownDragMovesOtherHabit(x: Habit, a: Habit, b: Habit)
    requires x.completed && !a.completed && !b.completed && a != b
    ensures Active([x, a, b]) == [a, b]
    ensures DragEnd([x, a, b], 0, Some(1)) == [a, x, b]
    ensures Active(DragEnd([x, a, b], 0, Some(1))) == [a, b]
    ensures Move(Active([x, a, b]), 0, 1) == [b, a] != [a, b]
  {
    assert Active([x, a, b]) == Active([a, b]) == [a] + Active([b]) && Active([b]) == [b];
    MoveFirstDown(x, a, b);
    MoveFirstDown(a, b, x);
    assert Active([a, x, b]) == [a] + Active([x, b]) && Active([x, b]) == Active([b]);
  }

  /** Corrected: the drag that reorders the shown rows and keeps the
      archived habits after them. */
  function DragShown(hs: seq<Habit>, source: nat, destination: Option<nat>): (r: seq<Habit>)
    requires destination.Some? ==> source < |Active(hs)|
    ensures |r| == |hs|
  {
    PartitionIsPermutation(hs);
    match destination
    case None => hs
    case Some(d) => Move(Active(hs), source, d) + Completed(hs)
  }

  /** The corrected drag moves the shown rows exactly as on screen, leaves
      the archived habits as they were, keeps every habit, leaves the list
      partitioned, and on a partitioned list it is `onDragEnd` itself. */
  lemma DragShownMovesShownRows(hs: seq<Habit>, source: nat, destination: nat)
    requires source < |Active(hs)|
    ensures var r := DragShown(hs, source, Some(destination));
            && Active(r) == Move(Active(hs), source, destination)
            && Completed(r) == Completed(hs)
            && multiset(r) == multiset(hs)
            && Partitioned(r)
    ensures Partitioned(hs) && destination < |Active(hs)| ==>
            DragShown(hs, source, Some(destination)) == DragEnd(hs, source, Some(destination))
  {
    var a, c := Active(hs), Completed(hs);
    var m := Move(a, source, destination);
    MoveIsPermutation(a, source, destination);
    forall k | 0 <= k < |m| ensures !m[k].completed {
      assert multiset(m)[m[k]] > 0;
      assert m[k] in a;
    }
    ConcatIsPartitioned(m, c);
    PartitionedIsConcat(m + c);
    PartitionIsPermutation(hs);
    AllActiveFilters(m);
    AllCompletedFilters(c);
    ActiveAppend(m, c);
    CompletedAppend(m, c);
    if Partitioned(hs) && destination < |a| {
      PartitionedIsConcat(hs);
      MoveWithinPrefix(a, c, source, destination);
    }
  }

  lemma DragShownKeepsWellFormed(hs: seq<Habit>, source: nat, destination: Option<nat>)
    requires WellFormed(hs)
    requires destination.Some? ==> source < |Active(hs)|
    ensures WellFormed(DragShown(hs, source, destination))
  {
    if destination.Some? {
      var a, c := Active(hs), Completed(hs);
      var m := Move(a, source, destination.value);
      var r := DragShown(hs, source, destination);
      IdsMove(a, source, destination.value);
      IdsAppend(m, c);
      PartitionIds(hs);
      assert multiset(Ids(r)) == multiset(Ids(hs));
      DragShownMovesShownRows(hs, source, destination.value);
      forall h | h in r ensures h in hs {
        assert multiset(r)[h] > 0;
      }
      PermutationKeepsWellFormed(hs, r);
    }
  }
}
