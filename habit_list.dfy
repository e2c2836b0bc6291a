/** The handlers of the `App` component as transformations of the ordered
    habit list (src/App.js): each takes the current list and gives the list
    `setHabits` receives. None of them changes its input. */
module HabitList {
  import opened Habits
  import opened Splice
  import opened JsString

  // ---------------------------------------------------------------------
  // Identity and the list invariant

  /** The ids of the habits, in list order. */
  function Ids(hs: seq<Habit>): (ids: seq<string>)
    ensures |ids| == |hs|
    ensures forall k :: 0 <= k < |hs| ==> ids[k] == hs[k].id
  {
    seq(|hs|, k requires 0 <= k < |hs| => hs[k].id)
  }

  /** No id occurs twice in the list. */
  ghost predicate DistinctIds(hs: seq<Habit>) {
    forall id :: multiset(Ids(hs))[id] <= 1
  }

  /** What every handler keeps: seven day slots per habit, and unique ids. */
  ghost predicate WellFormed(hs: seq<Habit>) {
    && (forall h :: h in hs ==> |h.weekProgress| == DaysPerWeek)
    && DistinctIds(hs)
  }

  lemma IdsAppend(a: seq<Habit>, b: seq<Habit>)
    ensures Ids(a + b) == Ids(a) + Ids(b)
  {
    assert forall k :: 0 <= k < |a + b| ==> Ids(a + b)[k] == (Ids(a) + Ids(b))[k];
  }

  /** Two lists with the same ids position by position keep the invariant together. */
  lemma SameIdsKeepWellFormed(hs: seq<Habit>, r: seq<Habit>)
    requires WellFormed(hs) && |r| == |hs|
    requires forall k :: 0 <= k < |hs| ==> r[k].id == hs[k].id && |r[k].weekProgress| == |hs[k].weekProgress|
    ensures WellFormed(r)
  {
    assert Ids(r) == Ids(hs);
    forall h | h in r ensures |h.weekProgress| == DaysPerWeek {
      var k :| 0 <= k < |r| && r[k] == h;
      assert hs[k] in hs;
    }
  }

  /** A rearrangement of the habits keeps the invariant. */
  lemma PermutationKeepsWellFormed(hs: seq<Habit>, r: seq<Habit>)
    requires WellFormed(hs)
    requires multiset(Ids(r)) == multiset(Ids(hs))
    requires forall h :: h in r ==> h in hs
    ensures WellFormed(r)
  {
  }

  // ---------------------------------------------------------------------
  // The active / completed split (`activeHabits`, `completedHabits`, `deleteCompleted`)

  /** `habits.filter(habit => !habit.completed)`. */
  function Active(hs: seq<Habit>): (r: seq<Habit>)
    ensures |r| <= |hs|
    ensures forall k :: 0 <= k < |r| ==> !r[k].completed
  {
    if hs == [] then [] else (if hs[0].completed then [] else [hs[0]]) + Active(hs[1..])
  }

  /** `habits.filter(habit => habit.completed)`. */
  function Completed(hs: seq<Habit>): (r: seq<Habit>)
    ensures |r| <= |hs|
    ensures forall k :: 0 <= k < |r| ==> r[k].completed
  {
    if hs == [] then [] else (if hs[0].completed then [hs[0]] else []) + Completed(hs[1..])
  }

  /** Each filter holds every habit it keeps exactly as often as the list does. */
  lemma {:induction false} FilterCounts(hs: seq<Habit>)
    ensures forall h :: multiset(Active(hs))[h] == if h.completed then 0 else multiset(hs)[h]
    ensures forall h :: multiset(Completed(hs))[h] == if h.completed then multiset(hs)[h] else 0
  {
    if hs != [] {
      FilterCounts(hs[1..]);
      assert hs == [hs[0]] + hs[1..];
    }
  }

  /** `a` is `b` with some elements left out (order kept). */
  ghost predicate IsSubsequence<T>(a: seq<T>, b: seq<T>)
    decreases |b|
  {
    if a == [] then true
    else if b == [] then false
    else (a[0] == b[0] && IsSubsequence(a[1..], b[1..])) || IsSubsequence(a, b[1..])
  }

  /** The filters keep the original order of what they keep. */
  lemma {:induction false} FiltersKeepOrder(hs: seq<Habit>)
    ensures IsSubsequence(Active(hs), hs)
    ensures IsSubsequence(Completed(hs), hs)
  {
    if hs != [] {
      FiltersKeepOrder(hs[1..]);
      var a, c := Active(hs[1..]), Completed(hs[1..]);
      if hs[0].completed {
        assert Active(hs) == a;
        assert Completed(hs) == [hs[0]] + c;
        var x := Completed(hs);
        assert x[0] == hs[0] && x[1..] == c;
        assert IsSubsequence(x, hs);
        SubsequenceOfTail(a, hs);
      } else {
        assert Active(hs) == [hs[0]] + a;
        var x := Active(hs);
        assert x[0] == hs[0] && x[1..] == a;
        assert IsSubsequence(x, hs);
        assert Completed(hs) == c;
        SubsequenceOfTail(c, hs);
      }
    }
  }

  lemma SubsequenceOfTail<T>(a: seq<T>, b: seq<T>)
    requires b != [] && IsSubsequence(a, b[1..])
    ensures IsSubsequence(a, b)
  {
  }

  /** Both filters of `[x] + t`: `x` goes to the filter of its group. */
  lemma FiltersCons(x: Habit, t: seq<Habit>)
    ensures Active([x] + t) == (if x.completed then [] else [x]) + Active(t)
    ensures Completed([x] + t) == (if x.completed then [x] else []) + Completed(t)
  {
    ConsParts(x, t);
  }

  lemma {:induction false} ActiveAppend(a: seq<Habit>, b: seq<Habit>)
    ensures Active(a + b) == Active(a) + Active(b)
  {
    if a == [] {
      assert a + b == b;
    } else {
      var y, t := a[0], a[1..];
      ActiveAppend(t, b);
      HeadTail(a);
      ConsAssoc([y], t, b);
      FiltersCons(y, t);
      FiltersCons(y, t + b);
      var x := if y.completed then [] else [y];
      calc {
        Active(a + b);
        Active([y] + (t + b));
        x + Active(t + b);
        x + (Active(t) + Active(b));
        { ConsAssoc(x, Active(t), Active(b)); }
        (x + Active(t)) + Active(b);
        Active(a) + Active(b);
      }
    }
  }

  lemma {:induction false} CompletedAppend(a: seq<Habit>, b: seq<Habit>)
    ensures Completed(a + b) == Completed(a) + Completed(b)
  {
    if a == [] {
      assert a + b == b;
    } else {
      var y, t := a[0], a[1..];
      CompletedAppend(t, b);
      HeadTail(a);
      ConsAssoc([y], t, b);
      FiltersCons(y, t);
      FiltersCons(y, t + b);
      var x := if y.completed then [y] else [];
      calc {
        Completed(a + b);
        Completed([y] + (t + b));
        x + Completed(t + b);
        x + (Completed(t) + Completed(b));
        { ConsAssoc(x, Completed(t), Completed(b)); }
        (x + Completed(t)) + Completed(b);
        Completed(a) + Completed(b);
      }
    }
  }

  /** A list that holds only active habits is its own active part. */
  lemma {:induction false} AllActiveFilters(hs: seq<Habit>)
    requires forall k :: 0 <= k < |hs| ==> !hs[k].completed
    ensures Active(hs) == hs && Completed(hs) == []
  {
    if hs != [] {
      AllActiveFilters(hs[1..]);
    }
  }

  /** A list that holds only completed habits is its own completed part. */
  lemma {:induction false} AllCompletedFilters(hs: seq<Habit>)
    requires forall k :: 0 <= k < |hs| ==> hs[k].completed
    ensures Active(hs) == [] && Completed(hs) == hs
  {
    if hs != [] {
      AllCompletedFilters(hs[1..]);
    }
  }

  /** `activeHabits` and `completedHabits` split the list: together they hold
      every habit exactly as often as the list does. */
  lemma PartitionIsPermutation(hs: seq<Habit>)
    ensures multiset(Active(hs) + Completed(hs)) == multiset(hs)
    ensures |Active(hs)| + |Completed(hs)| == |hs|
  {
    FilterCounts(hs);
    var m := multiset(Active(hs) + Completed(hs));
    assert m == multiset(Active(hs)) + multiset(Completed(hs));
    assert forall h :: m[h] == multiset(hs)[h];
    assert m == multiset(hs);
    assert |m| == |multiset(hs)|;
  }

  lemma {:induction false} PartitionIds(hs: seq<Habit>)
    ensures multiset(Ids(Active(hs))) + multiset(Ids(Completed(hs))) == multiset(Ids(hs))
  {
    if hs != [] {
      var y, t := hs[0], hs[1..];
      var x := [y];
      PartitionIds(t);
      HeadTail(hs);
      FiltersCons(y, t);
      IdsAppend(x, t);
      if y.completed {
        assert Active(hs) == Active(t);
        IdsAppend(x, Completed(t));
      } else {
        assert Completed(hs) == Completed(t);
        IdsAppend(x, Active(t));
      }
    }
  }

  /** `deleteCompleted` keeps exactly the active habits, in their order, and
      keeps the invariant. */
  lemma DeleteCompletedKeeps(hs: seq<Habit>)
    requires WellFormed(hs)
    ensures WellFormed(Active(hs))
    ensures forall k :: 0 <= k < |Active(hs)| ==> !Active(hs)[k].completed
    ensures IsSubsequence(Active(hs), hs)
    ensures forall h :: multiset(Active(hs))[h] == if h.completed then 0 else multiset(hs)[h]
  {
    var a := Active(hs);
    FiltersKeepOrder(hs);
    FilterCounts(hs);
    forall h | h in a ensures |h.weekProgress| == DaysPerWeek {
      assert multiset(a)[h] > 0;
      assert h in hs;
    }
    PartitionIds(hs);
    forall id ensures multiset(Ids(a))[id] <= 1 {
      assert multiset(Ids(a))[id] <= multiset(Ids(hs))[id];
    }
  }

  /** Deleting the completed habits a second time changes nothing. */
  lemma DeleteCompletedIdempotent(hs: seq<Habit>)
    ensures Active(Active(hs)) == Active(hs)
  {
    AllActiveFilters(Active(hs));
  }

  // ---------------------------------------------------------------------
  // `toggleDay`

  /** The list `toggleDay(index, dayIndex)` builds: the habit at `index` with
      day `dayIndex` of its week negated, every other habit as it was. */
  function FlipDay(hs: seq<Habit>, index: nat, day: nat): (r: seq<Habit>)
    requires index < |hs| && day < |hs[index].weekProgress|
    ensures |r| == |hs| && r[index] == FlipDayOf(hs[index], day)
    ensures forall k :: 0 <= k < |hs| && k != index ==> r[k] == hs[k]
  {
    hs[index := FlipDayOf(hs[index], day)]
  }

  /** Toggling the same day of the same habit twice restores the list. */
  lemma FlipDayTwice(hs: seq<Habit>, index: nat, day: nat)
    requires index < |hs| && day < |hs[index].weekProgress|
    ensures FlipDay(FlipDay(hs, index, day), index, day) == hs
  {
    FlipDayOfTwice(hs[index], day);
    var r := FlipDay(FlipDay(hs, index, day), index, day);
    assert forall k :: 0 <= k < |hs| ==> r[k] == hs[k];
  }

  lemma FlipDayKeepsWellFormed(hs: seq<Habit>, index: nat, day: nat)
    requires WellFormed(hs)
    requires index < |hs| && day < |hs[index].weekProgress|
    ensures WellFormed(FlipDay(hs, index, day))
  {
    SameIdsKeepWellFormed(hs, FlipDay(hs, index, day));
  }

  // ---------------------------------------------------------------------
  // `toggleComplete`, `toggleCompleted`

  /** The `completed` flag of `h` negated when its id is `id`. */
  function FlipIfMatches(h: Habit, id: string): (r: Habit)
    ensures r.id == h.id && r.name == h.name && r.weekProgress == h.weekProgress
    ensures r.completed == (if h.id == id then !h.completed else h.completed)
  {
    if h.id == id then h.(completed := !h.completed) else h
  }

  /** `habits.map(habit => habit.id === id ? { ...habit, completed: !habit.completed } : habit)`,
      the list `toggleCompleted` stores and `toggleComplete` sorts: every
      habit stays where it is, only the flags of the habits with that id flip. */
  function FlipCompleted(hs: seq<Habit>, id: string): (r: seq<Habit>)
    ensures |r| == |hs|
    ensures forall k :: 0 <= k < |hs| ==>
      && r[k].id == hs[k].id && r[k].name == hs[k].name && r[k].weekProgress == hs[k].weekProgress
      && (r[k].completed != hs[k].completed <==> hs[k].id == id)
  {
    if hs == [] then [] else [FlipIfMatches(hs[0], id)] + FlipCompleted(hs[1..], id)
  }

  /** Flipping the same id twice restores the list. */
  lemma FlipCompletedTwice(hs: seq<Habit>, id: string)
    ensures FlipCompleted(FlipCompleted(hs, id), id) == hs
  {
    var r := FlipCompleted(FlipCompleted(hs, id), id);
    assert forall k :: 0 <= k < |hs| ==> r[k] == hs[k];
  }

  lemma FlipCompletedKeepsWellFormed(hs: seq<Habit>, id: string)
    requires WellFormed(hs)
    ensures WellFormed(FlipCompleted(hs, id))
  {
    SameIdsKeepWellFormed(hs, FlipCompleted(hs, id));
  }

  /** The number the comparator `(a, b) => a.completed - b.completed` works
      with: `false` counts 0, `true` counts 1. */
  function Key(h: Habit): int {
    if h.completed then 1 else 0
  }

  /** The comparator `(a, b) => a.completed - b.completed`: negative, zero
      or positive as `p` sorts before, together with or after `q`. */
  function Compare(p: Habit, q: Habit): (c: int)
    ensures c > 0 <==> p.completed && !q.completed
    ensures c < 0 <==> !p.completed && q.completed
  {
    Key(p) - Key(q)
  }

  /** Inserting `x` in front of the first element that does not sort before it. */
  function InsertByCompleted(x: Habit, s: seq<Habit>): (r: seq<Habit>)
  {
    if s == [] || Compare(x, s[0]) <= 0 then [x] + s
    else [s[0]] + InsertByCompleted(x, s[1..])
  }

  /** `updatedHabits.sort((a, b) => a.completed - b.completed)`: a stable
      sort (section 23.1.3.30 of ECMA-262 2024), written as an insertion sort
      that puts each habit in front of every later one it does not sort after. */
  function SortByCompleted(s: seq<Habit>): (r: seq<Habit>)
  {
    if s == [] then [] else InsertByCompleted(s[0], SortByCompleted(s[1..]))
  }

  /** No completed habit stands before an active one. */
  ghost predicate Partitioned(hs: seq<Habit>) {
    forall i, j :: 0 <= i < j < |hs| && hs[i].completed ==> hs[j].completed
  }

  lemma {:induction false} InsertCompletedAfterActive(x: Habit, a: seq<Habit>, c: seq<Habit>)
    requires x.completed
    requires forall k :: 0 <= k < |a| ==> !a[k].completed
    requires forall k :: 0 <= k < |c| ==> c[k].completed
    ensures InsertByCompleted(x, a + c) == a + [x] + c
  {
    if a != [] {
      assert (a + c)[0] == a[0];
      assert (a + c)[1..] == a[1..] + c;
      InsertCompletedAfterActive(x, a[1..], c);
    }
  }

  /** The stable sort puts the active habits first and the completed ones
      after them, each group in its original order. */
  lemma {:induction false} SortIsStablePartition(s: seq<Habit>)
    ensures SortByCompleted(s) == Active(s) + Completed(s)
  {
    if s != [] {
      var t := s[1..];
      SortIsStablePartition(t);
      assert s == [s[0]] + t;
      if s[0].completed {
        SortConsCompleted(s[0], t);
      } else {
        SortConsActive(s[0], t);
      }
    }
  }

  lemma SortConsCompleted(x: Habit, t: seq<Habit>)
    requires x.completed
    requires SortByCompleted(t) == Active(t) + Completed(t)
    ensures SortByCompleted([x] + t) == Active([x] + t) + Completed([x] + t)
  {
    ConsParts(x, t);
    FiltersCons(x, t);
    var a, c := Active(t), Completed(t);
    calc {
      SortByCompleted([x] + t);
      InsertByCompleted(x, a + c);
      { InsertCompletedAfterActive(x, a, c); }
      a + [x] + c;
      { ConsAssoc(a, [x], c); }
      a + ([x] + c);
      Active([x] + t) + Completed([x] + t);
    }
  }

  /** An active habit is inserted in front of everything. */
  lemma InsertActiveInFront(x: Habit, s: seq<Habit>)
    requires !x.completed
    ensures InsertByCompleted(x, s) == [x] + s
  {
    if s != [] {
      assert Compare(x, s[0]) <= 0;
    }
  }

  lemma SortConsActive(x: Habit, t: seq<Habit>)
    requires !x.completed
    requires SortByCompleted(t) == Active(t) + Completed(t)
    ensures SortByCompleted([x] + t) == Active([x] + t) + Completed([x] + t)
  {
    ConsParts(x, t);
    FiltersCons(x, t);
    var a, c := Active(t), Completed(t);
    calc {
      SortByCompleted([x] + t);
      InsertByCompleted(x, a + c);
      { InsertActiveInFront(x, a + c); }
      [x] + (a + c);
      { ConsAssoc([x], a, c); }
      ([x] + a) + c;
      Active([x] + t) + Completed([x] + t);
    }
  }

  /** Active habits followed by completed ones form a partitioned list
      whose filters give back the two parts. */
  lemma ConcatIsPartitioned(a: seq<Habit>, c: seq<Habit>)
    requires forall k :: 0 <= k < |a| ==> !a[k].completed
    requires forall k :: 0 <= k < |c| ==> c[k].completed
    ensures Partitioned(a + c)
    ensures Active(a + c) == a && Completed(a + c) == c
  {
    var r := a + c;
    assert forall i :: 0 <= i < |r| ==> (r[i].completed <==> i >= |a|) by {
      assert forall i :: 0 <= i < |a| ==> r[i] == a[i];
      assert forall i :: |a| <= i < |r| ==> r[i] == c[i - |a|];
    }
    ActiveAppend(a, c);
    CompletedAppend(a, c);
    AllActiveFilters(a);
    AllCompletedFilters(c);
  }

  /** A list is partitioned exactly when it is its active part followed by
      its completed part. */
  lemma {:induction false} PartitionedIsConcat(hs: seq<Habit>)
    ensures Partitioned(hs) <==> hs == Active(hs) + Completed(hs)
  {
    if Partitioned(hs) && hs != [] {
      var t := hs[1..];
      assert Partitioned(t);
      PartitionedIsConcat(t);
      PartitionedCons(hs[0], t);
    }
    if hs == Active(hs) + Completed(hs) {
      ConcatIsPartitioned(Active(hs), Completed(hs));
    }
  }

  /** The step of `PartitionedIsConcat`: a partitioned list `[x] + t` whose
      tail is its active part followed by its completed part is too. */
  lemma PartitionedCons(x: Habit, t: seq<Habit>)
    requires Partitioned([x] + t)
    requires t == Active(t) + Completed(t)
    ensures [x] + t == Active([x] + t) + Completed([x] + t)
  {
    if x.completed {
      PartitionedFromCompleted([x] + t);
    } else {
      FiltersCons(x, t);
      ConsAssoc([x], Active(t), Completed(t));
    }
  }

  /** A partitioned list that starts with a completed habit holds only completed habits. */
  lemma PartitionedFromCompleted(hs: seq<Habit>)
    requires Partitioned(hs) && hs != [] && hs[0].completed
    ensures hs == Active(hs) + Completed(hs)
  {
    assert forall k :: 0 <= k < |hs| ==> hs[k].completed by {
      assert forall k :: 0 < k < |hs| ==> hs[0].completed ==> hs[k].completed;
    }
    AllCompletedFilters(hs);
  }

  /** Any sort of a list that is stable and puts the active habits first is
      the one `SortByCompleted` gives: the result does not depend on which
      stable sort is used. */
  lemma StableSortIsUnique(s: seq<Habit>, r: seq<Habit>)
    requires Partitioned(r)
    requires Active(r) == Active(s) && Completed(r) == Completed(s)
    ensures r == SortByCompleted(s)
  {
    PartitionedIsConcat(r);
    SortIsStablePartition(s);
  }

  /** The list `toggleComplete(id)` stores. */
  function ToggleComplete(hs: seq<Habit>, id: string): (r: seq<Habit>)
  {
    SortByCompleted(FlipCompleted(hs, id))
  }

  /** `toggleComplete`: the flags of the habits with that id flip; then the
      list is rearranged so that no completed habit precedes an active one,
      and each group keeps its order. */
  lemma ToggleCompleteSpec(hs: seq<Habit>, id: string)
    ensures var m := FlipCompleted(hs, id);
            var r := ToggleComplete(hs, id);
            && multiset(r) == multiset(m)
            && Partitioned(r)
            && Active(r) == Active(m)
            && Completed(r) == Completed(m)
  {
    var m := FlipCompleted(hs, id);
    SortIsStablePartition(m);
    PartitionIsPermutation(m);
    ConcatIsPartitioned(Active(m), Completed(m));
  }

  lemma ToggleCompleteKeepsWellFormed(hs: seq<Habit>, id: string)
    requires WellFormed(hs)
    ensures WellFormed(ToggleComplete(hs, id))
  {
    var m := FlipCompleted(hs, id);
    var r := ToggleComplete(hs, id);
    FlipCompletedKeepsWellFormed(hs, id);
    SortIsStablePartition(m);
    assert r == Active(m) + Completed(m);
    IdsAppend(Active(m), Completed(m));
    PartitionIds(m);
    assert multiset(Ids(r)) == multiset(Ids(m));
    PartitionIsPermutation(m);
    forall h | h in r ensures h in m {
      assert multiset(r)[h] > 0;
    }
    PermutationKeepsWellFormed(m, r);
  }

  lemma {:induction false} FlipCompletedAppend(a: seq<Habit>, b: seq<Habit>, id: string)
    ensures FlipCompleted(a + b, id) == FlipCompleted(a, id) + FlipCompleted(b, id)
  {
    var l, r := FlipCompleted(a + b, id), FlipCompleted(a, id) + FlipCompleted(b, id);
    assert forall k :: 0 <= k < |l| ==> l[k] == r[k] by {
      assert forall k :: 0 <= k < |a| ==> (a + b)[k] == a[k];
      assert forall k :: |a| <= k < |a + b| ==> (a + b)[k] == b[k - |a|];
    }
  }

  lemma {:induction false} FlipCompletedOfPartition(s: seq<Habit>, id: string)
    ensures multiset(FlipCompleted(Active(s), id)) + multiset(FlipCompleted(Completed(s), id))
         == multiset(FlipCompleted(s, id))
  {
    if s != [] {
      var y, t := s[0], s[1..];
      var x := [y];
      FlipCompletedOfPartition(t, id);
      HeadTail(s);
      FiltersCons(y, t);
      FlipCompletedAppend(x, t, id);
      if y.completed {
        assert Active(s) == Active(t);
        FlipCompletedAppend(x, Completed(t), id);
      } else {
        assert Completed(s) == Completed(t);
        FlipCompletedAppend(x, Active(t), id);
      }
    }
  }

  /** Toggling the same habit twice gives back every habit with its original
      flag; only the order may differ. */
  lemma ToggleCompleteTwice(hs: seq<Habit>, id: string)
    ensures multiset(ToggleComplete(ToggleComplete(hs, id), id)) == multiset(hs)
  {
    var m := FlipCompleted(hs, id);
    var once := ToggleComplete(hs, id);
    var m2 := FlipCompleted(once, id);
    SortIsStablePartition(m);
    FlipCompletedAppend(Active(m), Completed(m), id);
    FlipCompletedOfPartition(m, id);
    FlipCompletedTwice(hs, id);
    SortIsStablePartition(m2);
    PartitionIsPermutation(m2);
    calc {
      multiset(ToggleComplete(once, id));
      multiset(m2);
      multiset(FlipCompleted(Active(m), id)) + multiset(FlipCompleted(Completed(m), id));
      multiset(FlipCompleted(m, id));
      multiset(hs);
    }
  }

  // ---------------------------------------------------------------------
  // `addHabit`

  /** The list `addHabit(name)` leaves: unchanged for a blank name, otherwise
      one new habit at the end. */
  function AddHabit(hs: seq<Habit>, name: string, freshId: string): (r: seq<Habit>)
    ensures IsBlank(name) ==> r == hs
    ensures !IsBlank(name) ==>
      && |r| == |hs| + 1 && r[..|hs|] == hs
      && r[|hs|].id == freshId && r[|hs|].name == name && !r[|hs|].completed
      && |r[|hs|].weekProgress| == DaysPerWeek
      && forall d :: 0 <= d < DaysPerWeek ==> !r[|hs|].weekProgress[d]
  {
    if Trim(name) == [] then hs else hs + [NewHabit(freshId, name)]
  }

  lemma AddHabitKeepsWellFormed(hs: seq<Habit>, name: string, freshId: string)
    requires WellFormed(hs)
    requires freshId !in Ids(hs)
    ensures WellFormed(AddHabit(hs, name, freshId))
  {
    if !IsBlank(name) {
      var n := NewHabit(freshId, name);
      var r := hs + [n];
      IdsAppend(hs, [n]);
      assert Ids([n]) == [freshId];
      assert multiset(Ids(r)) == multiset(Ids(hs)) + multiset{freshId};
      forall h | h in r ensures |h.weekProgress| == DaysPerWeek {
        if h != n {
          assert h in hs;
        }
      }
    }
  }

  // ---------------------------------------------------------------------
  // `saveTitle`

  /** `habits.map(habit => habit.id === id ? { ...habit, name: tempTitle } : habit)`:
      the habits with that id take the new name, whatever it is; nothing else changes. */
  function Rename(hs: seq<Habit>, id: string, title: string): (r: seq<Habit>)
    ensures |r| == |hs|
    ensures forall k :: 0 <= k < |hs| ==>
      && r[k].id == hs[k].id && r[k].completed == hs[k].completed
      && r[k].weekProgress == hs[k].weekProgress
      && r[k].name == (if hs[k].id == id then title else hs[k].name)
  {
    if hs == [] then []
    else [if hs[0].id == id then hs[0].(name := title) else hs[0]] + Rename(hs[1..], id, title)
  }

  /** Saving the same title twice is saving it once. */
  lemma RenameIdempotent(hs: seq<Habit>, id: string, title: string)
    ensures Rename(Rename(hs, id, title), id, title) == Rename(hs, id, title)
  {
    var r1 := Rename(hs, id, title);
    var r2 := Rename(r1, id, title);
    assert forall k :: 0 <= k < |hs| ==> r2[k] == r1[k];
  }

  lemma RenameKeepsWellFormed(hs: seq<Habit>, id: string, title: string)
    requires WellFormed(hs)
    ensures WellFormed(Rename(hs, id, title))
  {
    SameIdsKeepWellFormed(hs, Rename(hs, id, title));
  }

  /** `addHabit` never stores a blank name, but `saveTitle` does store one. */
  lemma BlankNamesOnlyByRename(hs: seq<Habit>, name: string, freshId: string)
    ensures |AddHabit(hs, name, freshId)| == |hs| + 1 <==> !IsBlank(name)
    ensures |AddHabit(hs, name, freshId)| == |hs| + 1 ==> !IsBlank(AddHabit(hs, name, freshId)[|hs|].name)
    ensures var r := Rename(hs + [NewHabit(freshId, name)], freshId, "");
            r[|hs|].name == "" && IsBlank(r[|hs|].name)
  {
  }

  // ---------------------------------------------------------------------
  // `onDragEnd`

  /** The list `onDragEnd({source, destination})` leaves: unchanged when the
      habit is dropped outside the list, otherwise the habit at `source`
      taken out and put back in at `destination`. */
  function DragEnd(hs: seq<Habit>, source: nat, destination: Option<nat>): (r: seq<Habit>)
    requires destination.Some? ==> source < |hs|
    ensures destination.None? ==> r == hs
    ensures destination.Some? ==>
      var to := ClampedStart(destination.value, |hs| - 1);
      && multiset(r) == multiset(hs)
      && |r| == |hs| && r[to] == hs[source]
      && RemoveAt(r, to) == RemoveAt(hs, source)
  {
    if destination.None? then hs
    else
      MoveIsPermutation(hs, source, destination.value);
      MovePlacement(hs, source, destination.value);
      Move(hs, source, destination.value)
  }

  /** Dragging the habit back where it was undoes a drag. */
  lemma DragEndUndo(hs: seq<Habit>, source: nat, destination: nat)
    requires source < |hs| && destination < |hs|
    ensures DragEnd(DragEnd(hs, source, Some(destination)), destination, Some(source)) == hs
  {
    MoveUndo(hs, source, destination);
  }

  lemma IdsRemoveAt(hs: seq<Habit>, i: nat)
    requires i < |hs|
    ensures Ids(RemoveAt(hs, i)) == RemoveAt(Ids(hs), i)
  {
  }

  lemma IdsInsertAt(hs: seq<Habit>, i: nat, x: Habit)
    requires i <= |hs|
    ensures Ids(InsertAt(hs, i, x)) == InsertAt(Ids(hs), i, x.id)
  {
    var ins := InsertAt(hs, i, x);
    var l, r := Ids(ins), InsertAt(Ids(hs), i, x.id);
    forall k | 0 <= k < |l| ensures l[k] == r[k] {
      if k < i {
        assert l[k] == hs[k].id == r[k];
      } else if k > i {
        assert l[k] == ins[k].id == hs[k - 1].id == r[k];
      }
    }
  }

  /** A move rearranges the ids in the same way as the habits. */
  lemma IdsMove(hs: seq<Habit>, source: nat, destination: nat)
    requires source < |hs|
    ensures Ids(Move(hs, source, destination)) == Move(Ids(hs), source, destination)
    ensures multiset(Ids(Move(hs, source, destination))) == multiset(Ids(hs))
  {
    var rest := RemoveAt(hs, source);
    IdsRemoveAt(hs, source);
    IdsInsertAt(rest, ClampedStart(destination, |rest|), hs[source]);
    assert Ids(Move(hs, source, destination)) == Move(Ids(hs), source, destination);
    MoveIsPermutation(Ids(hs), source, destination);
  }

  lemma DragEndKeepsWellFormed(hs: seq<Habit>, source: nat, destination: Option<nat>)
    requires WellFormed(hs)
    requires destination.Some? ==> source < |hs|
    ensures WellFormed(DragEnd(hs, source, destination))
  {
    if destination.Some? {
      IdsMove(hs, source, destination.value);
      var r := DragEnd(hs, source, destination);
      forall h | h in r ensures h in hs {
        assert multiset(r)[h] > 0;
      }
      PermutationKeepsWellFormed(hs, r);
    }
  }

  // ---------------------------------------------------------------------
  // A whole session

  /** Ticking Monday of a new habit and un-ticking it again fires no confetti. */
  lemma MondayTwiceWithoutConfetti(h: Habit)
    requires |h.weekProgress| == DaysPerWeek
    requires forall j :: 0 <= j < DaysPerWeek ==> !h.weekProgress[j]
    ensures !Celebrates(h, FlipDayOf(h, 0))
    ensures !Celebrates(FlipDayOf(h, 0), FlipDayOf(FlipDayOf(h, 0), 0))
  {
    assert !FlipDayOf(h, 0).weekProgress[1];
    FlipDayOfTwice(h, 0);
    assert !h.weekProgress[0];
  }

  /** Adding "Drink water" to the empty list, ticking Monday twice, ticking
      the whole week, marking the habit complete and deleting the completed
      habits ends with the empty list again. */
  lemma DrinkWaterSession(id: string)
    ensures var added := AddHabit([], "Drink water", id);
            && added == [NewHabit(id, "Drink water")]
            && FlipDay(FlipDay(added, 0, 0), 0, 0) == added
            && var once := FlipDay(added, 0, 0);
               && !Celebrates(added[0], once[0])
               && !Celebrates(once[0], FlipDay(once, 0, 0)[0])
    ensures var done := [NewHabit(id, "Drink water").(weekProgress := FirstDaysDone(DaysPerWeek))];
            var archived := ToggleComplete(done, id);
            && archived == [done[0].(completed := true)]
            && Active(archived) == []
  {
    var name := "Drink water";
    assert name[0] == 'D' && !IsBlank(name);
    var added := AddHabit([], name, id);
    FlipDayTwice(added, 0, 0);
    MondayTwiceWithoutConfetti(NewHabit(id, name));
    var done := [NewHabit(id, name).(weekProgress := FirstDaysDone(DaysPerWeek))];
    var flipped := FlipCompleted(done, id);
    assert flipped == [done[0].(completed := true)];
    SortIsStablePartition(flipped);
    AllCompletedFilters(flipped);
  }
}
