/** The habit record of the tracker and what is computed from one habit
    alone: its weekly grid of seven day slots (Mon..Sun), whether the week is
    fully done, and when flipping a day is worth a celebration. */
module Habits {

  datatype Option<T> = None | Some(value: T)

  /** Mon, Tue, Wed, Thu, Fri, Sat, Sun. */
  const DaysPerWeek: nat := 7

  /** `{id, name, completed, weekProgress}`. `completed` files the habit
      under "Completed"; `weekProgress[d]` says whether day `d` was done. */
  datatype Habit = Habit(id: string, name: string, completed: bool, weekProgress: seq<bool>)

  /** `Array.prototype.every((done) => done)`: true also of an empty week. */
  function AllDone(week: seq<bool>): (r: bool)
    ensures r <==> forall j :: 0 <= j < |week| ==> week[j]
  {
    if week == [] then true else week[0] && AllDone(week[1..])
  }

  /** `isHabitComplete`: every day of the week is done. */
  predicate IsHabitComplete(h: Habit) {
    AllDone(h.weekProgress)
  }

  /** The week with day `day` negated (`updatedWeek[dayIndex] = !updatedWeek[dayIndex]`
      on a copy of the week). */
  function FlipWeekDay(week: seq<bool>, day: nat): (r: seq<bool>)
    requires day < |week|
    ensures |r| == |week| && r[day] == !week[day]
    ensures forall j :: 0 <= j < |week| && j != day ==> r[j] == week[j]
  {
    week[day := !week[day]]
  }

  /** The habit with day `day` of its week negated and nothing else changed. */
  function FlipDayOf(h: Habit, day: nat): (r: Habit)
    requires day < |h.weekProgress|
    ensures r.id == h.id && r.name == h.name && r.completed == h.completed
    ensures r.weekProgress == FlipWeekDay(h.weekProgress, day)
  {
    h.(weekProgress := FlipWeekDay(h.weekProgress, day))
  }

  /** The confetti condition of `toggleDay`: the week was not fully done
      before and is fully done after. */
  predicate Celebrates(before: Habit, after: Habit) {
    !IsHabitComplete(before) && IsHabitComplete(after)
  }

  /** A habit as `addHabit` creates it: active, with seven days not done. */
  function NewHabit(id: string, name: string): (h: Habit)
    ensures h.id == id && h.name == name && !h.completed
    ensures |h.weekProgress| == DaysPerWeek
    ensures forall j :: 0 <= j < |h.weekProgress| ==> !h.weekProgress[j]
  {
    Habit(id, name, false, [false, false, false, false, false, false, false])
  }

  /** Flipping the same day twice gives back the habit. */
  lemma FlipDayOfTwice(h: Habit, day: nat)
    requires day < |h.weekProgress|
    ensures FlipDayOf(FlipDayOf(h, day), day) == h
  {
    assert FlipDayOf(FlipDayOf(h, day), day).weekProgress == h.weekProgress;
  }

  /** Flipping a day celebrates exactly when that day was the only one of
      the week not yet done. */
  lemma CelebratesIff(h: Habit, day: nat)
    requires day < |h.weekProgress|
    ensures Celebrates(h, FlipDayOf(h, day))
        <==> !h.weekProgress[day]
             && forall j :: 0 <= j < |h.weekProgress| && j != day ==> h.weekProgress[j]
  {
    var after := FlipDayOf(h, day);
    if !h.weekProgress[day] && forall j :: 0 <= j < |h.weekProgress| && j != day ==> h.weekProgress[j] {
      assert !IsHabitComplete(h);
      assert forall j :: 0 <= j < |after.weekProgress| ==> after.weekProgress[j];
    }
  }

  /** Un-ticking a day of a fully done week never celebrates. */
  lemma NoCelebrationWhenUndoing(h: Habit, day: nat)
    requires day < |h.weekProgress|
    requires IsHabitComplete(h)
    ensures !Celebrates(h, FlipDayOf(h, day))
  {
  }

  /** The week whose first `k` days are done and whose other days are not. */
  function FirstDaysDone(k: nat): (week: seq<bool>)
    ensures |week| == DaysPerWeek
    ensures forall j :: 0 <= j < DaysPerWeek ==> week[j] == (j < k)
  {
    seq(DaysPerWeek, j requires 0 <= j < DaysPerWeek => j < k)
  }

  /** Ticking Mon..Sun in turn on a new habit: each tick moves to the next
      week of the sequence, and only the seventh one celebrates. */
  lemma {:induction false} TickingTheWholeWeek(id: string, name: string, k: nat)
    requires k < DaysPerWeek
    ensures NewHabit(id, name).weekProgress == FirstDaysDone(0)
    ensures var h := NewHabit(id, name).(weekProgress := FirstDaysDone(k));
            && FlipDayOf(h, k).weekProgress == FirstDaysDone(k + 1)
            && (Celebrates(h, FlipDayOf(h, k)) <==> k == DaysPerWeek - 1)
  {
    var h := NewHabit(id, name).(weekProgress := FirstDaysDone(k));
    CelebratesIff(h, k);
    assert FlipDayOf(h, k).weekProgress == FirstDaysDone(k + 1);
    if k < DaysPerWeek - 1 {
      assert !h.weekProgress[DaysPerWeek - 1];
    }
  }
}
