/** The state of the `App` component of src/App.js and its event handlers.
    `habits`, `editingId` and `tempTitle` are the component's `useState`
    slots, each handler is a method that sets them, and `persisted` is what
    the `useEffect` hook has written to local storage under the key 'habits'
    (it follows `habits` after every `setHabits`). */
module AppComponent {
  import opened Habits
  import opened HabitList
  import opened IndexSpace
  import opened JsString
  import opened InPlaceSort

  class App {
    var habits: seq<Habit>
    var editingId: Option<string>
    var tempTitle: string
    var persisted: seq<Habit>

    /** Every week has seven slots, ids are unique, and local storage holds
        the current list. */
    ghost predicate Valid()
      reads this
    {
      WellFormed(habits) && persisted == habits
    }

    /** The first render: the list read back from local storage, or an empty
        list when nothing is stored; not editing anything. */
    constructor (stored: Option<seq<Habit>>)
      requires stored.Some? ==> WellFormed(stored.value)
      ensures Valid()
      ensures habits == (if stored.Some? then stored.value else [])
      ensures editingId == None && tempTitle == ""
    {
      habits := if stored.Some? then stored.value else [];
      editingId := None;
      tempTitle := "";
      persisted := habits;
    }

    /** `activeHabits`: the rows of the draggable list. */
    function ActiveHabits(): (r: seq<Habit>)
      reads this
      ensures forall k :: 0 <= k < |r| ==> !r[k].completed
    {
      Active(habits)
    }

    /** `completedHabits`: the rows under "Completed". */
    function CompletedHabits(): (r: seq<Habit>)
      reads this
      ensures forall k :: 0 <= k < |r| ==> r[k].completed
    {
      Completed(habits)
    }

    /** `setHabits(updated)` followed by the `useEffect` that saves the list. */
    method SetHabits(updated: seq<Habit>)
      modifies this
      ensures habits == updated && persisted == updated
      ensures editingId == old(editingId) && tempTitle == old(tempTitle)
    {
      habits := updated;
      persisted := updated;
    }

    /** `toggleDay(index, dayIndex)`: flips one day of the habit at `index`
        of the full list and reports whether that completed its week (the
        confetti call). */
    method ToggleDay(index: nat, dayIndex: nat) returns (celebrate: bool)
      requires Valid()
      requires index < |habits| && dayIndex < DaysPerWeek
      modifies this
      ensures Valid()
      ensures habits == FlipDay(old(habits), index, dayIndex)
      ensures celebrate <==> Celebrates(old(habits)[index], habits[index])
      ensures editingId == old(editingId) && tempTitle == old(tempTitle)
    {
      assert habits[index] in habits;
      var updatedWeek := habits[index].weekProgress;
      updatedWeek := updatedWeek[dayIndex := !updatedWeek[dayIndex]];
      var updatedHabits := habits[index := habits[index].(weekProgress := updatedWeek)];
      var wasComplete := AllDone(habits[index].weekProgress);
      var nowComplete := AllDone(updatedHabits[index].weekProgress);
      celebrate := !wasComplete && nowComplete;
      FlipDayKeepsWellFormed(habits, index, dayIndex);
      SetHabits(updatedHabits);
    }

    /** The day button of the `row`-th shown row, with the row's habit looked
        up in the full list first (the corrected dispatch). */
    method ToggleShownDay(row: nat, dayIndex: nat) returns (celebrate: bool)
      requires Valid()
      requires row < |Active(habits)| && dayIndex < |Active(habits)[row].weekProgress|
      modifies this
      ensures Valid()
      ensures habits == IndexSpace.ToggleShownDay(old(habits), row, dayIndex)
      ensures Active(habits) == Active(old(habits))[row := FlipDayOf(Active(old(habits))[row], dayIndex)]
      ensures celebrate <==> Celebrates(Active(old(habits))[row], Active(habits)[row])
      ensures Completed(habits) == Completed(old(habits))
      ensures editingId == old(editingId) && tempTitle == old(tempTitle)
    {
      var index := ActivePosition(habits, row);
      ToggleShownDayFlipsShownHabit(habits, row, dayIndex);
      celebrate := ToggleDay(index, dayIndex);
    }

    /** `toggleComplete(id)`: flips `completed` of the habit with that id in
        a new array, then sorts that array in place, stably, active habits
        before completed ones. */
    method ToggleComplete(id: string)
      requires Valid()
      modifies this
      ensures Valid()
      ensures habits == HabitList.ToggleComplete(old(habits), id)
      ensures Partitioned(habits)
      ensures Active(habits) == Active(FlipCompleted(old(habits), id))
      ensures Completed(habits) == Completed(FlipCompleted(old(habits), id))
      ensures editingId == old(editingId) && tempTitle == old(tempTitle)
    {
      var mapped := FlipCompleted(habits, id);
      var updatedHabits := new Habit[|mapped|](k requires 0 <= k < |mapped| => mapped[k]);
      assert updatedHabits[..] == mapped;
      SortByCompletedInPlace(updatedHabits);
      ToggleCompleteKeepsWellFormed(habits, id);
      ToggleCompleteSpec(habits, id);
      SetHabits(updatedHabits[..]);
    }

    /** `toggleCompleted(id)`: the same flip without any reordering. */
    method ToggleCompleted(id: string)
      requires Valid()
      modifies this
      ensures Valid()
      ensures habits == FlipCompleted(old(habits), id)
      ensures editingId == old(editingId) && tempTitle == old(tempTitle)
    {
      FlipCompletedKeepsWellFormed(habits, id);
      SetHabits(FlipCompleted(habits, id));
    }

    /** `deleteCompleted()`: keeps the active habits only. */
    method DeleteCompleted()
      requires Valid()
      modifies this
      ensures Valid()
      ensures habits == Active(old(habits))
      ensures Completed(habits) == []
      ensures editingId == old(editingId) && tempTitle == old(tempTitle)
    {
      DeleteCompletedKeeps(habits);
      AllActiveFilters(Active(habits));
      SetHabits(Active(habits));
    }

    /** `addHabit(name)` with `freshId` standing for `Date.now().toString()`:
        a blank name changes nothing (and nothing is saved). */
    method AddHabit(name: string, freshId: string)
      requires Valid()
      requires freshId !in Ids(habits)
      modifies this
      ensures Valid()
      ensures habits == HabitList.AddHabit(old(habits), name, freshId)
      ensures editingId == old(editingId) && tempTitle == old(tempTitle)
    {
      if Trim(name) == [] {
        return;
      }
      AddHabitKeepsWellFormed(habits, name, freshId);
      SetHabits(habits + [NewHabit(freshId, name)]);
    }

    /** `startEditing(id, currentTitle)`. */
    method StartEditing(id: string, currentTitle: string)
      requires Valid()
      modifies this
      ensures Valid()
      ensures editingId == Some(id) && tempTitle == currentTitle
      ensures habits == old(habits) && persisted == old(persisted)
    {
      editingId := Some(id);
      tempTitle := currentTitle;
    }

    /** The title field's `onChange`: `setTempTitle(e.target.value)`. */
    method EditTitle(text: string)
      requires Valid()
      modifies this
      ensures Valid()
      ensures tempTitle == text && editingId == old(editingId)
      ensures habits == old(habits) && persisted == old(persisted)
    {
      tempTitle := text;
    }

    /** `saveTitle(id)`: renames the habit with that id to `tempTitle`, with
        no check that the title is not blank, and leaves editing mode.
        `tempTitle` itself is left as it is. */
    method SaveTitle(id: string)
      requires Valid()
      modifies this
      ensures Valid()
      ensures habits == Rename(old(habits), id, old(tempTitle))
      ensures editingId == None && tempTitle == old(tempTitle)
    {
      RenameKeepsWellFormed(habits, id, tempTitle);
      SetHabits(Rename(habits, id, tempTitle));
      editingId := None;
    }

    /** `cancelEditing()`: leaves editing mode and clears the title. */
    method CancelEditing()
      requires Valid()
      modifies this
      ensures Valid()
      ensures editingId == None && tempTitle == ""
      ensures habits == old(habits) && persisted == old(persisted)
    {
      editingId := None;
      tempTitle := "";
    }

    /** `onDragEnd({source: {index: source}, destination})`, where `None`
        stands for a drop outside the list (`destination` is null). */
    method OnDragEnd(source: nat, destination: Option<nat>)
      requires Valid()
      requires destination.Some? ==> source < |habits|
      modifies this
      ensures Valid()
      ensures habits == DragEnd(old(habits), source, destination)
      ensures editingId == old(editingId) && tempTitle == old(tempTitle)
    {
      if destination.None? {
        return;
      }
      var reordered := habits;
      var moved := reordered[source];
      reordered := Splice.RemoveAt(reordered, source);
      reordered := Splice.InsertAt(reordered, Splice.ClampedStart(destination.value, |reordered|), moved);
      DragEndKeepsWellFormed(habits, source, destination);
      SetHabits(reordered);
    }

    /** A drop of the `source`-th shown row at the `destination`-th shown
        position, carried out on the shown rows and with the archived habits
        kept after them (the corrected drag). */
    method OnShownDragEnd(source: nat, destination: Option<nat>)
      requires Valid()
      requires destination.Some? ==> source < |Active(habits)|
      modifies this
      ensures Valid()
      ensures habits == DragShown(old(habits), source, destination)
      ensures editingId == old(editingId) && tempTitle == old(tempTitle)
    {
      if destination.None? {
        return;
      }
      var shown := ActiveHabits();
      var moved := shown[source];
      shown := Splice.RemoveAt(shown, source);
      shown := Splice.InsertAt(shown, Splice.ClampedStart(destination.value, |shown|), moved);
      DragShownKeepsWellFormed(habits, source, destination);
      SetHabits(shown + CompletedHabits());
    }
  }
}
