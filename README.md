# Habit tracker: a verified model of the habit list

The habit tracker is a single React component, `App` in `src/App.js`. It
keeps an ordered list of habits. Each habit has an id, a name, a
`completed` flag that files it under "Completed", and a week of seven
day slots (Mon..Sun). The user can:

- add a habit;
- tick or un-tick a day (finishing the week fires confetti);
- mark a habit complete, which re-sorts the list so that active habits come first;
- bring a completed habit back without re-sorting;
- delete every completed habit;
- rename a habit in place, with a small editing state (`editingId`, `tempTitle`);
- reorder the shown habits by drag and drop.

After every change the list is saved to local storage.

This project models those handlers in Dafny and proves what they do:

- `js_string.dfy` (`JsString`): `String.prototype.trim`, which `addHabit` uses to reject blank names.
- `splice.dfy` (`Splice`): the two `Array.prototype.splice` calls of `onDragEnd`, and their composition `Move`.
- `habits.dfy` (`Habits`): the habit record, `isHabitComplete`, the one-day flip, and the confetti condition.
- `habit_list.dfy` (`HabitList`): every handler as a function from the current list to the list `setHabits` receives, with the list invariant (seven slots, unique ids), the active/completed filters, and the stable sort of `toggleComplete`.
- `sort.dfy` (`InPlaceSort`): the in-place sort of `toggleComplete`, as a stable insertion sort over an array driven by the source's comparator, proved equal to the sort function.
- `index_space.dfy` (`IndexSpace`): the shown rows are numbered by their place among the active habits, but `toggleDay` and `onDragEnd` index the full list.
  - This module proves that the two numberings agree exactly when no completed habit stands before an active one.
  - `toggleComplete` restores that condition; `toggleCompleted` can break it.
  - It shows what goes wrong then, and gives corrected handlers.
- `app.dfy` (`AppComponent`): the component as a class. Its fields are the state slots and the saved copy. Each handler of the source is a method that updates copies step by step as the source does and is proved against the functions of `HabitList`; `SetHabits` is the shared `setHabits` call with the save that follows it. `ToggleShownDay` and `OnShownDragEnd` are the corrected handlers, proved against `IndexSpace.ToggleShownDay` and `IndexSpace.DragShown`. Every handler keeps the invariant `Valid()`.

## Model

| member | source | states |
|---|---|---|
| JsString.TrimStart | src/App.js:74 | the result is a suffix of the input; everything cut off is whitespace; the result is empty or starts with a non-whitespace character; it is empty exactly when the input is blank |
| JsString.TrimEnd | src/App.js:74 | the mirror image of `TrimStart`: a prefix, only whitespace cut off, empty or ending in non-whitespace, empty exactly when the input is blank |
| JsString.Trim | src/App.js:74 | `name.trim()` is empty exactly when every character of `name` is ECMAScript whitespace or a line terminator; otherwise it starts and ends with non-whitespace and is no longer than `name` |
| Splice.ClampedStart | src/App.js:111 | the insertion point `splice` uses is the requested one when it is within the array, and the array's length when it is beyond it |
| Splice.RemoveAt | src/App.js:110 | `splice(i, 1)` leaves one element fewer: those before `i` stay, those after `i` move one place left |
| Splice.InsertAt | src/App.js:111 | `splice(i, 0, x)` puts `x` at `i`; those before stay, those from `i` on move one place right |
| Splice.MoveIsPermutation | src/App.js:109-111 | removing an element and inserting it again keeps every element with its multiplicity |
| Splice.MovePlacement | src/App.js:109-111 | the moved element ends at the (clamped) destination, and taking it out again gives the list with it removed at the source, so all other elements keep their relative order |
| Splice.MoveUndo | src/App.js:109-111 | moving an element back from the destination to the source restores the sequence |
| Splice.MoveWithinPrefix | src/App.js:109-111 | a move whose two indices fall in a prefix leaves everything after that prefix in place |
| Habits.AllDone | src/App.js:26 | `weekProgress.every((done) => done)` holds exactly when every slot is true, and also of an empty week |
| Habits.FlipWeekDay | src/App.js:36-37 | the copied week with `dayIndex` negated: same length, that slot negated, every other slot unchanged |
| Habits.FlipDayOf | src/App.js:36-38 | the habit with that day flipped keeps its id, name and `completed` flag |
| Habits.NewHabit | src/App.js:77-82 | a new habit has the given id and name, is not completed, and has seven slots all false |
| Habits.FlipDayOfTwice | src/App.js:36-38 | flipping the same day twice gives back the habit |
| Habits.CelebratesIff | src/App.js:44-49 | confetti fires exactly when the flipped day was not done and every other day of the week was |
| Habits.NoCelebrationWhenUndoing | src/App.js:45-49 | un-ticking a day of a finished week never fires confetti |
| Habits.TickingTheWholeWeek | src/App.js:33-58 | ticking Mon..Sun in turn on a new habit goes through the weeks with the first k days done, and only the seventh tick fires confetti |
| HabitList.Active | src/App.js:119 | `activeHabits` holds only active habits and is no longer than the list |
| HabitList.Completed | src/App.js:120 | `completedHabits` holds only completed habits and is no longer than the list |
| HabitList.FilterCounts | src/App.js:119-120 | each filter keeps every habit of its group exactly as often as the list does, and none of the other group |
| HabitList.FiltersKeepOrder | src/App.js:119-120 | both filters keep the list order of what they keep |
| HabitList.PartitionIsPermutation | src/App.js:119-120 | together the two filters hold every habit of the list with its multiplicity |
| HabitList.ActiveAppend | src/App.js:119 | filtering a concatenation filters each part |
| HabitList.CompletedAppend | src/App.js:120 | filtering a concatenation filters each part |
| HabitList.DeleteCompletedKeeps | src/App.js:69-71 | `deleteCompleted` keeps only active habits, keeps every active habit as often as the list holds it, keeps their order, and keeps the list invariant |
| HabitList.DeleteCompletedIdempotent | src/App.js:69-71 | deleting the completed habits twice is deleting them once |
| HabitList.FlipDay | src/App.js:33-41 | `toggleDay` changes only the habit at `index`, and of it only the slot `dayIndex`; the length of the list and every other habit stay the same |
| HabitList.FlipDayTwice | src/App.js:33-41 | `toggleDay` twice with the same arguments restores the list |
| HabitList.FlipDayKeepsWellFormed | src/App.js:33-41 | `toggleDay` keeps seven slots per habit and unique ids |
| HabitList.FlipIfMatches | src/App.js:62 | only the `completed` flag of a habit with that id is negated |
| HabitList.FlipCompleted | src/App.js:121-126 | `toggleCompleted` keeps every position, id, name and week and negates `completed` exactly for the habits with that id |
| HabitList.FlipCompletedTwice | src/App.js:121-126 | toggling the same id twice restores the list |
| HabitList.FlipCompletedKeepsWellFormed | src/App.js:121-126 | `toggleCompleted` keeps the list invariant |
| HabitList.SortIsStablePartition | src/App.js:65 | the stable sort by `a.completed - b.completed` gives the active habits in their order followed by the completed ones in their order |
| HabitList.PartitionedIsConcat | src/App.js:65 | a list has no completed habit before an active one exactly when it is its active habits followed by its completed ones |
| HabitList.ConcatIsPartitioned | src/App.js:65 | active habits followed by completed ones form such a list, and its filters give back the two parts |
| HabitList.StableSortIsUnique | src/App.js:65 | every arrangement that keeps each group's order and puts the active group first equals the sort's result, so the result does not depend on the sorting algorithm |
| HabitList.ToggleCompleteSpec | src/App.js:60-67 | after `toggleComplete(id)` the list is a permutation of the mapped list, no completed habit precedes an active one, and each group keeps its order |
| HabitList.ToggleCompleteKeepsWellFormed | src/App.js:60-67 | `toggleComplete` keeps the list invariant |
| HabitList.ToggleCompleteTwice | src/App.js:60-67 | `toggleComplete` twice on the same id gives back every habit with its original flag; only the order may differ |
| HabitList.AddHabit | src/App.js:73-84 | a blank name leaves the list unchanged; otherwise the old list is a prefix, and one habit follows with the fresh id, the untrimmed name, not completed, seven false slots |
| HabitList.AddHabitKeepsWellFormed | src/App.js:73-84 | adding with an id not in the list keeps the list invariant |
| HabitList.Rename | src/App.js:91-94 | `saveTitle` gives the habits with that id the title, whatever it is, and changes no id, flag, week or position |
| HabitList.RenameIdempotent | src/App.js:91-94 | saving the same title twice (Enter and then blur) is saving it once |
| HabitList.RenameKeepsWellFormed | src/App.js:91-94 | `saveTitle` keeps the list invariant |
| HabitList.BlankNamesOnlyByRename | src/App.js:74 | `addHabit` appends a habit exactly when the name is not blank, the habit it appends never has a blank name, and `saveTitle` can store the empty title |
| HabitList.DragEnd | src/App.js:105-114 | with no destination the list is unchanged; otherwise the result is a permutation of the list, the habit from the source index sits at the (clamped) destination index, and the other habits keep their relative order |
| HabitList.DragEndUndo | src/App.js:105-114 | dragging the habit back to where it came from restores the list |
| HabitList.IdsMove | src/App.js:109-111 | the ids of the dragged list are the ids of the list under the same move, so the multiset of ids is kept |
| HabitList.DragEndKeepsWellFormed | src/App.js:105-114 | `onDragEnd` keeps the list invariant |
| HabitList.DrinkWaterSession | src/App.js:33-84 | adding "Drink water" to the empty list gives that one new habit; ticking Monday twice restores it and fires no confetti either time; marking the finished habit complete archives it, and `deleteCompleted` then keeps no habit |
| HabitList.Compare | src/App.js:65 | the comparator is positive exactly when a completed habit is compared with an active one, and negative exactly in the opposite case |
| InPlaceSort.ShiftIntoPlace | src/App.js:65 | one insertion step moves an active habit in front of the completed habits before it, and leaves a completed one where it is |
| InPlaceSort.SortByCompletedInPlace | src/App.js:65 | sorting the array in place gives the same list as the stable sort `SortByCompleted` of its old contents |
| IndexSpace.ActivePosition | src/App.js:164-165 | the `i`-th shown row is the habit at a position of the full list that is active and has exactly `i` active habits before it |
| IndexSpace.PartitionedIffIndicesAgree | src/App.js:164-165 | the shown rows are the first habits of the full list, in order, exactly when no completed habit stands before an active one |
| IndexSpace.PartitionedActivePosition | src/App.js:205 | on such a list the `i`-th shown row is at position `i` of the full list |
| IndexSpace.ToggleCompleteRealignsIndices | src/App.js:60-67 | after `toggleComplete`, the shown rows and the full list agree on every index |
| IndexSpace.ToggleCompletedBreaksPartition | src/App.js:121-126 | un-archiving the second of two completed habits puts a completed habit before an active one |
| IndexSpace.DragWithinActiveKeepsPartition | src/App.js:105-114 | on a list whose active habits come first, a drag between two shown rows keeps that order and moves the shown rows as on screen |
| IndexSpace.ShownDayToggleHitsOtherHabit | src/App.js:205 | as written: with an archived habit first, the day button of the only shown row flips a day of the archived habit, and the shown row does not change |
| IndexSpace.ToggleShownDayFlipsShownHabit | src/App.js:205 | corrected: the day toggle that looks the row up flips that day of the shown habit only, leaves the archived habits alone, and equals `toggleDay` when the active habits come first |
| IndexSpace.ShownDragMovesOtherHabit | src/App.js:109-111 | as written: behind an archived habit, dragging the first shown row below the second moves the archived habit, and the shown rows keep their order |
| IndexSpace.DragShownMovesShownRows | src/App.js:105-114 | corrected: the drag over the shown rows moves them as on screen, keeps the archived habits as they were, keeps every habit, leaves the active habits first, and equals `onDragEnd` when they already were first |
| IndexSpace.DragShownKeepsWellFormed | src/App.js:105-114 | the corrected drag keeps the list invariant |
| AppComponent.App.constructor | src/App.js:10-16 | the first state is the stored list, or the empty list when nothing is stored; nothing is being edited |
| AppComponent.App.ActiveHabits | src/App.js:119 | the rows of the draggable list are all active |
| AppComponent.App.CompletedHabits | src/App.js:120 | the rows under "Completed" are all completed |
| AppComponent.App.SetHabits | src/App.js:21-23 | `setHabits` sets the list, the saved copy follows it, and the editing state is untouched |
| AppComponent.App.ToggleDay | src/App.js:33-58 | the new list is `FlipDay` of the old one, confetti fires exactly when the habit's week went from not finished to finished, and the invariant is kept |
| AppComponent.App.ToggleShownDay | src/App.js:205 | the day button of a shown row, corrected: the shown habit's day flips, the archived habits stay as they were, confetti fires exactly when the shown habit's week went from not finished to finished, and the invariant is kept |
| AppComponent.App.ToggleComplete | src/App.js:60-67 | the new list is the mapped list sorted in place, so no completed habit precedes an active one and each group keeps its order |
| AppComponent.App.ToggleCompleted | src/App.js:121-126 | the new list is `FlipCompleted` of the old one, with nothing reordered |
| AppComponent.App.DeleteCompleted | src/App.js:69-71 | the new list is exactly the old active habits, and no completed habit is left |
| AppComponent.App.AddHabit | src/App.js:73-84 | the new list is `AddHabit` of the old one (unchanged for a blank name); the invariant is kept |
| AppComponent.App.StartEditing | src/App.js:86-89 | editing starts on that id, the title field holds the current title, and the list is untouched |
| AppComponent.App.EditTitle | src/App.js:181 | typing sets only the title field |
| AppComponent.App.SaveTitle | src/App.js:91-97 | the habit with that id takes the title field's text, editing ends, and the title field keeps its text |
| AppComponent.App.CancelEditing | src/App.js:99-102 | editing ends, the title field is cleared, and the list is untouched |
| AppComponent.App.OnDragEnd | src/App.js:105-114 | the new list is `DragEnd` of the old one, unchanged without a destination; the invariant is kept |
| AppComponent.App.OnShownDragEnd | src/App.js:105-114 | the corrected drop: the new list is `DragShown` of the old one, and the invariant is kept |

## Left out

- Rendering is not modelled: the JSX, the CSS class strings, and reading the new habit's name out of the input element with `document.querySelector` (src/App.js:128-251). Handlers take their arguments directly.
- Local storage and JSON are not modelled (src/App.js:10-13, 21-23). `persisted` stands for the saved list and always equals `habits`. The constructor receives the stored list already parsed, or `None`.
  - In the source, `JSON.parse` of a malformed stored value throws; it does not fall back to an empty list. The model does not capture that failure.
- AppComponent.App.constructor: requires the stored list to satisfy the invariant (seven slots, unique ids). The source trusts whatever it reads back without checking.
- The confetti call (src/App.js:50-54) is the boolean result `celebrate` of `ToggleDay`.
- The drag-and-drop library's gestures are not modelled (src/App.js:155-242). A drop is a source index plus an optional destination index, with `None` for a drop outside the list.
- `Date.now().toString()` (src/App.js:78) is the parameter `freshId`.
- AppComponent.App.AddHabit: requires `freshId` not to be an id already in the list. `Date.now()` does not guarantee that; the pure `HabitList.AddHabit` has no such requirement.
- AppComponent.App.ToggleDay: requires `index` to be a position of the full list and `dayIndex < 7`.
  - In the source, a larger `index` throws when it reads `habits[index]`.
  - A larger `dayIndex` would extend the copied week, because JavaScript array assignment past the end grows the array. The buttons only pass 0..6.
- AppComponent.App.OnDragEnd: requires the source index to be a position of the list when there is a destination. An out-of-range `splice(i, 1)` would insert `undefined`.
- Strings are sequences of characters with no UTF-16 code units or surrogate pairs. The whitespace set of `trim` is the WhiteSpace and LineTerminator characters of ECMA-262.
- Array.prototype.sort: the engine's own algorithm is not modelled. The sort is a stable insertion sort driven by the source's comparator (section 23.1.3.30 of ECMA-262 requires the sort to be stable). `HabitList.StableSortIsUnique` shows that every stable sort gives the same list.
- The code sorts the whole list, and the sort is stable. So a habit just marked complete goes in front of the completed habits that stood after it, and after those that stood before it; on a partitioned list, that is in front of all of them. It does not go to the end of the list. The model follows the code.
- HabitList.ToggleComplete, HabitList.SortByCompleted and HabitList.InsertByCompleted: their own contracts are empty. What they do is stated by `ToggleCompleteSpec`, `SortIsStablePartition` and `StableSortIsUnique`.
- Habits.IsHabitComplete and Habits.Celebrates: these predicates have no contracts of their own. What they mean is stated by the contract of `AllDone` and by `CelebratesIff`.
- The comment at src/App.js:28-32 says that `toggleDay` marks a habit completed when its week is finished, and not completed otherwise. The code never changes `completed` there; a finished week only changes how the row is drawn (src/App.js:169). The model follows the code: `FlipDayOf` keeps `completed`.
- Splice.Move: its own contract states only the length. What a move does is stated by `MoveIsPermutation`, `MovePlacement` and `MoveUndo`.
- IndexSpace.ToggleShownDay and IndexSpace.DragShown: their own contracts state only the length. What they do is stated by `ToggleShownDayFlipsShownHabit` and `DragShownMovesShownRows`.
- The arrays that `onDragEnd` splices, and the copied week of `toggleDay`, are local sequence variables updated step by step. `splice` changes the length of an array, which a Dafny array cannot do. Only the array of `toggleComplete` is sorted in place as a Dafny array.
- React's scheduling is not modelled. Each handler reads the list of the latest render, and handlers run one after another.

## Findings

| source | as written | input that shows it | evidently intended | confidence | as-written member | corrected member |
|---|---|---|---|---|---|---|
| src/App.js:205 | The day button of the row at place `index` among the active habits calls `toggleDay(index, dayIndex)`, which flips that day of the habit at position `index` of the full list. | List [Read (completed), Run (active)], reached from two completed habits by un-archiving Run. The only row shown is Run, at index 0. Its Monday button flips Monday of the archived Read, and Run stays unchanged. | The day of the habit shown in that row flips. | not executed | IndexSpace.ShownDayToggleHitsOtherHabit | IndexSpace.ToggleShownDayFlipsShownHabit |
| src/App.js:109-111 | `onDragEnd` splices the full list with the source and destination indices of the shown rows. | List [x (completed), a, b]. Dragging shown row 0 (a) to place 1 gives [a, x, b]: the archived x moves, and the shown rows stay [a, b]. | The shown rows become [b, a], and the archived habits stay after them. | not executed | IndexSpace.ShownDragMovesOtherHabit | IndexSpace.DragShownMovesShownRows |
