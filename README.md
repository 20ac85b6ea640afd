# TodoTask core in Dafny

This project models the core of the TodoTask Android to-do app: the `Task`
record, the task list adapter and the main screen. The main screen keeps a
master list of tasks and a selected date key (`DD/MM/YYYY`). It also keeps a
filtered list, which holds the tasks due on that date, open tasks before
completed ones. The adapter displays the filtered list and shares it by
reference. A checkbox change sets the task's flag and re-sorts that shared
list in place.

Modules, one per source file, plus two for the shared pure logic:

- `Models` (`Task.dfy`): `models/Task.java`, a class with four mutable fields.
- `TaskLists` (`TaskLists.dfy`): the list operations the Java code gets from
  `java.util.ArrayList`, in two parts:
  - a `TaskArrayList` class whose methods `add`, `remove`, `set`, `clear` and
    `sort` update a `seq` field;
  - the pure specification functions: the date filter, the stable sort by
    `Boolean.compare` on the completion flag, and first-occurrence removal.

  The lemmas here state what these operations mean: membership and counts,
  order preservation, permutation, stability, uniqueness of the stable sort,
  and agreement with a reference insertion sort.
- `DateKeys` (`DateKeys.dfy`): covers two things.
  - The `String.format("%02d/%02d/%d", day, month + 1, year)` key, with a
    parser as its inverse and a round-trip proof.
  - The title label "Today Tasks" / "Tomorrow Tasks" / "<key> Tasks".
- `Adapters` (`TaskAdapter.dfy`): `adapters/TaskAdapter.java`.
- `Activities` (`MainActivity.dfy`): `activities/MainActivity.java`.
  - The screen's invariant `Valid` says four things:
    - the adapter shows the filtered list itself;
    - the master list has no duplicate task;
    - the filtered list holds exactly the master list's tasks due on the
      selected date, open ones first;
    - the "no data" image is visible exactly when the filtered list is empty.
  - Every handler keeps `Valid`: create, date pick, add, update, delete and
    checkbox.

Today's and tomorrow's date keys come from the system clock through
`DateUtils`, which is not part of this model. They are parameters here, and
so are the values the date picker returns.

Three points where the code does something a reader might not expect:

- The view is patched in place. After a checkbox change the filtered list is
  a re-sort of the order on screen, not a rebuild from the master list. So
  `Valid` fixes the filtered list's contents and the open-before-completed
  order, but not the order within each group. `ToggleOnAndOffReorders` shows
  the difference.
- The update handler overwrites the task's fields before it looks the task
  up. A task that is not found keeps its new fields (`UpdateTask`).
- The delete handler's final "no data" visibility update never changes
  anything, because the view is already consistent at that point
  (`ShowNoDataImage`).

## Model

| member | source | states |
|---|---|---|
| Models.Task.constructor | app/src/main/java/com/example/todolist/models/Task.java:11-16 | the new task holds the four given values |
| Models.Task.SetName | app/src/main/java/com/example/todolist/models/Task.java:22-24 | the getter returns the new name; only the name field may change |
| Models.Task.SetDescription | app/src/main/java/com/example/todolist/models/Task.java:30-32 | the getter returns the new description; only that field may change |
| Models.Task.SetCompleted | app/src/main/java/com/example/todolist/models/Task.java:38-40 | the getter returns the new flag; only the flag may change |
| Models.Task.SetDueDate | app/src/main/java/com/example/todolist/models/Task.java:46-48 | the getter returns the new due date; only that field may change |
| TaskLists.BooleanCompare | app/src/main/java/com/example/todolist/adapters/TaskAdapter.java:77 | the comparator is zero on equal flags, negative exactly for false against true, positive exactly for true against false |
| TaskLists.IndexOf | app/src/main/java/com/example/todolist/activities/MainActivity.java:179-180 | `indexOf` is -1 exactly when the task is absent; otherwise it is the position of the task's first occurrence |
| TaskLists.RemoveFirst | app/src/main/java/com/example/todolist/activities/MainActivity.java:211 | `remove` of an absent task changes nothing; otherwise the list is one shorter and loses exactly one occurrence of the task |
| TaskLists.RemoveFirstKeepsOrder | app/src/main/java/com/example/todolist/activities/MainActivity.java:211 | `remove` drops the first occurrence and keeps the rest in order |
| TaskLists.AppendNoDuplicates | app/src/main/java/com/example/todolist/activities/MainActivity.java:165-166 | appending a fresh task keeps the master list free of duplicates |
| TaskLists.RemoveFirstNoDuplicates | app/src/main/java/com/example/todolist/activities/MainActivity.java:211 | in a list without duplicates, `remove` takes the task out entirely and keeps the list without duplicates |
| TaskLists.RemoveFirstAfterPrefix | app/src/main/java/com/example/todolist/activities/MainActivity.java:211 | `remove` drops the occurrence that follows a prefix without the task |
| TaskLists.FilterByDateMembers | app/src/main/java/com/example/todolist/activities/MainActivity.java:253-258 | the filtered list holds a task exactly when the master list holds it and it is due on the date |
| TaskLists.FilterByDateCount | app/src/main/java/com/example/todolist/activities/MainActivity.java:253-258 | each task occurs in the filtered list as often as in the master list if it is due on the date, otherwise never |
| TaskLists.FilterByDateAppend | app/src/main/java/com/example/todolist/activities/MainActivity.java:254-258 | the filter walks the list in order: filtering a concatenation concatenates the filters |
| TaskLists.FilterByDateSingleton | app/src/main/java/com/example/todolist/activities/MainActivity.java:255-256 | one task passes exactly when its due date equals the key |
| TaskLists.FilterByDateOnly | app/src/main/java/com/example/todolist/activities/MainActivity.java:255-256 | only tasks of the list that are due on the key pass |
| TaskLists.FilterByDateRemoveMiddle | app/src/main/java/com/example/todolist/activities/MainActivity.java:211-216 | removing the first occurrence of a task before filtering equals removing it after filtering |
| TaskLists.FilterByDateRemoveDue | app/src/main/java/com/example/todolist/activities/MainActivity.java:211-216 | the same, for a task that is due on the key |
| TaskLists.FilterByDateRemoveNotDue | app/src/main/java/com/example/todolist/activities/MainActivity.java:211-216 | the same, for a task that is not due on the key |
| TaskLists.FilterByDateUnchanged | app/src/main/java/com/example/todolist/activities/MainActivity.java:253-258 | a list whose tasks are all due on the key passes the filter unchanged |
| TaskLists.FilterByDateNone | app/src/main/java/com/example/todolist/activities/MainActivity.java:253-258 | a list without a task due on the key filters to the empty list |
| TaskLists.FilterByDatePair | app/src/main/java/com/example/todolist/activities/MainActivity.java:253-258 | two tasks due on the key both pass, in order |
| TaskLists.FilterByDateRemoveFirst | app/src/main/java/com/example/todolist/activities/MainActivity.java:211-216 | filter and `remove` commute, so deleting from the master list deletes from the view |
| TaskLists.FilterByDateFramed | app/src/main/java/com/example/todolist/activities/MainActivity.java:255 | the filter depends only on due dates: changing other fields leaves it unchanged |
| TaskLists.PartitionMembers | app/src/main/java/com/example/todolist/activities/MainActivity.java:264 | the open part holds exactly the open tasks and the completed part exactly the completed tasks |
| TaskLists.PartitionFramed | app/src/main/java/com/example/todolist/adapters/TaskAdapter.java:77 | the two parts depend only on the completion flags |
| TaskLists.IncompleteAppend | app/src/main/java/com/example/todolist/activities/MainActivity.java:264 | both parts of a concatenation are the concatenated parts |
| TaskLists.AllIncomplete | app/src/main/java/com/example/todolist/activities/MainActivity.java:264 | a list of open tasks is its own open part and has no completed part |
| TaskLists.AllCompleted | app/src/main/java/com/example/todolist/activities/MainActivity.java:264 | a list of completed tasks is its own completed part and has no open part |
| TaskLists.PartitionPermutes | app/src/main/java/com/example/todolist/activities/MainActivity.java:264 | the two parts together are a permutation of the list |
| TaskLists.SortByCompletedSorted | app/src/main/java/com/example/todolist/activities/MainActivity.java:264 | after the sort every open task precedes every completed task |
| TaskLists.SortByCompletedPermutes | app/src/main/java/com/example/todolist/activities/MainActivity.java:264 | the sort is a permutation of its input |
| TaskLists.SortByCompletedEmpty | app/src/main/java/com/example/todolist/activities/MainActivity.java:261-266 | the sorted list is empty exactly when the input is |
| TaskLists.SortByCompletedStable | app/src/main/java/com/example/todolist/activities/MainActivity.java:264 | the sort is stable: both parts keep their relative order |
| TaskLists.CompletedLastSplits | app/src/main/java/com/example/todolist/activities/MainActivity.java:264 | a list in order is its open part followed by its completed part |
| TaskLists.StableSortUnique | app/src/main/java/com/example/todolist/activities/MainActivity.java:264 | any ordered list with the same two parts as the input is the sort of the input |
| TaskLists.SortByCompletedIdempotent | app/src/main/java/com/example/todolist/activities/MainActivity.java:264 | sorting twice equals sorting once |
| TaskLists.SortByCompletedFixesSorted | app/src/main/java/com/example/todolist/adapters/TaskAdapter.java:77 | a list already in order is left as it is |
| TaskLists.InsertStableIntoPartition | app/src/main/java/com/example/todolist/adapters/TaskAdapter.java:77 | a stable insertion by `Boolean.compare` places an open task after the open ones and a completed task at the end |
| TaskLists.InsertionSortAgrees | app/src/main/java/com/example/todolist/adapters/TaskAdapter.java:77 | a stable insertion sort with the source's comparator gives exactly the partition sort used by the model |
| TaskLists.SortTwo | app/src/main/java/com/example/todolist/adapters/TaskAdapter.java:77 | for two tasks, the sort swaps them only when a completed task precedes an open one |
| TaskLists.SortExample | app/src/main/java/com/example/todolist/activities/MainActivity.java:264 | open A, completed B and open C come out as A, C, B |
| TaskLists.TaskArrayList.constructor | app/src/main/java/com/example/todolist/activities/MainActivity.java:88-89 | a new list is empty |
| TaskLists.TaskArrayList.Clear | app/src/main/java/com/example/todolist/activities/MainActivity.java:253 | `clear` empties the list |
| TaskLists.TaskArrayList.Add | app/src/main/java/com/example/todolist/activities/MainActivity.java:166 | `add` appends the task at the end |
| TaskLists.TaskArrayList.Remove | app/src/main/java/com/example/todolist/activities/MainActivity.java:211 | `remove` drops the first occurrence of the reference |
| TaskLists.TaskArrayList.Set | app/src/main/java/com/example/todolist/activities/MainActivity.java:182 | `set` replaces the element at the index and nothing else |
| TaskLists.TaskArrayList.SortByCompletion | app/src/main/java/com/example/todolist/activities/MainActivity.java:264 | the in-place `sort` leaves the stable sort by completion flag of the old contents |
| DateKeys.DigitChar | app/src/main/java/com/example/todolist/activities/MainActivity.java:305 | a digit value prints as a decimal digit character |
| DateKeys.NatToStringDigits | app/src/main/java/com/example/todolist/activities/MainActivity.java:305 | `%d` of a natural number is a non-empty digit string that reads back as the number and starts with '0' only for 0 |
| DateKeys.Pad2TwoDigits | app/src/main/java/com/example/todolist/activities/MainActivity.java:305 | `%02d` of 0..99 is exactly two digits that read back as the number |
| DateKeys.FormatDateRoundTrip | app/src/main/java/com/example/todolist/activities/MainActivity.java:305 | the picked date's key parses back to the same day, 0-based month and year |
| DateKeys.FormatDateInjective | app/src/main/java/com/example/todolist/activities/MainActivity.java:274 | distinct picked dates give distinct keys, so comparing keys compares dates |
| DateKeys.FormatDateShape | app/src/main/java/com/example/todolist/activities/MainActivity.java:274 | a key is two digits, '/', two digits, '/', then the year's digits with no leading zero |
| DateKeys.TitleLabelNamesOtherDates | app/src/main/java/com/example/todolist/activities/MainActivity.java:239-245 | away from today and tomorrow, the title starts with the key, and distinct keys give distinct titles |
| DateKeys.TitleLabelOfPickedDate | app/src/main/java/com/example/todolist/activities/MainActivity.java:239-245 | for a picked key, "Today Tasks" exactly when the key is today's, and "Tomorrow Tasks" exactly when it is tomorrow's and not today's |
| Adapters.StrikeThrough | app/src/main/java/com/example/todolist/adapters/TaskAdapter.java:103-106 | the strike-through bit equals the completion flag and every other paint bit is kept |
| Adapters.TaskViewHolder.constructor | app/src/main/java/com/example/todolist/adapters/TaskAdapter.java:114-121 | a new row holds the paint flags and icon visibilities of the inflated layout, which are parameters |
| Adapters.TaskAdapter.constructor | app/src/main/java/com/example/todolist/adapters/TaskAdapter.java:34-38 | the adapter holds the given list itself, not a copy |
| Adapters.TaskAdapter.UpdateTaskList | app/src/main/java/com/example/todolist/adapters/TaskAdapter.java:41-44 | the adapter now displays the given list object |
| Adapters.TaskAdapter.GetItemCount | app/src/main/java/com/example/todolist/adapters/TaskAdapter.java:53-56 | the item count is the length of the displayed list |
| Adapters.TaskAdapter.UpdateTaskAppearance | app/src/main/java/com/example/todolist/adapters/TaskAdapter.java:94-107 | delete icon visible and edit icon gone exactly for a completed task; the strike-through bit follows the flag; the other paint bits are kept |
| Adapters.TaskAdapter.OnCheckedChanged | app/src/main/java/com/example/todolist/adapters/TaskAdapter.java:74-82 | the task takes the checkbox value; the displayed list becomes the stable sort of its current order, with open tasks first and each group in its previous order; the row's icons follow the checkbox and its paint flags are the old ones with only the strike-through bit set to the checkbox |
| Adapters.ToggleOnAndOffReorders | app/src/main/java/com/example/todolist/adapters/TaskAdapter.java:74-82 | checking and unchecking the first of two open tasks leaves them swapped, while a rebuild from the master list keeps the original order |
| Activities.ViewCount | app/src/main/java/com/example/todolist/activities/MainActivity.java:251-270 | the rebuilt view holds each task as often as the master list does if it is due on the selected date, otherwise never |
| Activities.ViewOrder | app/src/main/java/com/example/todolist/activities/MainActivity.java:251-270 | the rebuilt view has open tasks first, each group in master-list order |
| Activities.ViewEmpty | app/src/main/java/com/example/todolist/activities/MainActivity.java:261-262 | the rebuilt view is empty exactly when no master-list task is due on the selected date |
| Activities.RebuiltWithout | app/src/main/java/com/example/todolist/activities/MainActivity.java:214-216 | a view rebuilt after a delete is an ordered permutation of the due tasks and does not show the deleted task |
| Activities.UntouchedWithout | app/src/main/java/com/example/todolist/activities/MainActivity.java:214 | deleting a task the view does not show leaves the view's contents unchanged |
| Activities.FieldErrors | app/src/main/java/com/example/todolist/activities/MainActivity.java:162-201 | no errors exactly when title, description and date are all non-empty; each field's error is reported exactly when that field is empty |
| Activities.MainActivity.RebuiltIsValid | app/src/main/java/com/example/todolist/activities/MainActivity.java:251-270 | a freshly rebuilt view satisfies the screen invariant |
| Activities.SampleAt | app/src/main/java/com/example/todolist/activities/MainActivity.java:95-102 | each task of a prefix of the sample list has the due date and flag of the line that added it |
| Activities.SampleViewFirstDate | app/src/main/java/com/example/todolist/activities/MainActivity.java:95-102 | on 15/11/2024 the sample list's view is tasks 1 to 4, in the order they were added |
| Activities.SampleViewSecondDate | app/src/main/java/com/example/todolist/activities/MainActivity.java:95-102 | on 20/11/2024 the sample list's view is tasks 7 and 8 (open) before tasks 5 and 6 (completed) |
| Activities.MainActivity.constructor | app/src/main/java/com/example/todolist/activities/MainActivity.java:67-102 | after `onCreate` the master list, the filtered list and the adapter are new objects; the master list holds the eight sample tasks' dates and flags in order; the date read by `onCreate` is selected; the title follows the today/tomorrow/key rule against the clock reads of `filterTasksByDate`, so it is "Today Tasks" when both reads of today agree; the view is rebuilt for the selected date and the invariant holds |
| Activities.MainActivity.SampleTasks | app/src/main/java/com/example/todolist/activities/MainActivity.java:88-102 | a new master list of eight distinct tasks: four open ones due 15/11/2024, then two completed and two open ones due 20/11/2024 |
| Activities.MainActivity.AddSample | app/src/main/java/com/example/todolist/activities/MainActivity.java:95-102 | one sample line appends a task with the given name and description and the next sample date and flag, keeping the earlier tasks and the list free of duplicates |
| Activities.MainActivity.ResetTaskList | app/src/main/java/com/example/todolist/activities/MainActivity.java:251-270 | the filtered list becomes the master list's due tasks, stably sorted; the image shows exactly when that is empty; the adapter displays the filtered list |
| Activities.MainActivity.CollectDueTasks | app/src/main/java/com/example/todolist/activities/MainActivity.java:253-258 | after the loop the filtered list is exactly the due tasks, in master-list order |
| Activities.MainActivity.ShowFilteredTasks | app/src/main/java/com/example/todolist/activities/MainActivity.java:261-266 | the filtered list is sorted and the image shows exactly when it is empty |
| Activities.MainActivity.FilterTasksByDate | app/src/main/java/com/example/todolist/activities/MainActivity.java:234-249 | the title follows the today/tomorrow/key rule; the view is rebuilt for the selected date; the invariant holds; the selected date, the list objects and the master list's tasks are left as they were |
| Activities.MainActivity.OnDatePicked | app/src/main/java/com/example/todolist/activities/MainActivity.java:304-309 | the selected key becomes the formatted picked date; the title and view follow it; the invariant is kept |
| Activities.MainActivity.SaveTask | app/src/main/java/com/example/todolist/activities/MainActivity.java:156-203 | rejected exactly when a field is empty, reporting those fields' errors and changing neither list nor the task being edited; otherwise, with no task to edit, a new open task with the entered fields and date is appended to the master list; with a task to edit, its fields take the entered values, its flag is kept, and the outcome is `Updated` exactly when it is in the master list, which stays the same; the view is rebuilt or left alone accordingly; the invariant is kept |
| Activities.MainActivity.AddTask | app/src/main/java/com/example/todolist/activities/MainActivity.java:165-171 | a fresh open task with the given fields is appended; the view is rebuilt when the task is due on the selected date and is unchanged otherwise; the invariant is kept |
| Activities.MainActivity.UpdateTask | app/src/main/java/com/example/todolist/activities/MainActivity.java:173-188 | the fields are overwritten in every case; found exactly when the task is in the master list; the master list is unchanged; on found the view is rebuilt, otherwise left alone; the invariant is kept |
| Activities.MainActivity.OverwriteFields | app/src/main/java/com/example/todolist/activities/MainActivity.java:174-176 | name, description and date take the new values and the flag is unchanged; editing a task outside the master list leaves the due tasks unchanged |
| Activities.MainActivity.DeleteTask | app/src/main/java/com/example/todolist/activities/MainActivity.java:209-229 | the master list loses the task's first occurrence; neither list holds the task afterwards; a view that did not show it is unchanged; the invariant is kept |
| Activities.MainActivity.RemoveFromLists | app/src/main/java/com/example/todolist/activities/MainActivity.java:210-217 | as for DeleteTask; in addition, when the view showed the task, the view is rebuilt from the new master list |
| Activities.MainActivity.ShowNoDataImage | app/src/main/java/com/example/todolist/activities/MainActivity.java:222-226 | on a consistent screen the visibility update keeps the image's value, and the invariant holds |
| Activities.MainActivity.CheckTask | app/src/main/java/com/example/todolist/adapters/TaskAdapter.java:74-82 | a checkbox change through the adapter keeps the screen invariant; the flag takes the checkbox value; the view is re-sorted in place; the row shows the delete icon exactly when checked and the edit icon otherwise, and its paint flags change only in the strike-through bit, which follows the checkbox |
| Activities.MainActivity.ResortedIsValid | app/src/main/java/com/example/todolist/adapters/TaskAdapter.java:74-82 | changing completion flags and permuting the filtered list so that open tasks stay first keeps the screen invariant |

## Left out

- Android plumbing is not modelled: layouts, dialogs, toasts,
  `notifyDataSetChanged` / `notifyItemRemoved`, text colours and the
  RecyclerView binding of rows to positions.
  - `onBindViewHolder` is represented only by the listener it installs
    (`OnCheckedChanged`).
  - The edit click listener only opens the add/update dialog. The dialog's
    save button is `SaveTask`, which calls `UpdateTask` for an existing
    task. The delete click listener opens a confirmation dialog whose "Yes"
    button is `DeleteTask`.
- The `position` argument passed to the delete callback is not modelled. It
  is only used for `notifyItemRemoved`, and it can be stale after a re-sort.
- `DateUtils.getCurrentDate` / `getTomorrowDate` and `Calendar` are clock
  reads. They are parameters (`today`, `tomorrow`, and the picked day,
  month and year). `onCreate` reads today's date once more on its own, so
  the constructor takes that read as a separate `todayDate`. The picker's minimum date is not modelled.
- `String.format` is modelled with ASCII digits. Locale-specific digits are
  not modelled.
- The key from `showTaskDatePickerDialog` (line 274) fills a text field. The
  model treats that text as the `taskDate` argument of `SaveTask`, so the
  field itself is not modelled.
- TaskLists.InsertionSort: the reference insertion sort reads the whole heap
  (`reads *`). It is a specification device and no method calls it.
- Adapters.TaskAdapter.OnCheckedChanged: the contract does not state that the
  new list is a permutation of the old one. That fact follows from its
  `ensures` through `SortByCompletedPermutes`. The same holds for
  `TaskLists.TaskArrayList.SortByCompletion`.
- Activities.MainActivity.ResetTaskList: the loop and the sort are split into
  the helpers `CollectDueTasks` and `ShowFilteredTasks`.
- Activities.MainActivity.DeleteTask: the contract does not say that a view
  which showed the deleted task is rebuilt from the new master list. That
  fact is stated on `RemoveFromLists`, which carries out the removals.
- Activities.MainActivity.SampleTasks: the contract does not state that the
  eight sample tasks are new objects, nor their names and descriptions.
  Names and descriptions are stated per line on `AddSample`. Freshness of
  each sample task is not stated.
- Activities.MainActivity.constructor: the same holds for the sample tasks
  in the new master list. The contract states their dates and flags only.
