/** The list adapter (adapters/TaskAdapter.java): it holds a reference to the
    list it displays, reports its size, and handles a checkbox change by
    setting the task's flag and re-sorting that same list in place. The
    appearance rule maps the flag to icon visibility and a strike-through
    paint flag. */
module Adapters {
  import opened Models
  import opened TaskLists

  /** `android.view.View.VISIBLE` and `View.GONE`. */
  const VISIBLE: int := 0
  const GONE: int := 8

  /** `android.graphics.Paint.STRIKE_THRU_TEXT_FLAG`. */
  const STRIKE_THRU_TEXT_FLAG: bv32 := 0x10

  function Visibility(shown: bool): (v: int)
  {
    if shown then VISIBLE else GONE
  }

  /** The task name's paint flags: strike-through set for a completed task,
      cleared otherwise. */
  function StrikeThrough(paintFlags: bv32, isCompleted: bool): (r: bv32)
    ensures (r & STRIKE_THRU_TEXT_FLAG != 0) == isCompleted
    ensures r & !STRIKE_THRU_TEXT_FLAG == paintFlags & !STRIKE_THRU_TEXT_FLAG
  {
    if isCompleted then paintFlags | STRIKE_THRU_TEXT_FLAG
    else paintFlags & !STRIKE_THRU_TEXT_FLAG
  }

  /** The widgets of one list row whose state the appearance rule sets. */
  class TaskViewHolder {
    var ivEditTaskVisibility: int
    var ivDeleteTaskVisibility: int
    var taskNamePaintFlags: bv32

    /** The holder only looks its widgets up in the inflated row, so their
        starting state is whatever the row layout gives them. */
    constructor (paintFlags: bv32, editVisibility: int, deleteVisibility: int)
      ensures taskNamePaintFlags == paintFlags
      ensures ivEditTaskVisibility == editVisibility && ivDeleteTaskVisibility == deleteVisibility
    {
      taskNamePaintFlags := paintFlags;
      ivEditTaskVisibility, ivDeleteTaskVisibility := editVisibility, deleteVisibility;
    }
  }

  class TaskAdapter {
    /** The list on screen; the screen passes its own filtered list, so this
        is an alias of it, not a copy. */
    var taskList: TaskArrayList

    constructor (taskList: TaskArrayList)
      ensures this.taskList == taskList
    {
      this.taskList := taskList;
    }

    method UpdateTaskList(filteredTasks: TaskArrayList)
      modifies this`taskList
      ensures taskList == filteredTasks
    {
      taskList := filteredTasks;
    }

    method GetItemCount() returns (n: int)
      ensures n == |taskList.elems|
    {
      n := |taskList.elems|;
    }

    /** Exactly one of the two icons is visible, delete for a completed task
        and edit for an open one, and only the strike-through bit of the
        name's paint flags follows the flag. */
    method UpdateTaskAppearance(holder: TaskViewHolder, isCompleted: bool)
      modifies holder`ivDeleteTaskVisibility, holder`ivEditTaskVisibility, holder`taskNamePaintFlags
      ensures holder.ivDeleteTaskVisibility == (if isCompleted then VISIBLE else GONE)
      ensures holder.ivEditTaskVisibility == (if isCompleted then GONE else VISIBLE)
      ensures (holder.taskNamePaintFlags & STRIKE_THRU_TEXT_FLAG != 0) == isCompleted
      ensures holder.taskNamePaintFlags & !STRIKE_THRU_TEXT_FLAG
              == old(holder.taskNamePaintFlags) & !STRIKE_THRU_TEXT_FLAG
      ensures holder.taskNamePaintFlags == StrikeThrough(old(holder.taskNamePaintFlags), isCompleted)
    {
      holder.ivDeleteTaskVisibility := Visibility(isCompleted);
      holder.ivEditTaskVisibility := Visibility(!isCompleted);
      var paintFlags := holder.taskNamePaintFlags;
      holder.taskNamePaintFlags := StrikeThrough(paintFlags, isCompleted);
    }

    /** The checkbox listener: the task takes the checkbox value, the
        displayed list is re-sorted in place with open tasks first and each
        group in its previous order (a permutation of the list, by
        `SortByCompletedPermutes`), and the row's appearance follows the
        checkbox. */
    method OnCheckedChanged(holder: TaskViewHolder, task: Task, isChecked: bool)
      modifies task`isCompleted, taskList`elems
      modifies holder`ivDeleteTaskVisibility, holder`ivEditTaskVisibility, holder`taskNamePaintFlags
      ensures task.isCompleted == isChecked
      ensures taskList.elems == SortByCompleted(old(taskList.elems))
      ensures CompletedLast(taskList.elems)
      ensures Incomplete(taskList.elems) == Incomplete(old(taskList.elems))
      ensures Completed(taskList.elems) == Completed(old(taskList.elems))
      ensures holder.ivDeleteTaskVisibility == (if isChecked then VISIBLE else GONE)
      ensures holder.ivEditTaskVisibility == (if isChecked then GONE else VISIBLE)
      ensures (holder.taskNamePaintFlags & STRIKE_THRU_TEXT_FLAG != 0) == isChecked
      ensures holder.taskNamePaintFlags == StrikeThrough(old(holder.taskNamePaintFlags), isChecked)
    {
      task.SetCompleted(isChecked);
      ghost var before := taskList.elems;
      taskList.SortByCompletion();
      SortByCompletedStable(before);
      SortByCompletedSorted(before);
      label sorted:
      UpdateTaskAppearance(holder, isChecked);
      PartitionFramed@sorted(taskList.elems);
      PartitionFramed@sorted(before);
    }
  }

  /** The in-place re-sort works on the order already on screen, not on the
      order of the master list: checking an open task and unchecking it again
      moves it behind the other open task. Rebuilding the view from the
      master list `[a, b]` would give `[a, b]` back. */
  method ToggleOnAndOffReorders(adapter: TaskAdapter, holder: TaskViewHolder, a: Task, b: Task)
    requires adapter.taskList.elems == [a, b] && a != b
    requires !a.isCompleted && !b.isCompleted && a.dueDate == b.dueDate
    modifies adapter.taskList`elems, a`isCompleted
    modifies holder`ivDeleteTaskVisibility, holder`ivEditTaskVisibility, holder`taskNamePaintFlags
    ensures adapter.taskList.elems == [b, a]
    ensures SortByCompleted(FilterByDate([a, b], a.dueDate)) == [a, b]
  {
    ghost var date := a.dueDate;
    adapter.OnCheckedChanged(holder, a, true);
    assert a.dueDate == date && b.dueDate == date && !b.isCompleted;
    SortTwo(a, b);
    assert adapter.taskList.elems == [b, a];
    adapter.OnCheckedChanged(holder, a, false);
    assert a.dueDate == date && b.dueDate == date && !b.isCompleted;
    SortTwo(b, a);
    assert adapter.taskList.elems == [b, a];
    FilterByDatePair(a, b, date);
    SortTwo(a, b);
  }
}
