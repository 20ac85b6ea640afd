/** The main screen (activities/MainActivity.java): a master list of tasks,
    the selected date key, and the filtered list that the adapter displays.
    The filtered list is rebuilt from the master list by `resetTaskList`, and
    it is the same list object the adapter holds, so the adapter's in-place
    re-sort after a checkbox change reorders what this screen holds too.
    Today's and tomorrow's keys come from the system clock in the source and
    are parameters here. */
module Activities {
  import opened Models
  import opened TaskLists
  import opened DateKeys
  import opened Adapters

  // ---------------------------------------------------------------------
  // The derived view and the save handler's validation
  // ---------------------------------------------------------------------

  /** The view holds each task exactly as often as the master list does when
      the task is due on `date`, and never otherwise. */
  lemma ViewCount(s: seq<Task>, date: string, t: Task)
    ensures multiset(SortByCompleted(FilterByDate(s, date)))[t] == if t.dueDate == date then multiset(s)[t] else 0
  {
    SortByCompletedPermutes(FilterByDate(s, date));
    FilterByDateCount(s, date, t);
  }

  /** The view lists open tasks before completed ones, and within each group
      keeps the order of the master list. */
  lemma ViewOrder(s: seq<Task>, date: string)
    ensures CompletedLast(SortByCompleted(FilterByDate(s, date)))
    ensures Incomplete(SortByCompleted(FilterByDate(s, date))) == Incomplete(FilterByDate(s, date))
    ensures Completed(SortByCompleted(FilterByDate(s, date))) == Completed(FilterByDate(s, date))
  {
    SortByCompletedSorted(FilterByDate(s, date));
    SortByCompletedStable(FilterByDate(s, date));
  }

  /** The view is empty exactly when no task of the master list is due on
      `date`. */
  lemma ViewEmpty(s: seq<Task>, date: string)
    ensures SortByCompleted(FilterByDate(s, date)) == [] <==> forall t | t in s :: t.dueDate != date
  {
    var f := FilterByDate(s, date);
    SortByCompletedPermutes(f);
    FilterByDateMembers(s, date);
    if f != [] {
      assert f[0] in s && f[0].dueDate == date;
    }
  }

  /** A view rebuilt from a master list that lacks `task` is a sorted
      permutation of the tasks due on `date` and does not show `task`. */
  lemma RebuiltWithout(s: seq<Task>, date: string, task: Task)
    requires task !in s
    ensures multiset(SortByCompleted(FilterByDate(s, date))) == multiset(FilterByDate(s, date))
    ensures CompletedLast(SortByCompleted(FilterByDate(s, date)))
    ensures task !in SortByCompleted(FilterByDate(s, date))
  {
    var f := FilterByDate(s, date);
    FilterByDateMembers(s, date);
    SortByCompletedPermutes(f);
    SortByCompletedSorted(f);
    assert task !in f;
    assert multiset(SortByCompleted(f))[task] == 0;
  }

  /** Removing a task that the view does not show leaves the view's
      contents as they were. */
  lemma UntouchedWithout(view: seq<Task>, shown: seq<Task>, task: Task)
    requires multiset(shown) == multiset(view) && task !in shown
    ensures RemoveFirst(view, task) == view
  {
    assert multiset(view)[task] == 0;
  }

  const TITLE_REQUIRED := "Task title is required"
  const DATE_REQUIRED := "Task date is required"
  const DESCRIPTION_REQUIRED := "Task description is required"

  /** The error set on each empty field of the dialog, in the order the
      handler checks them: title, date, description. */
  function FieldErrors(taskTitle: string, taskDescription: string, taskDate: string): (errors: seq<string>)
    ensures errors == [] <==> taskTitle != "" && taskDescription != "" && taskDate != ""
    ensures TITLE_REQUIRED in errors <==> taskTitle == ""
    ensures DATE_REQUIRED in errors <==> taskDate == ""
    ensures DESCRIPTION_REQUIRED in errors <==> taskDescription == ""
    ensures |errors| <= 3
  {
    (if taskTitle == "" then [TITLE_REQUIRED] else [])
    + (if taskDate == "" then [DATE_REQUIRED] else [])
    + (if taskDescription == "" then [DESCRIPTION_REQUIRED] else [])
  }

  /** What the save button did; the source reports it with a toast or with
      field errors. */
  datatype SaveOutcome = Added | Updated | NotFound | Rejected(errors: seq<string>)

  /** The two due dates of the sample tasks. */
  const FIRST_SAMPLE_DATE := "15/11/2024"
  const SECOND_SAMPLE_DATE := "20/11/2024"

  /** The due date of the sample task at index `i` of `initViews`. */
  function SampleDate(i: int): (date: string)
  {
    if i < 4 then FIRST_SAMPLE_DATE else SECOND_SAMPLE_DATE
  }

  /** The completion flag of the sample task at index `i`. */
  function SampleDone(i: int): (done: bool)
  {
    i == 4 || i == 5
  }

  /** `s` holds the first `k` sample tasks' due dates and flags, in order. */
  predicate SamplesUpTo(s: seq<Task>, k: nat)
    reads s
  {
    |s| == k
    && (k == 0
        || (SamplesUpTo(s[..k - 1], k - 1)
            && s[k - 1].dueDate == SampleDate(k - 1) && s[k - 1].isCompleted == SampleDone(k - 1)))
  }

  /** Each task of a sample prefix has its sample date and flag. */
  lemma {:induction false} SampleAt(s: seq<Task>, k: nat, i: int)
    requires SamplesUpTo(s, k) && 0 <= i < k
    ensures s[i].dueDate == SampleDate(i) && s[i].isCompleted == SampleDone(i)
  {
    if i < k - 1 {
      SampleAt(s[..k - 1], k - 1, i);
    }
  }

  /** `s` is laid out like the eight sample tasks of `initViews`: the first
      four open and due on the first date, the last four due on the second
      date with only the fifth and sixth completed. */
  predicate HoldsSamples(s: seq<Task>)
    reads s
  {
    SamplesUpTo(s, 8)
  }

  /** On 15/11/2024 the sample view shows the first four tasks, all open, in
      the order they were added. */
  lemma SampleViewFirstDate(s: seq<Task>)
    requires HoldsSamples(s)
    ensures SortByCompleted(FilterByDate(s, FIRST_SAMPLE_DATE)) == s[..4]
  {
    var date := FIRST_SAMPLE_DATE;
    var due, rest := s[..4], s[4..];
    forall i | 0 <= i < |due|
      ensures due[i].dueDate == date && !due[i].isCompleted
    {
      SampleAt(s, 8, i);
    }
    forall i | 0 <= i < |rest|
      ensures rest[i].dueDate != date
    {
      SampleAt(s, 8, i + 4);
    }
    assert s == due + rest;
    FilterByDateAppend(due, rest, date);
    FilterByDateUnchanged(due, date);
    FilterByDateNone(rest, date);
    assert FilterByDate(s, date) == due;
    AllIncomplete(due);
    assert Incomplete(due) == due;
    assert Completed(due) == [];
    assert SortByCompleted(due) == due;
  }

  /** On 20/11/2024 the sample view shows tasks 7 and 8 (open) before tasks 5
      and 6 (completed). */
  lemma SampleViewSecondDate(s: seq<Task>)
    requires HoldsSamples(s)
    ensures SortByCompleted(FilterByDate(s, SECOND_SAMPLE_DATE)) == [s[6], s[7], s[4], s[5]]
  {
    var date := SECOND_SAMPLE_DATE;
    var rest, done, open := s[..4], s[4..6], s[6..];
    forall i | 0 <= i < |rest|
      ensures rest[i].dueDate != date
    {
      SampleAt(s, 8, i);
    }
    forall i | 0 <= i < |done|
      ensures done[i].dueDate == date && done[i].isCompleted
    {
      SampleAt(s, 8, i + 4);
    }
    forall i | 0 <= i < |open|
      ensures open[i].dueDate == date && !open[i].isCompleted
    {
      SampleAt(s, 8, i + 6);
    }
    assert s == rest + (done + open);
    FilterByDateAppend(rest, done + open, date);
    FilterByDateNone(rest, date);
    FilterByDateUnchanged(done + open, date);
    assert FilterByDate(s, date) == done + open;
    IncompleteAppend(done, open);
    AllCompleted(done);
    AllIncomplete(open);
    assert Incomplete(done + open) == open && Completed(done + open) == done;
    assert open == [s[6], s[7]] && done == [s[4], s[5]];
  }

  // ---------------------------------------------------------------------
  // The screen
  // ---------------------------------------------------------------------

  class MainActivity {
    var taskList: TaskArrayList
    var taskListFilter: TaskArrayList
    var taskAdapter: TaskAdapter
    var selectedDate: string
    /** The text of the title view. */
    var title: string
    /** The visibility of the "no data" image. */
    var ivNoDataVisibility: int

    /** The screen's invariant between two user actions: the adapter shows
        the filtered list itself; the master list never holds a task twice;
        the filtered list holds exactly the master list's tasks due on the
        selected date, open ones first; the "no data" image is shown exactly
        when the filtered list is empty. The order within each group is not
        fixed here: a checkbox change re-sorts the list on screen, not the
        master list. */
    ghost predicate Valid()
      reads this, taskList, taskListFilter, taskAdapter, taskList.elems, taskListFilter.elems
    {
      taskList != taskListFilter
      && taskAdapter.taskList == taskListFilter
      && NoDuplicates(taskList.elems)
      && multiset(taskListFilter.elems) == multiset(FilterByDate(taskList.elems, selectedDate))
      && CompletedLast(taskListFilter.elems)
      && ivNoDataVisibility == Visibility(taskListFilter.elems == [])
    }

    /** A freshly rebuilt view satisfies the invariant. */
    lemma RebuiltIsValid()
      requires taskList != taskListFilter && taskAdapter.taskList == taskListFilter
      requires NoDuplicates(taskList.elems)
      requires taskListFilter.elems == SortByCompleted(FilterByDate(taskList.elems, selectedDate))
      requires ivNoDataVisibility == Visibility(taskListFilter.elems == [])
      ensures Valid()
    {
      SortByCompletedPermutes(FilterByDate(taskList.elems, selectedDate));
      SortByCompletedSorted(FilterByDate(taskList.elems, selectedDate));
    }

    /** `onCreate` with `initViews`: new master and filtered lists and a new
        adapter over the filtered list, the eight sample tasks, the date read
        by `onCreate` selected, and the view filtered for it. The clock is
        read twice: `todayDate` by `onCreate`, `today` and `tomorrow` by
        `filterTasksByDate`; the title is "Today Tasks" when the two reads of
        today's date agree. */
    constructor (todayDate: string, today: string, tomorrow: string)
      ensures Valid()
      ensures fresh(taskList) && fresh(taskListFilter) && fresh(taskAdapter)
      ensures HoldsSamples(taskList.elems)
      ensures selectedDate == todayDate && title == TitleLabel(todayDate, today, tomorrow)
      ensures todayDate == today ==> title == "Today Tasks"
      ensures taskListFilter.elems == SortByCompleted(FilterByDate(taskList.elems, todayDate))
    {
      var master := SampleTasks();
      var filter := new TaskArrayList();
      var adapter := new TaskAdapter(filter);
      taskList, taskListFilter, taskAdapter := master, filter, adapter;
      selectedDate := todayDate;
      title := "";
      ivNoDataVisibility := VISIBLE;
      new;
      ghost var samples := taskList.elems;
      assert HoldsSamples(samples);
      FilterTasksByDate(todayDate, today, tomorrow);
      assert taskList == master && taskListFilter == filter && taskAdapter == adapter;
      assert selectedDate == todayDate;
      assert taskList.elems == samples;
    }

    /** The eight sample tasks `initViews` puts in a new master list, each a
        new object. */
    static method SampleTasks() returns (master: TaskArrayList)
      ensures fresh(master)
      ensures HoldsSamples(master.elems) && NoDuplicates(master.elems)
    {
      master := new TaskArrayList();
      AddSample(master, "Task 1", "Description 1", false, "15/11/2024");
      AddSample(master, "Task 2", "Description 2", false, "15/11/2024");
      AddSample(master, "Task 3", "Description 3", false, "15/11/2024");
      AddSample(master, "Task 4", "Description 4", false, "15/11/2024");
      AddSample(master, "Task 5", "Description 5", true, "20/11/2024");
      AddSample(master, "Task 6", "Description 6", true, "20/11/2024");
      AddSample(master, "Task 7", "Description 7", false, "20/11/2024");
      AddSample(master, "Task 8", "Description 8", false, "20/11/2024");
    }

    /** One `taskList.add(new Task(...))` line of `initViews`: the next
        sample task is appended. */
    static method AddSample(master: TaskArrayList, name: string, description: string,
                            isCompleted: bool, dueDate: string)
      requires SamplesUpTo(master.elems, |master.elems|) && NoDuplicates(master.elems)
      requires dueDate == SampleDate(|master.elems|) && isCompleted == SampleDone(|master.elems|)
      modifies master`elems
      ensures SamplesUpTo(master.elems, |old(master.elems)| + 1) && NoDuplicates(master.elems)
      ensures master.elems[..|old(master.elems)|] == old(master.elems)
      ensures var t := master.elems[|old(master.elems)|];
        t.name == name && t.description == description
    {
      var t := new Task(name, description, isCompleted, dueDate);
      AppendNoDuplicates(master.elems, t);
      ghost var before := master.elems;
      master.Add(t);
      assert master.elems[..|before|] == before;
    }

    /** `resetTaskList`: refill the filtered list from the master list, sort
        it and set the "no data" image, then hand the list to the adapter.
        The master list is only read. */
    method ResetTaskList()
      requires taskList != taskListFilter
      modifies taskListFilter`elems, taskAdapter`taskList, this`ivNoDataVisibility
      ensures taskListFilter.elems == SortByCompleted(FilterByDate(taskList.elems, selectedDate))
      ensures ivNoDataVisibility == Visibility(taskListFilter.elems == [])
      ensures taskAdapter.taskList == taskListFilter
    {
      CollectDueTasks();
      ghost var due := taskListFilter.elems;
      ShowFilteredTasks();
      assert FilterByDate(taskList.elems, selectedDate) == due;
      taskAdapter.UpdateTaskList(taskListFilter);
    }

    /** The first half of `resetTaskList`: clear the filtered list, then walk
        the master list in order and append every task due on the selected
        date. */
    method CollectDueTasks()
      requires taskList != taskListFilter
      modifies taskListFilter`elems
      ensures taskListFilter.elems == FilterByDate(taskList.elems, selectedDate)
    {
      taskListFilter.Clear();
      for i := 0 to |taskList.elems|
        invariant taskListFilter.elems == FilterByDate(taskList.elems[..i], selectedDate)
      {
        var task := taskList.elems[i];
        assert taskList.elems[..i + 1][..i] == taskList.elems[..i];
        if task.GetDueDate() == selectedDate {
          taskListFilter.Add(task);
        }
      }
      assert taskList.elems[..|taskList.elems|] == taskList.elems;
    }

    /** The second half of `resetTaskList`: an empty filtered list shows the
        "no data" image; otherwise the list is sorted and the image hidden. */
    method ShowFilteredTasks()
      modifies taskListFilter`elems, this`ivNoDataVisibility
      ensures taskListFilter.elems == SortByCompleted(old(taskListFilter.elems))
      ensures ivNoDataVisibility == Visibility(taskListFilter.elems == [])
    {
      if taskListFilter.elems == [] {
        ivNoDataVisibility := VISIBLE;
      } else {
        taskListFilter.SortByCompletion();
        ivNoDataVisibility := GONE;
      }
    }

    /** `filterTasksByDate`: the title names the date passed in (the callers
        always pass the selected date), then the view is rebuilt for the
        selected date. */
    method FilterTasksByDate(date: string, today: string, tomorrow: string)
      requires taskList != taskListFilter && NoDuplicates(taskList.elems)
      modifies taskListFilter`elems, taskAdapter`taskList, this`ivNoDataVisibility, this`title
      ensures Valid()
      ensures title == TitleLabel(date, today, tomorrow)
      ensures taskListFilter.elems == SortByCompleted(FilterByDate(taskList.elems, selectedDate))
      ensures taskList == old(taskList) && taskListFilter == old(taskListFilter) && taskAdapter == old(taskAdapter)
      ensures selectedDate == old(selectedDate) && unchanged(taskList.elems)
    {
      title := TitleLabel(date, today, tomorrow);
      ResetTaskList();
      RebuiltIsValid();
    }

    /** The calendar menu's date callback: the picked date becomes the
        selected key and the screen is filtered for it. */
    method OnDatePicked(year: int, month: int, day: int, today: string, tomorrow: string)
      requires Valid()
      modifies this`selectedDate, this`title, this`ivNoDataVisibility
      modifies taskListFilter`elems, taskAdapter`taskList
      ensures Valid()
      ensures selectedDate == FormatDate(day, month, year)
      ensures title == TitleLabel(selectedDate, today, tomorrow)
      ensures taskListFilter.elems == SortByCompleted(FilterByDate(taskList.elems, selectedDate))
    {
      var currentSelectedDate := FormatDate(day, month, year);
      selectedDate := currentSelectedDate;
      FilterTasksByDate(currentSelectedDate, today, tomorrow);
    }

    /** The save button of the add/update dialog. `taskToEdit` is null when
        the dialog was opened to add a task. */
    method SaveTask(taskToEdit: Task?, taskTitle: string, taskDescription: string, taskDate: string)
      returns (outcome: SaveOutcome)
      requires Valid()
      modifies taskList`elems, taskListFilter`elems, taskAdapter`taskList, this`ivNoDataVisibility
      modifies if taskToEdit == null then {} else {taskToEdit}
      ensures Valid()
      ensures outcome.Rejected? <==> FieldErrors(taskTitle, taskDescription, taskDate) != []
      ensures outcome.Rejected? ==> outcome.errors == FieldErrors(taskTitle, taskDescription, taskDate)
      ensures outcome.Rejected? ==> taskList.elems == old(taskList.elems) && taskListFilter.elems == old(taskListFilter.elems)
      ensures outcome.Rejected? && taskToEdit != null ==> unchanged(taskToEdit)
      ensures outcome.Added? <==> !outcome.Rejected? && taskToEdit == null
      ensures outcome.Added? ==>
        |taskList.elems| == |old(taskList.elems)| + 1
        && taskList.elems[..|old(taskList.elems)|] == old(taskList.elems)
        && var t := taskList.elems[|old(taskList.elems)|];
           fresh(t) && t.name == taskTitle && t.description == taskDescription
           && !t.isCompleted && t.dueDate == taskDate
      ensures outcome.Updated? <==> !outcome.Rejected? && taskToEdit != null && taskToEdit in old(taskList.elems)
      ensures outcome.Updated? || outcome.NotFound? ==> taskList.elems == old(taskList.elems)
      ensures taskToEdit != null && !outcome.Rejected? ==>
        taskToEdit.name == taskTitle && taskToEdit.description == taskDescription && taskToEdit.dueDate == taskDate
      ensures taskToEdit != null ==> taskToEdit.isCompleted == old(taskToEdit.isCompleted)
      ensures outcome.Updated? || (outcome.Added? && taskDate == selectedDate) ==>
        taskListFilter.elems == SortByCompleted(FilterByDate(taskList.elems, selectedDate))
      ensures outcome.NotFound? || (outcome.Added? && taskDate != selectedDate) ==>
        taskListFilter.elems == old(taskListFilter.elems)
    {
      var errors := FieldErrors(taskTitle, taskDescription, taskDate);
      if errors == [] {
        if taskToEdit == null {
          var _ := AddTask(taskTitle, taskDescription, taskDate);
          outcome := Added;
        } else {
          var found := UpdateTask(taskToEdit, taskTitle, taskDescription, taskDate);
          outcome := if found then Updated else NotFound;
        }
      } else {
        outcome := Rejected(errors);
      }
    }

    /** The add branch of the save handler: a new open task goes to the end of
        the master list; the view is rebuilt only when the task is due on the
        selected date, since it is unchanged otherwise. */
    method AddTask(taskTitle: string, taskDescription: string, taskDate: string) returns (newTask: Task)
      requires Valid()
      modifies taskList`elems, taskListFilter`elems, taskAdapter`taskList, this`ivNoDataVisibility
      ensures Valid()
      ensures fresh(newTask)
      ensures newTask.name == taskTitle && newTask.description == taskDescription
      ensures !newTask.isCompleted && newTask.dueDate == taskDate
      ensures taskList.elems == old(taskList.elems) + [newTask]
      ensures taskDate == selectedDate ==> taskListFilter.elems == SortByCompleted(FilterByDate(taskList.elems, selectedDate))
      ensures taskDate != selectedDate ==> taskListFilter.elems == old(taskListFilter.elems)
    {
      newTask := new Task(taskTitle, taskDescription, false, taskDate);
      AppendNoDuplicates(taskList.elems, newTask);
      ghost var before := taskList.elems;
      taskList.Add(newTask);
      if taskDate == selectedDate {
        ResetTaskList();
        RebuiltIsValid();
      } else {
        FilterByDateAppend(before, [newTask], selectedDate);
        FilterByDateSingleton(newTask, selectedDate);
        assert FilterByDate(taskList.elems, selectedDate) == FilterByDate(before, selectedDate);
      }
    }

    /** The update branch of the save handler: the task's name, description
        and date are overwritten first; only then is it looked up by
        reference. When found, the same object is stored back at its index
        and the view is rebuilt; when not, the lists are left alone but the
        task keeps its new fields. Its completion flag never changes. */
    method UpdateTask(taskToEdit: Task, taskTitle: string, taskDescription: string, taskDate: string)
      returns (found: bool)
      requires Valid()
      modifies taskList`elems, taskListFilter`elems, taskAdapter`taskList, this`ivNoDataVisibility
      modifies taskToEdit`name, taskToEdit`description, taskToEdit`dueDate
      ensures Valid()
      ensures taskToEdit.name == taskTitle && taskToEdit.description == taskDescription
      ensures taskToEdit.dueDate == taskDate
      ensures found <==> taskToEdit in old(taskList.elems)
      ensures taskList.elems == old(taskList.elems)
      ensures found ==> taskListFilter.elems == SortByCompleted(FilterByDate(taskList.elems, selectedDate))
      ensures !found ==> taskListFilter.elems == old(taskListFilter.elems)
    {
      OverwriteFields(taskToEdit, taskTitle, taskDescription, taskDate);
      var taskIndex := IndexOf(taskList.elems, taskToEdit);
      if taskIndex != -1 {
        taskList.Set(taskIndex, taskToEdit);
        assert taskList.elems == old(taskList.elems);
        ResetTaskList();
        RebuiltIsValid();
        found := true;
        return;
      }
      assert CompletedLast(taskListFilter.elems);
      found := false;
    }

    /** The three setter calls that open the update branch. A task that is
        not in the master list may be edited freely: the tasks due on the
        selected date stay the same objects with the same dates. */
    method OverwriteFields(taskToEdit: Task, taskTitle: string, taskDescription: string, taskDate: string)
      modifies taskToEdit`name, taskToEdit`description, taskToEdit`dueDate
      ensures taskToEdit.name == taskTitle && taskToEdit.description == taskDescription
      ensures taskToEdit.dueDate == taskDate
      ensures taskToEdit.isCompleted == old(taskToEdit.isCompleted)
      ensures taskToEdit !in taskList.elems ==>
        FilterByDate(taskList.elems, selectedDate) == old(FilterByDate(taskList.elems, selectedDate))
    {
      taskToEdit.SetName(taskTitle);
      taskToEdit.SetDescription(taskDescription);
      taskToEdit.SetDueDate(taskDate);
      if taskToEdit !in taskList.elems {
        FilterByDateFramed(taskList.elems, selectedDate);
      }
    }

    /** The confirmed delete: the first occurrence of the task (by reference)
        leaves the master list; if the filtered list holds it, it is removed
        there and the view is rebuilt; then the "no data" image is set. */
    method DeleteTask(task: Task)
      requires Valid()
      modifies taskList`elems, taskListFilter`elems, taskAdapter`taskList, this`ivNoDataVisibility
      ensures Valid()
      ensures taskList.elems == RemoveFirst(old(taskList.elems), task)
      ensures task !in taskList.elems && task !in taskListFilter.elems
      ensures task !in old(taskListFilter.elems) ==> taskListFilter.elems == old(taskListFilter.elems)
    {
      RemoveFromLists(task);
      ShowNoDataImage();
    }

    /** The last step of the delete handler: the image follows the filtered
        list. The view is already consistent at that point, so the image
        keeps the value it had. */
    method ShowNoDataImage()
      requires Valid()
      modifies this`ivNoDataVisibility
      ensures Valid()
      ensures ivNoDataVisibility == old(ivNoDataVisibility)
    {
      if taskListFilter.elems == [] {
        ivNoDataVisibility := VISIBLE;
      } else {
        ivNoDataVisibility := GONE;
      }
    }

    /** The removals of the delete handler: the master list loses the task,
        and the filtered list either loses it and is rebuilt, which also sets
        the "no data" image, or did not hold it and stays as it was. */
    method RemoveFromLists(task: Task)
      requires Valid()
      modifies taskList`elems, taskListFilter`elems, taskAdapter`taskList, this`ivNoDataVisibility
      ensures Valid()
      ensures taskList.elems == RemoveFirst(old(taskList.elems), task)
      ensures task !in taskList.elems && task !in taskListFilter.elems
      ensures task in old(taskListFilter.elems) ==> taskListFilter.elems == SortByCompleted(FilterByDate(taskList.elems, selectedDate))
      ensures task !in old(taskListFilter.elems) ==> taskListFilter.elems == old(taskListFilter.elems)
    {
      ghost var before := taskList.elems;
      ghost var viewBefore := FilterByDate(before, selectedDate);
      RemoveFirstNoDuplicates(before, task);
      FilterByDateRemoveFirst(before, task, selectedDate);
      ghost var viewAfter := FilterByDate(RemoveFirst(before, task), selectedDate);
      taskList.Remove(task);
      assert FilterByDate(taskList.elems, selectedDate) == viewAfter;
      if task in taskListFilter.elems {
        taskListFilter.Remove(task);
        ResetTaskList();
        RebuiltWithout(taskList.elems, selectedDate, task);
        RebuiltIsValid();
      } else {
        UntouchedWithout(viewBefore, taskListFilter.elems, task);
      }
    }

    /** A checkbox change on a row of this screen: the adapter's listener sets
        the flag and re-sorts the shared filtered list, and the screen stays
        valid, with the master list untouched. */
    method CheckTask(holder: TaskViewHolder, task: Task, isChecked: bool)
      requires Valid()
      modifies task`isCompleted, taskListFilter`elems
      modifies holder`ivDeleteTaskVisibility, holder`ivEditTaskVisibility, holder`taskNamePaintFlags
      ensures Valid()
      ensures task.isCompleted == isChecked
      ensures taskListFilter.elems == SortByCompleted(old(taskListFilter.elems))
      ensures holder.ivDeleteTaskVisibility == Visibility(isChecked)
      ensures holder.ivEditTaskVisibility == Visibility(!isChecked)
      ensures holder.taskNamePaintFlags == StrikeThrough(old(holder.taskNamePaintFlags), isChecked)
    {
      ghost var before := taskListFilter.elems;
      taskAdapter.OnCheckedChanged(holder, task, isChecked);
      SortByCompletedPermutes(before);
      ResortedIsValid();
    }

    /** A change of completion flags and an in-place permutation of the
        filtered list that keeps open tasks first leave the screen valid. */
    twostate lemma ResortedIsValid()
      requires old(Valid()) && unchanged(this) && unchanged(taskList, taskAdapter)
      requires forall t | t in taskList.elems :: t.dueDate == old(t.dueDate)
      requires multiset(taskListFilter.elems) == multiset(old(taskListFilter.elems))
      requires CompletedLast(taskListFilter.elems)
      ensures Valid()
    {
      FilterByDateFramed(taskList.elems, selectedDate);
      assert (taskListFilter.elems == []) == (old(taskListFilter.elems) == []);
    }
  }
}
