/** The list operations the screen performs on `List<Task>`: the date filter
    built by `resetTaskList`, the stable sort by `Boolean.compare` on the
    completion flag, and the identity-based `indexOf` and `remove(Object)`.
    `Task` does not override `equals`, so every lookup here compares
    references. */
module TaskLists {
  import opened Models

  /** Java's `Boolean.compare(x, y)`: false orders before true. */
  function BooleanCompare(x: bool, y: bool): (r: int)
    ensures r == 0 <==> x == y
    ensures r < 0 <==> !x && y
    ensures r > 0 <==> x && !y
  {
    if x == y then 0 else if x then 1 else -1
  }

  // ---------------------------------------------------------------------
  // Identity lookup and removal (`List.indexOf`, `List.remove(Object)`)
  // ---------------------------------------------------------------------

  /** No task occurs twice in the list. */
  predicate NoDuplicates(s: seq<Task>)
  {
    forall t | t in multiset(s) :: multiset(s)[t] == 1
  }

  /** Index of the first occurrence of the reference `t`, or -1. */
  function IndexOf(s: seq<Task>, t: Task): (r: int)
    ensures -1 <= r < |s|
    ensures r == -1 <==> t !in s
    ensures r >= 0 ==> s[r] == t && t !in s[..r]
  {
    if s == [] then -1
    else if s[0] == t then 0
    else
      var k := IndexOf(s[1..], t);
      assert s[1..][..k + 1] == s[1..k + 2] by { assert k >= 0 ==> s[1..][..k] == s[1..k + 1]; }
      if k < 0 then -1 else k + 1
  }

  /** The list after `remove(t)`: the first occurrence of `t` is dropped. */
  function RemoveFirst(s: seq<Task>, t: Task): (r: seq<Task>)
    ensures t !in s ==> r == s
    ensures t in s ==> |r| == |s| - 1 && multiset(r) == multiset(s) - multiset{t}
  {
    var i := IndexOf(s, t);
    if i < 0 then s
    else
      assert s == s[..i] + [t] + s[i + 1..];
      s[..i] + s[i + 1..]
  }

  lemma RemoveFirstKeepsOrder(s: seq<Task>, t: Task)
    requires t in s
    ensures exists i :: 0 <= i < |s| && s[i] == t && t !in s[..i] && RemoveFirst(s, t) == s[..i] + s[i + 1..]
  {
    var i := IndexOf(s, t);
    assert 0 <= i < |s| && s[i] == t && t !in s[..i] && RemoveFirst(s, t) == s[..i] + s[i + 1..];
  }

  /** Appending a task the list does not hold keeps it free of duplicates. */
  lemma AppendNoDuplicates(s: seq<Task>, t: Task)
    requires NoDuplicates(s) && t !in s
    ensures NoDuplicates(s + [t])
  {
    assert multiset(s + [t]) == multiset(s) + multiset{t};
  }

  /** In a list without duplicates, `remove` takes the task out entirely and
      keeps the list free of duplicates. */
  lemma RemoveFirstNoDuplicates(s: seq<Task>, t: Task)
    requires NoDuplicates(s)
    ensures NoDuplicates(RemoveFirst(s, t))
    ensures t !in RemoveFirst(s, t)
  {
    if t in s {
      assert multiset(RemoveFirst(s, t))[t] == 0;
    }
  }

  /** `remove` drops the occurrence that follows a prefix free of `t`. */
  lemma RemoveFirstAfterPrefix(a: seq<Task>, t: Task, b: seq<Task>)
    requires t !in a
    ensures RemoveFirst(a + [t] + b, t) == a + b
  {
    var s := a + [t] + b;
    assert s[|a|] == t;
    assert s[..|a|] == a;
    assert IndexOf(s, t) == |a|;
    assert s[|a| + 1..] == b;
  }

  // ---------------------------------------------------------------------
  // The date filter of `resetTaskList`
  // ---------------------------------------------------------------------

  /** The tasks of `s` whose due date is exactly `date`, in the order of `s`:
      what the loop over `taskList` appends to the filtered list. */
  function FilterByDate(s: seq<Task>, date: string): (r: seq<Task>)
    reads s
  {
    if s == [] then []
    else
      var x := s[|s| - 1];
      FilterByDate(s[..|s| - 1], date) + (if x.dueDate == date then [x] else [])
  }

  /** The filter holds exactly the tasks of `s` due on `date`. */
  lemma {:induction false} FilterByDateMembers(s: seq<Task>, date: string)
    ensures |FilterByDate(s, date)| <= |s|
    ensures forall t | t in FilterByDate(s, date) :: t in s && t.dueDate == date
    ensures forall t | t in s && t.dueDate == date :: t in FilterByDate(s, date)
  {
    if s != [] {
      var p := s[..|s| - 1];
      assert s == p + [s[|s| - 1]];
      FilterByDateMembers(p, date);
    }
  }

  /** No more and no fewer: each task occurs in the filter exactly as often
      as in `s` when its date matches, and never otherwise. */
  lemma {:induction false} FilterByDateCount(s: seq<Task>, date: string, t: Task)
    ensures multiset(FilterByDate(s, date))[t] == if t.dueDate == date then multiset(s)[t] else 0
  {
    if s != [] {
      var p := s[..|s| - 1];
      assert s == p + [s[|s| - 1]];
      FilterByDateCount(p, date, t);
    }
  }

  /** The filter keeps relative order: filtering a concatenation filters
      each part and concatenates the results. */
  lemma {:induction false} FilterByDateAppend(a: seq<Task>, b: seq<Task>, date: string)
    ensures FilterByDate(a + b, date) == FilterByDate(a, date) + FilterByDate(b, date)
  {
    if b == [] {
      assert a + b == a;
    } else {
      var b' := b[..|b| - 1];
      assert (a + b)[..|a + b| - 1] == a + b';
      FilterByDateAppend(a, b', date);
    }
  }

  lemma FilterByDateSingleton(t: Task, date: string)
    ensures FilterByDate([t], date) == if t.dueDate == date then [t] else []
  {
    assert [t][..0] == [];
  }

  /** Only tasks of `s` that are due on `date` pass the filter. */
  lemma FilterByDateOnly(s: seq<Task>, date: string, t: Task)
    ensures t in FilterByDate(s, date) ==> t in s && t.dueDate == date
  {
    FilterByDateMembers(s, date);
  }

  /** A list of tasks all due on `date` passes the filter whole. */
  lemma {:induction false} FilterByDateUnchanged(s: seq<Task>, date: string)
    requires forall i | 0 <= i < |s| :: s[i].dueDate == date
    ensures FilterByDate(s, date) == s
  {
    if s != [] {
      var p := s[..|s| - 1];
      assert s == p + [s[|s| - 1]];
      FilterByDateUnchanged(p, date);
    }
  }

  /** A list without a task due on `date` passes nothing. */
  lemma {:induction false} FilterByDateNone(s: seq<Task>, date: string)
    requires forall i | 0 <= i < |s| :: s[i].dueDate != date
    ensures FilterByDate(s, date) == []
  {
    if s != [] {
      FilterByDateNone(s[..|s| - 1], date);
    }
  }

  /** Removing a task that follows a prefix without it, before or after
      filtering, gives the same list. */
  lemma FilterByDateRemoveMiddle(a: seq<Task>, t: Task, b: seq<Task>, date: string)
    requires t !in a
    ensures FilterByDate(a + b, date) == RemoveFirst(FilterByDate(a + [t] + b, date), t)
  {
    if t.dueDate == date {
      FilterByDateRemoveDue(a, t, b, date);
    } else {
      FilterByDateRemoveNotDue(a, t, b, date);
    }
  }

  /** The case of `FilterByDateRemoveMiddle` where the task passes the
      filter: its first occurrence in the filtered list follows the filtered
      prefix. */
  lemma FilterByDateRemoveDue(a: seq<Task>, t: Task, b: seq<Task>, date: string)
    requires t !in a && t.dueDate == date
    ensures FilterByDate(a + b, date) == RemoveFirst(FilterByDate(a + [t] + b, date), t)
  {
    FilterByDateAppend(a + [t], b, date);
    FilterByDateAppend(a, [t], date);
    FilterByDateAppend(a, b, date);
    FilterByDateSingleton(t, date);
    FilterByDateOnly(a, date, t);
    RemoveFirstAfterPrefix(FilterByDate(a, date), t, FilterByDate(b, date));
  }

  /** The case of `FilterByDateRemoveMiddle` where the task does not pass
      the filter: both sides are the filter of `a + b`. */
  lemma FilterByDateRemoveNotDue(a: seq<Task>, t: Task, b: seq<Task>, date: string)
    requires t.dueDate != date
    ensures FilterByDate(a + b, date) == RemoveFirst(FilterByDate(a + [t] + b, date), t)
  {
    FilterByDateAppend(a, [t], date);
    FilterByDateSingleton(t, date);
    assert FilterByDate(a + [t], date) == FilterByDate(a, date);
    FilterByDateAppend(a + [t], b, date);
    FilterByDateAppend(a, b, date);
    assert FilterByDate(a + [t] + b, date) == FilterByDate(a + b, date);
    FilterByDateOnly(a + b, date, t);
  }

  lemma FilterByDatePair(a: Task, b: Task, date: string)
    requires a.dueDate == date && b.dueDate == date
    ensures FilterByDate([a, b], date) == [a, b]
  {
    assert [a, b] == [a] + [b];
    FilterByDateAppend([a], [b], date);
    FilterByDateSingleton(a, date);
    FilterByDateSingleton(b, date);
  }

  /** Removing a task from the master list and then filtering gives the same
      list as filtering and then removing it from the filtered list. */
  lemma FilterByDateRemoveFirst(s: seq<Task>, t: Task, date: string)
    ensures FilterByDate(RemoveFirst(s, t), date) == RemoveFirst(FilterByDate(s, date), t)
  {
    if t in s {
      var i := IndexOf(s, t);
      var a, b := s[..i], s[i + 1..];
      assert s == a + [t] + b;
      FilterByDateRemoveMiddle(a, t, b, date);
    } else {
      FilterByDateMembers(s, date);
    }
  }

  /** The filter depends on the due dates only: changing any other field of
      the tasks leaves it as it was. `date` is marked `new` only because the
      verifier mishandles a two-state lemma with more than one parameter
      that needs an allocation check; a string needs none. */
  twostate lemma FilterByDateFramed(s: seq<Task>, new date: string)
    requires forall t | t in s :: t.dueDate == old(t.dueDate)
    ensures FilterByDate(s, date) == old(FilterByDate(s, date))
  {
    var i := 0;
    while i < |s|
      invariant 0 <= i <= |s|
      invariant FilterByDate(s[..i], date) == old(FilterByDate(s[..i], date))
    {
      assert s[..i + 1][..i] == s[..i];
      i := i + 1;
    }
    assert s[..|s|] == s;
  }

  // ---------------------------------------------------------------------
  // The stable sort by `Boolean.compare(t1.isCompleted(), t2.isCompleted())`
  // ---------------------------------------------------------------------

  /** The incomplete tasks of `s`, in order. */
  function Incomplete(s: seq<Task>): (r: seq<Task>)
    reads s
  {
    if s == [] then []
    else
      var p := s[..|s| - 1];
      var x := s[|s| - 1];
      Incomplete(p) + (if x.isCompleted then [] else [x])
  }

  /** The completed tasks of `s`, in order. */
  function Completed(s: seq<Task>): (r: seq<Task>)
    reads s
  {
    if s == [] then []
    else
      var p := s[..|s| - 1];
      var x := s[|s| - 1];
      Completed(p) + (if x.isCompleted then [x] else [])
  }

  /** The two parts hold exactly the open and the completed tasks of `s`. */
  lemma {:induction false} PartitionMembers(s: seq<Task>)
    ensures forall t | t in Incomplete(s) :: t in s && !t.isCompleted
    ensures forall t | t in s && !t.isCompleted :: t in Incomplete(s)
    ensures forall t | t in Completed(s) :: t in s && t.isCompleted
    ensures forall t | t in s && t.isCompleted :: t in Completed(s)
  {
    if s != [] {
      var p := s[..|s| - 1];
      assert s == p + [s[|s| - 1]];
      PartitionMembers(p);
    }
  }

  /** The partition depends on the completion flags only: changing any other
      field of the tasks, or any other object, leaves both parts as they were. */
  twostate lemma PartitionFramed(s: seq<Task>)
    requires forall t | t in s :: t.isCompleted == old(t.isCompleted)
    ensures Incomplete(s) == old(Incomplete(s))
    ensures Completed(s) == old(Completed(s))
  {
    var i := 0;
    while i < |s|
      invariant 0 <= i <= |s|
      invariant Incomplete(s[..i]) == old(Incomplete(s[..i]))
      invariant Completed(s[..i]) == old(Completed(s[..i]))
    {
      assert s[..i + 1][..i] == s[..i];
      i := i + 1;
    }
    assert s[..|s|] == s;
  }

  /** Every incomplete task precedes every completed one. */
  ghost predicate CompletedLast(s: seq<Task>)
    reads s
  {
    forall i, j :: 0 <= i < j < |s| && s[i].isCompleted ==> s[j].isCompleted
  }

  /** The list after a stable sort whose comparator is `Boolean.compare` on
      the completion flag. */
  function SortByCompleted(s: seq<Task>): (r: seq<Task>)
    reads s
  {
    Incomplete(s) + Completed(s)
  }

  lemma {:induction false} IncompleteAppend(a: seq<Task>, b: seq<Task>)
    ensures Incomplete(a + b) == Incomplete(a) + Incomplete(b)
    ensures Completed(a + b) == Completed(a) + Completed(b)
  {
    if b == [] {
      assert a + b == a;
    } else {
      var b' := b[..|b| - 1];
      assert (a + b)[..|a + b| - 1] == a + b';
      IncompleteAppend(a, b');
    }
  }

  lemma {:induction false} AllIncomplete(s: seq<Task>)
    requires forall t | t in s :: !t.isCompleted
    ensures Incomplete(s) == s && Completed(s) == []
  {
    if s != [] {
      var p := s[..|s| - 1];
      assert s == p + [s[|s| - 1]];
      AllIncomplete(p);
    }
  }

  lemma {:induction false} AllCompleted(s: seq<Task>)
    requires forall t | t in s :: t.isCompleted
    ensures Incomplete(s) == [] && Completed(s) == s
  {
    if s != [] {
      var p := s[..|s| - 1];
      assert s == p + [s[|s| - 1]];
      AllCompleted(p);
    }
  }

  /** The incomplete and the completed tasks together are the whole list. */
  lemma {:induction false} PartitionPermutes(s: seq<Task>)
    ensures multiset(Incomplete(s)) + multiset(Completed(s)) == multiset(s)
  {
    if s != [] {
      var p := s[..|s| - 1];
      assert s == p + [s[|s| - 1]];
      PartitionPermutes(p);
    }
  }

  /** After the sort, incomplete tasks come first. */
  lemma SortByCompletedSorted(s: seq<Task>)
    ensures CompletedLast(SortByCompleted(s))
  {
    var r := SortByCompleted(s);
    var n := |Incomplete(s)|;
    PartitionMembers(s);
    forall k | 0 <= k < n ensures !r[k].isCompleted {
      assert r[k] == Incomplete(s)[k];
    }
    forall k | n <= k < |r| ensures r[k].isCompleted {
      assert r[k] == Completed(s)[k - n];
    }
  }

  /** The sort is a permutation of its input. */
  lemma SortByCompletedPermutes(s: seq<Task>)
    ensures multiset(SortByCompleted(s)) == multiset(s)
    ensures |SortByCompleted(s)| == |s|
  {
    PartitionPermutes(s);
    assert |multiset(SortByCompleted(s))| == |multiset(s)|;
  }

  /** The sort of a list is empty only when the list is. */
  lemma SortByCompletedEmpty(s: seq<Task>)
    ensures SortByCompleted(s) == [] <==> s == []
  {
    SortByCompletedPermutes(s);
  }

  /** The sort is stable: among the incomplete tasks, and among the completed
      ones, the order of the input is kept. */
  lemma SortByCompletedStable(s: seq<Task>)
    ensures Incomplete(SortByCompleted(s)) == Incomplete(s)
    ensures Completed(SortByCompleted(s)) == Completed(s)
  {
    IncompleteAppend(Incomplete(s), Completed(s));
    PartitionMembers(s);
    AllIncomplete(Incomplete(s));
    AllCompleted(Completed(s));
  }

  /** A list with every incomplete task first is its incomplete part followed
      by its completed part. */
  lemma {:induction false} CompletedLastSplits(r: seq<Task>)
    requires CompletedLast(r)
    ensures r == Incomplete(r) + Completed(r)
  {
    if r != [] {
      var p := r[..|r| - 1];
      var x := r[|r| - 1];
      assert r == p + [x];
      assert CompletedLast(p) by {
        forall i, j | 0 <= i < j < |p| && p[i].isCompleted ensures p[j].isCompleted {
          assert p[i] == r[i] && p[j] == r[j];
        }
      }
      CompletedLastSplits(p);
      if !x.isCompleted {
        forall t | t in p ensures !t.isCompleted {
          var k :| 0 <= k < |p| && p[k] == t;
          assert r[k] == t;
        }
        AllIncomplete(p);
      }
    }
  }

  /** The stable sort is determined by its three properties: any list with
      every incomplete task first, holding the incomplete tasks of `s` in the
      order of `s` and the completed tasks of `s` in the order of `s`, is the
      sorted list. */
  lemma StableSortUnique(r: seq<Task>, s: seq<Task>)
    requires CompletedLast(r)
    requires Incomplete(r) == Incomplete(s) && Completed(r) == Completed(s)
    ensures r == SortByCompleted(s)
  {
    CompletedLastSplits(r);
  }

  /** Sorting a sorted list changes nothing. */
  lemma SortByCompletedIdempotent(s: seq<Task>)
    ensures SortByCompleted(SortByCompleted(s)) == SortByCompleted(s)
  {
    SortByCompletedStable(s);
  }

  /** A list that is already in order is left as it is by the sort. */
  lemma SortByCompletedFixesSorted(s: seq<Task>)
    requires CompletedLast(s)
    ensures SortByCompleted(s) == s
  {
    CompletedLastSplits(s);
  }

  // ---------------------------------------------------------------------
  // An independent reference: insertion sort with the same comparator
  // ---------------------------------------------------------------------

  /** Insert `x` into `sorted` after every element that does not compare
      greater than it: the step of a stable insertion sort. */
  function InsertStable(x: Task, sorted: seq<Task>): (r: seq<Task>)
    reads x, sorted
  {
    if sorted == [] then [x]
    else
      var last := sorted[|sorted| - 1];
      if BooleanCompare(last.isCompleted, x.isCompleted) <= 0 then sorted + [x]
      else InsertStable(x, sorted[..|sorted| - 1]) + [last]
  }

  /** Stable insertion sort of `s` by `Boolean.compare` on the flag. It reads
      the whole heap: each step reads the result of the previous steps,
      which a reads clause cannot name. */
  function InsertionSort(s: seq<Task>): (r: seq<Task>)
    reads *
  {
    if s == [] then []
    else InsertStable(s[|s| - 1], InsertionSort(s[..|s| - 1]))
  }

  lemma {:induction false} InsertStableIntoPartition(x: Task, inc: seq<Task>, comp: seq<Task>)
    requires forall t | t in inc :: !t.isCompleted
    requires forall t | t in comp :: t.isCompleted
    ensures InsertStable(x, inc + comp) == if x.isCompleted then inc + comp + [x] else inc + [x] + comp
  {
    if comp == [] {
      assert inc + comp == inc;
    } else {
      var c' := comp[..|comp| - 1];
      var last := comp[|comp| - 1];
      assert (inc + comp)[..|inc + comp| - 1] == inc + c';
      assert (inc + comp)[|inc + comp| - 1] == last;
      if !x.isCompleted {
        InsertStableIntoPartition(x, inc, c');
        assert comp == c' + [last];
      }
    }
  }

  /** The partition definition of the sort agrees with insertion sort under
      the same comparator, on every list. */
  lemma {:induction false} InsertionSortAgrees(s: seq<Task>)
    ensures InsertionSort(s) == SortByCompleted(s)
  {
    if s != [] {
      var p := s[..|s| - 1];
      var x := s[|s| - 1];
      assert s == p + [x];
      InsertionSortAgrees(p);
      var inc, comp := Incomplete(p), Completed(p);
      PartitionMembers(p);
      assert InsertionSort(s) == InsertStable(x, inc + comp);
      InsertStableIntoPartition(x, inc, comp);
      assert Incomplete(s) == inc + (if x.isCompleted then [] else [x]);
      assert Completed(s) == comp + (if x.isCompleted then [x] else []);
    }
  }

  /** Two tasks: a completed task moves behind an open one, and any other
      pair keeps its order. */
  lemma SortTwo(a: Task, b: Task)
    ensures SortByCompleted([a, b]) == if a.isCompleted && !b.isCompleted then [b, a] else [a, b]
  {
    assert [a, b] == [a] + [b];
    IncompleteAppend([a], [b]);
    assert [a][..0] == [] && [b][..0] == [];
  }

  /** Three tasks A (open), B (done), C (open) on one date come out as A, C, B. */
  lemma SortExample(a: Task, b: Task, c: Task)
    requires !a.isCompleted && b.isCompleted && !c.isCompleted
    ensures SortByCompleted([a, b, c]) == [a, c, b]
  {
    assert [a, b, c][..2] == [a, b];
    assert [a, b][..1] == [a];
    assert [a][..0] == [];
    assert Incomplete([a]) == [a] && Completed([a]) == [];
    assert Incomplete([a, b]) == [a] && Completed([a, b]) == [b];
    assert Incomplete([a, b, c]) == [a, c] && Completed([a, b, c]) == [b];
  }

  // ---------------------------------------------------------------------
  // The `ArrayList<Task>` objects the screen mutates in place
  // ---------------------------------------------------------------------

  /** A `java.util.List<Task>` as a mutable object, so that two holders of
      the same list see each other's changes. */
  class TaskArrayList {
    var elems: seq<Task>

    constructor ()
      ensures elems == []
    {
      elems := [];
    }

    method Clear()
      modifies this`elems
      ensures elems == []
    {
      elems := [];
    }

    method Add(t: Task)
      modifies this`elems
      ensures elems == old(elems) + [t]
    {
      elems := elems + [t];
    }

    method Remove(t: Task)
      modifies this`elems
      ensures elems == RemoveFirst(old(elems), t)
    {
      elems := RemoveFirst(elems, t);
    }

    method Set(i: nat, t: Task)
      requires i < |elems|
      modifies this`elems
      ensures elems == old(elems)[i := t]
    {
      elems := elems[i := t];
    }

    /** `sort` with the comparator `Boolean.compare` on the completion flag. */
    method SortByCompletion()
      modifies this`elems
      ensures elems == SortByCompleted(old(elems))
    {
      elems := SortByCompleted(elems);
    }
  }
}
