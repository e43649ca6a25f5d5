/** The priority variant of the task manager: a fixed array of 100 task
    slots whose live prefix is kept in non-decreasing priority order by
    one step of insertion sort on every add.
 */
module PriorityTodo {
  import opened TaskErrors
  import opened Rendering
  import opened Sequences

  /** Java's `int`. Priorities are only compared, never computed with. */
  type Int32 = x: int | -0x8000_0000 <= x < 0x8000_0000

  /** A task. Only its completion flag ever changes, and only from false to true. */
  datatype Task = Task(name: string, priority: Int32, completed: bool) {

    /** The same task with its completion flag set. */
    function MarkCompleted(): (t: Task)
      ensures t.completed && t.name == name && t.priority == priority
    {
      this.(completed := true)
    }

    /** "<name> (Priority: <priority>)", followed by " (Completed)" once completed. */
    function ToString(): (r: string)
      ensures |name| <= |r| && r[..|name|] == name
      ensures EndsWith(r, COMPLETED_SUFFIX) <==> completed
    {
      var digits := IntToString(priority);
      var body := name + " (Priority: " + digits + ")";
      assert body[|body| - 2] == digits[|digits| - 1];
      assert body[..|name|] == name;
      assert IsDigit(body[|body| - 2]);
      assert COMPLETED_SUFFIX[|COMPLETED_SUFFIX| - 2] == 'd';
      assert EndsWith(body + COMPLETED_SUFFIX, COMPLETED_SUFFIX) by {
        assert (body + COMPLETED_SUFFIX)[|body|..] == COMPLETED_SUFFIX;
      }
      body + (if completed then COMPLETED_SUFFIX else "")
    }
  }

  /** A freshly constructed task: not yet completed. */
  function NewTask(taskName: string, priority: Int32): (t: Task)
    ensures !t.completed && t.name == taskName && t.priority == priority
  {
    Task(taskName, priority, false)
  }

  /** Non-decreasing in priority, one neighbour at a time. */
  ghost predicate Sorted(s: seq<Task>)
    decreases |s|
  {
    |s| < 2 || (s[0].priority <= s[1].priority && Sorted(s[1..]))
  }

  /** Sorted by neighbours is the same as sorted by every pair. */
  lemma {:induction false} SortedPairwise(s: seq<Task>)
    ensures Sorted(s) <==> forall i, j :: 0 <= i < j < |s| ==> s[i].priority <= s[j].priority
    decreases |s|
  {
    if |s| >= 2 {
      var tail := s[1..];
      SortedPairwise(tail);
      assert forall i :: 0 <= i < |tail| ==> tail[i] == s[i + 1];
      if Sorted(s) {
        forall i, j | 0 <= i < j < |s| ensures s[i].priority <= s[j].priority {
          if i == 0 && j > 1 {
            assert tail[0].priority <= tail[j - 1].priority;
          } else if i > 0 {
            assert tail[i - 1].priority <= tail[j - 1].priority;
          }
        }
      }
    }
  }

  /** Where a task of priority `p` lands: scanning back from the end, it
      passes every entry whose priority is strictly greater than `p`. */
  function InsertionIndex(s: seq<Task>, p: int): (k: nat)
    ensures k <= |s|
    ensures forall j :: k <= j < |s| ==> s[j].priority > p
    ensures k > 0 ==> s[k - 1].priority <= p
  {
    if s == [] then 0
    else if s[|s| - 1].priority > p then InsertionIndex(s[..|s| - 1], p)
    else |s|
  }

  /** The facts in InsertionIndex's contract pin the position down:
      any position that has them is the one InsertionIndex computes. */
  lemma {:induction false} InsertionIndexUnique(s: seq<Task>, p: int, k: nat)
    requires k <= |s|
    requires forall j :: k <= j < |s| ==> s[j].priority > p
    requires k > 0 ==> s[k - 1].priority <= p
    ensures InsertionIndex(s, p) == k
  {
    if k < |s| {
      var init := s[..|s| - 1];
      assert forall j :: k <= j < |init| ==> init[j] == s[j];
      InsertionIndexUnique(init, p, k);
    }
  }

  /** The live tasks after adding `t`. */
  function InsertByPriority(s: seq<Task>, t: Task): (r: seq<Task>)
    ensures |r| == |s| + 1
    ensures r[InsertionIndex(s, t.priority)] == t
  {
    InsertAt(s, InsertionIndex(s, t.priority), t)
  }

  /** The live tasks after marking entry `i` completed. */
  function MarkAt(s: seq<Task>, i: nat): (r: seq<Task>)
    requires i < |s|
    ensures |r| == |s|
  {
    s[i := s[i].MarkCompleted()]
  }

  /** Adding keeps the live range sorted: the tasks passed over all rank
      above the new one, and, the range being sorted, the ones before it
      rank at most its priority. */
  lemma InsertKeepsSorted(s: seq<Task>, t: Task)
    requires Sorted(s)
    ensures Sorted(InsertByPriority(s, t))
  {
    var k := InsertionIndex(s, t.priority);
    var r := InsertAt(s, k, t);
    assert InsertByPriority(s, t) == r;
    SortedPairwise(s);
    forall i, j | 0 <= i < j < |r| ensures r[i].priority <= r[j].priority {
      if j < k {
        assert r[i] == s[i] && r[j] == s[j];
      } else if j == k {
        assert r[i] == s[i] && s[i].priority <= s[k - 1].priority;
      } else if i < k {
        assert r[i] == s[i] && r[j] == s[j - 1];
      } else if i == k {
        assert r[j] == s[j - 1];
      } else {
        assert r[i] == s[i - 1] && r[j] == s[j - 1];
      }
    }
    SortedPairwise(r);
  }

  /** Adding is stable: every existing task whose priority is at most the new
      one's stays in front of it, and the existing tasks keep their order. */
  lemma InsertIsStable(s: seq<Task>, t: Task)
    ensures var k := InsertionIndex(s, t.priority);
      var r := InsertByPriority(s, t);
      (forall j :: 0 <= j < |s| && s[j].priority <= t.priority ==> j < k) &&
      (forall j :: 0 <= j < k ==> r[j] == s[j]) &&
      (forall j :: k <= j < |s| ==> r[j + 1] == s[j])
  {
    var k := InsertionIndex(s, t.priority);
    assert InsertByPriority(s, t) == InsertAt(s, k, t);
  }

  /** Removing the task just added, at the position it landed, restores the live range. */
  lemma RemoveUndoesInsert(s: seq<Task>, t: Task)
    ensures Delete(InsertByPriority(s, t), InsertionIndex(s, t.priority)) == s
  {
    DeleteInsertAt(s, InsertionIndex(s, t.priority), t);
  }

  /** The new task is inserted at a single position and nothing is lost. */
  lemma InsertIsPermutation(s: seq<Task>, t: Task)
    ensures multiset(InsertByPriority(s, t)) == multiset(s) + multiset{t}
  {
    InsertAtMultiset(s, InsertionIndex(s, t.priority), t);
  }

  /** Removing keeps the live range sorted. */
  lemma DeleteKeepsSorted(s: seq<Task>, i: nat)
    requires i < |s| && Sorted(s)
    ensures Sorted(Delete(s, i))
  {
    var r := Delete(s, i);
    SortedPairwise(s);
    forall a, b | 0 <= a < b < |r| ensures r[a].priority <= r[b].priority {
      var a', b' := if a < i then a else a + 1, if b < i then b else b + 1;
      assert r[a] == s[a'] && r[b] == s[b'];
    }
    SortedPairwise(r);
  }

  /** Marking changes only the completion flag of entry `i`, which becomes true;
      order, names, priorities and the other flags are untouched. */
  lemma MarkAtChangesOnlyFlag(s: seq<Task>, i: nat)
    requires i < |s|
    ensures var r := MarkAt(s, i);
      r[i].completed && r[i].name == s[i].name && r[i].priority == s[i].priority &&
      (forall j :: 0 <= j < |s| && j != i ==> r[j] == s[j])
  {
  }

  /** Marking twice is the same as marking once. */
  lemma MarkAtIdempotent(s: seq<Task>, i: nat)
    requires i < |s|
    ensures MarkAt(MarkAt(s, i), i) == MarkAt(s, i)
  {
  }

  /** Marking keeps the live range sorted and never clears a flag. */
  lemma MarkAtKeepsSorted(s: seq<Task>, i: nat)
    requires i < |s| && Sorted(s)
    ensures Sorted(MarkAt(s, i))
    ensures forall j :: 0 <= j < |s| && s[j].completed ==> MarkAt(s, i)[j].completed
  {
    var r := MarkAt(s, i);
    SortedPairwise(s);
    assert forall j :: 0 <= j < |s| ==> r[j].priority == s[j].priority;
    SortedPairwise(r);
  }

  /** The array contents the shifting loop leaves behind, once the new task
      is in the gap, are exactly the live tasks with the new one inserted. */
  lemma GapFilled(s: seq<Task>, a: seq<Task>, k: nat, t: Task)
    requires k <= |s| && |a| == |s| + 1 && a[k] == t
    requires forall j :: 0 <= j < k ==> a[j] == s[j]
    requires forall j :: k < j < |a| ==> a[j] == s[j - 1]
    requires forall j :: k <= j < |s| ==> s[j].priority > t.priority
    requires k > 0 ==> s[k - 1].priority <= t.priority
    ensures a == InsertByPriority(s, t)
  {
    InsertionIndexUnique(s, t.priority, k);
    var r := InsertAt(s, k, t);
    forall j | 0 <= j < |a| ensures a[j] == r[j] {
      if j < k {
        assert r[j] == s[j];
      } else if j > k {
        assert r[j] == s[j - 1];
      }
    }
  }

  /** Adding to the array itself: walking back from slot `n - 1`, every task
      of strictly greater priority moves up one slot, and `t` goes into the
      slot left free. Slots `0..n-1` hold the live tasks before the call and
      slots `0..n` after it. */
  method InsertInPlace(a: array<Task>, n: int, t: Task)
    requires 0 <= n < a.Length
    modifies a
    ensures a[..n + 1] == InsertByPriority(old(a[..n]), t)
  {
    ghost var s := a[..n];
    var i := n - 1;
    while i >= 0 && a[i].priority > t.priority
      invariant -1 <= i < n
      invariant forall j {:trigger a[j]} :: 0 <= j <= i ==> a[j] == s[j]
      invariant forall j {:trigger a[j]} :: i + 2 <= j <= n ==> a[j] == s[j - 1]
      invariant forall j :: i < j < n ==> s[j].priority > t.priority
      decreases i
    {
      a[i + 1] := a[i];
      i := i - 1;
    }
    a[i + 1] := t;
    GapFilled(s, a[..n + 1], i + 1, t);
  }

  /** The manager: a 100-slot array whose first `taskCount` slots hold the
      live tasks, in non-decreasing priority order. */
  class TaskManager {
    const maxTasks: int := 100
    var tasks: array<Task>
    var taskCount: int

    ghost predicate Valid()
      reads this, tasks
    {
      tasks.Length == maxTasks && 0 <= taskCount <= maxTasks && Sorted(tasks[..taskCount])
    }

    /** The live range [0, taskCount); the slots after it are stale. */
    ghost function Live(): seq<Task>
      reads this, tasks
      requires Valid()
    {
      tasks[..taskCount]
    }

    constructor ()
      ensures Valid() && fresh(tasks)
      ensures tasks.Length == 100 && taskCount == 0 && Live() == []
    {
      tasks := new Task[maxTasks];
      taskCount := 0;
    }

    method GetTasks() returns (a: array<Task>)
      requires Valid()
      ensures a == tasks && a[..taskCount] == Live()
    {
      a := tasks;
    }

    method GetTaskCount() returns (n: int)
      requires Valid()
      ensures n == |Live()| && 0 <= n <= maxTasks
    {
      n := taskCount;
    }

    method AddTask(taskName: string, priority: Int32) returns (r: Outcome)
      requires Valid()
      modifies this, tasks
      ensures Valid() && tasks == old(tasks)
      ensures r == if old(taskCount) >= maxTasks then Fail(TaskLimitReached) else Pass
      ensures r.Fail? ==> unchanged(this, tasks)
      ensures r.Pass? ==> taskCount == old(taskCount) + 1
      ensures r.Pass? ==> Live() == InsertByPriority(old(Live()), NewTask(taskName, priority))
    {
      if taskCount >= maxTasks {
        return Fail(TaskLimitReached);
      }
      var newTask := NewTask(taskName, priority);
      ghost var s := Live();
      InsertInPlace(tasks, taskCount, newTask);
      taskCount := taskCount + 1;
      InsertKeepsSorted(s, newTask);
      r := Pass;
    }

    method RemoveTask(index: int) returns (r: Outcome)
      requires Valid()
      modifies this, tasks
      ensures Valid() && tasks == old(tasks)
      ensures r == if index < 0 || index >= old(taskCount) then Fail(InvalidTaskIndex) else Pass
      ensures r.Fail? ==> unchanged(this, tasks)
      ensures r.Pass? ==> taskCount == old(taskCount) - 1
      ensures r.Pass? ==> Live() == Delete(old(Live()), index)
    {
      if index < 0 || index >= taskCount {
        return Fail(InvalidTaskIndex);
      }
      ghost var s := Live();
      for i := index to taskCount - 1
        modifies tasks
        invariant forall j {:trigger tasks[j]} :: 0 <= j < index ==> tasks[j] == s[j]
        invariant forall j {:trigger tasks[j]} :: index <= j < i ==> tasks[j] == s[j + 1]
        invariant forall j {:trigger tasks[j]} :: i <= j < taskCount ==> tasks[j] == s[j]
      {
        tasks[i] := tasks[i + 1];
      }
      taskCount := taskCount - 1;
      ghost var deleted := Delete(s, index);
      forall j | 0 <= j < taskCount ensures tasks[j] == deleted[j] {
        if j < index {
          assert deleted[j] == s[j];
        } else {
          assert deleted[j] == s[j + 1];
        }
      }
      assert tasks[..taskCount] == deleted;
      DeleteKeepsSorted(s, index);
      r := Pass;
    }

    method MarkTaskCompleted(index: int) returns (r: Outcome)
      requires Valid()
      modifies tasks
      ensures Valid()
      ensures r == if index < 0 || index >= taskCount then Fail(InvalidTaskIndex) else Pass
      ensures r.Fail? ==> unchanged(tasks)
      ensures r.Pass? ==> Live() == MarkAt(old(Live()), index)
    {
      if index < 0 || index >= taskCount {
        return Fail(InvalidTaskIndex);
      }
      ghost var s := Live();
      tasks[index] := tasks[index].MarkCompleted();
      assert tasks[..taskCount] == MarkAt(s, index);
      MarkAtKeepsSorted(s, index);
      r := Pass;
    }
  }
}
