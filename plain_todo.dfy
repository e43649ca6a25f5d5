/** The plain variant of the task manager: a fixed array of 100 task slots
    whose live prefix holds the tasks in the order they were added.
 */
module PlainTodo {
  import opened TaskErrors
  import opened Rendering
  import opened Sequences

  /** A task without a priority. Only its completion flag ever changes,
      and only from false to true. */
  datatype Task = Task(name: string, completed: bool) {

    /** The same task with its completion flag set. */
    function MarkCompleted(): (t: Task)
      ensures t.completed && t.name == name
    {
      this.(completed := true)
    }

    /** The name, followed by " (Completed)" once completed. */
    function ToString(): (r: string)
      ensures !completed ==> r == name
      ensures completed ==> |r| == |name| + |COMPLETED_SUFFIX| && r[..|name|] == name
      ensures EndsWith(r, COMPLETED_SUFFIX) <==> completed || EndsWith(name, COMPLETED_SUFFIX)
    {
      var r := name + (if completed then COMPLETED_SUFFIX else "");
      assert r[..|name|] == name;
      assert completed ==> r[|name|..] == COMPLETED_SUFFIX;
      r
    }
  }

  /** A completed task's name is what its rendering shows before the suffix. */
  lemma NameFromRendering(t: Task)
    requires t.completed
    ensures var r := t.ToString();
      EndsWith(r, COMPLETED_SUFFIX) && r[..|r| - |COMPLETED_SUFFIX|] == t.name
  {
  }

  /** Without priorities the suffix alone does not tell a completed task: a
      pending task whose name already ends in " (Completed)" renders with it. */
  lemma SuffixDoesNotShowCompletion()
    ensures var t := Task("Call mom" + COMPLETED_SUFFIX, false);
      !t.completed && EndsWith(t.ToString(), COMPLETED_SUFFIX)
  {
    var t := Task("Call mom" + COMPLETED_SUFFIX, false);
    assert t.ToString()[|t.ToString()| - |COMPLETED_SUFFIX|..] == COMPLETED_SUFFIX;
  }

  /** A freshly constructed task: not yet completed. */
  function NewTask(taskName: string): (t: Task)
    ensures !t.completed && t.name == taskName
  {
    Task(taskName, false)
  }

  /** The live tasks after marking entry `i` completed. */
  function MarkAt(s: seq<Task>, i: nat): (r: seq<Task>)
    requires i < |s|
    ensures |r| == |s|
  {
    s[i := s[i].MarkCompleted()]
  }

  /** Removing the task just appended restores the live range. */
  lemma RemoveUndoesAppend(s: seq<Task>, t: Task)
    ensures Delete(s + [t], |s|) == s
  {
    assert Delete(s + [t], |s|) == (s + [t])[..|s|];
  }

  /** Appending keeps every earlier task where it was and puts the new one last. */
  lemma AppendKeepsOrder(s: seq<Task>, t: Task)
    ensures var r := s + [t];
      |r| == |s| + 1 && r[|s|] == t && r[..|s|] == s &&
      multiset(r) == multiset(s) + multiset{t}
  {
  }

  /** Marking changes only the completion flag of entry `i`, which becomes
      true; order, names and the other flags are untouched. */
  lemma MarkAtChangesOnlyFlag(s: seq<Task>, i: nat)
    requires i < |s|
    ensures var r := MarkAt(s, i);
      r[i].completed && r[i].name == s[i].name &&
      (forall j :: 0 <= j < |s| && j != i ==> r[j] == s[j])
  {
  }

  /** Marking twice is the same as marking once. */
  lemma MarkAtIdempotent(s: seq<Task>, i: nat)
    requires i < |s|
    ensures MarkAt(MarkAt(s, i), i) == MarkAt(s, i)
  {
  }

  /** The manager: a 100-slot array whose first `taskCount` slots hold the
      live tasks, oldest first. */
  class TaskManager {
    const maxTasks: int := 100
    var tasks: array<Task>
    var taskCount: int

    ghost predicate Valid()
      reads this
    {
      tasks.Length == maxTasks && 0 <= taskCount <= maxTasks
    }

    /** The live range [0, taskCount); the slots after it are stale. */
    ghost function Live(): seq<Task>
      reads this, tasks
      requires Valid()
    {
      tasks[..taskCount]
    }

    constructor ()
      ensures Valid() && fresh(tasks)
      ensures tasks.Length == 100 && taskCount == 0 && Live() == []
    {
      tasks := new Task[maxTasks];
      taskCount := 0;
    }

    method GetTasks() returns (a: array<Task>)
      requires Valid()
      ensures a == tasks && a[..taskCount] == Live()
    {
      a := tasks;
    }

    method GetTaskCount() returns (n: int)
      requires Valid()
      ensures n == |Live()| && 0 <= n <= maxTasks
    {
      n := taskCount;
    }

    method AddTask(taskName: string) returns (r: Outcome)
      requires Valid()
      modifies this, tasks
      ensures Valid() && tasks == old(tasks)
      ensures r == if old(taskCount) >= maxTasks then Fail(TaskLimitReached) else Pass
      ensures r.Fail? ==> unchanged(this, tasks)
      ensures r.Pass? ==> taskCount == old(taskCount) + 1
      ensures r.Pass? ==> Live() == old(Live()) + [NewTask(taskName)]
    {
      if taskCount >= maxTasks {
        return Fail(TaskLimitReached);
      }
      tasks[taskCount] := NewTask(taskName);
      taskCount := taskCount + 1;
      r := Pass;
    }

    method RemoveTask(index: int) returns (r: Outcome)
      requires Valid()
      modifies this, tasks
      ensures Valid() && tasks == old(tasks)
      ensures r == if index < 0 || index >= old(taskCount) then Fail(InvalidTaskIndex) else Pass
      ensures r.Fail? ==> unchanged(this, tasks)
      ensures r.Pass? ==> taskCount == old(taskCount) - 1
      ensures r.Pass? ==> Live() == Delete(old(Live()), index)
    {
      if index < 0 || index >= taskCount {
        return Fail(InvalidTaskIndex);
      }
      ghost var s := Live();
      for i := index to taskCount - 1
        modifies tasks
        invariant forall j {:trigger tasks[j]} :: 0 <= j < index ==> tasks[j] == s[j]
        invariant forall j {:trigger tasks[j]} :: index <= j < i ==> tasks[j] == s[j + 1]
        invariant forall j {:trigger tasks[j]} :: i <= j < taskCount ==> tasks[j] == s[j]
      {
        tasks[i] := tasks[i + 1];
      }
      taskCount := taskCount - 1;
      ghost var deleted := Delete(s, index);
      forall j | 0 <= j < taskCount ensures tasks[j] == deleted[j] {
        if j < index {
          assert deleted[j] == s[j];
        } else {
          assert deleted[j] == s[j + 1];
        }
      }
      assert tasks[..taskCount] == deleted;
      r := Pass;
    }

    method MarkTaskCompleted(index: int) returns (r: Outcome)
      requires Valid()
      modifies tasks
      ensures Valid()
      ensures r == if index < 0 || index >= taskCount then Fail(InvalidTaskIndex) else Pass
      ensures r.Fail? ==> unchanged(tasks)
      ensures r.Pass? ==> Live() == MarkAt(old(Live()), index)
    {
      if index < 0 || index >= taskCount {
        return Fail(InvalidTaskIndex);
      }
      tasks[index] := tasks[index].MarkCompleted();
      r := Pass;
    }
  }
}
