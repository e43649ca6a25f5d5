/** The worked example of the priority manager, traced through the
    specification functions its operations are proved against. */
module Scenarios {
  import opened Rendering
  import opened Sequences
  import opened TaskErrors
  import opened PriorityTodo

  /** Adding "Wash dishes" (3), "Pay bills" (1) and "Call mom" (2) orders them
      by priority; removing entry 0 then leaves "Call mom" in front. */
  lemma ThreeTasksOrder(wash: Task, pay: Task, call: Task)
    requires wash == NewTask("Wash dishes", 3)
    requires pay == NewTask("Pay bills", 1)
    requires call == NewTask("Call mom", 2)
    ensures InsertByPriority(InsertByPriority(InsertByPriority([], wash), pay), call) == [pay, call, wash]
    ensures MarkAt(Delete([pay, call, wash], 0), 0) == [call.MarkCompleted(), wash]
  {
    var one := InsertByPriority([], wash);
    assert one == [wash];
    var two := InsertByPriority(one, pay);
    assert InsertionIndex(one, 1) == 0;
    assert two == [pay, wash];
    assert InsertionIndex(two, 2) == 1 by {
      assert InsertionIndex(two[..1], 2) == 1;
    }
  }

  /** Marking "Call mom" (2) completed renders it with both parts. */
  lemma CallMomRendering()
    ensures Task("Call mom", 2, true).ToString() == "Call mom (Priority: 2)" + COMPLETED_SUFFIX
  {
    assert IntToString(2) == "2" by {
      assert NatToString(2) == "2";
    }
    assert "Call mom" + " (Priority: " + "2" + ")" == "Call mom (Priority: 2)";
  }

  /** One hundred adds fill a new manager; the next add fails with
      "Task limit reached." and the count stays at one hundred. */
  method FillToCapacity() returns (last: Outcome, count: int)
    ensures last == Fail(TaskLimitReached) && last.error.Message() == "Task limit reached."
    ensures count == 100
  {
    var m := new TaskManager();
    var k := 0;
    while k < 100
      invariant 0 <= k <= 100
      invariant m.Valid() && m.taskCount == k && fresh(m.tasks)
    {
      var r := m.AddTask("Task", k);
      k := k + 1;
    }
    last := m.AddTask("Task", 100);
    count := m.taskCount;
  }
}
