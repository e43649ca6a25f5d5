/** The failure side of the task manager's operations.

    Both variants of the manager throw a checked exception carrying one of two
    fixed messages; the model returns an `Outcome` instead of throwing, so that
    every contract can say which calls fail and that a failed call changes nothing.
 */
module TaskErrors {

  /** The two conditions on which the manager refuses an operation. */
  datatype TaskError = TaskLimitReached | InvalidTaskIndex {

    /** The message the exception carries. */
    function Message(): (m: string)
      ensures |m| > 0 && m[|m| - 1] == '.'
    {
      match this
      case TaskLimitReached => "Task limit reached."
      case InvalidTaskIndex => "Invalid task index."
    }
  }

  /** The message tells the two errors apart. */
  lemma MessageIdentifiesError(e1: TaskError, e2: TaskError)
    ensures e1.Message() == e2.Message() <==> e1 == e2
  {
    if e1 != e2 {
      assert e1.Message()[0] != e2.Message()[0];
    }
  }

  /** Either the operation went through, or it was refused with an error. */
  datatype Outcome = Pass | Fail(error: TaskError)
}
