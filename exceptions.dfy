/** The two domain errors the service and the controller raise. */
module Exceptions {
  import opened Strings

  /** Raised when no task is stored under the requested id. */
  datatype TaskNotFoundException = TaskNotFoundException(taskId: int) {

    /** "Task with ID <id> not found." */
    function Message(): (m: string)
      ensures |m| == 24 + |LongToString(taskId)|
      ensures m[..13] == "Task with ID " && m[|m| - 11..] == " not found."
      ensures m[13..|m| - 11] == LongToString(taskId)
    {
      "Task with ID " + LongToString(taskId) + " not found."
    }
  }

  /** Raised when the interval parameter names no known interval. */
  datatype InvalidIntervalException = InvalidIntervalException(message: string)

  /** The message names the task unambiguously: two exceptions carry the same
      message exactly when they are about the same id. */
  lemma TaskNotFoundMessageIdentifiesTask(a: TaskNotFoundException, b: TaskNotFoundException)
    ensures a.Message() == b.Message() <==> a == b
  {
    var ma, mb := a.Message(), b.Message();
    if ma == mb {
      LongToStringInjective(a.taskId, b.taskId);
    }
  }

  /** The message for id 999, as a client sees it. */
  lemma TaskNotFoundMessageExample()
    ensures TaskNotFoundException(999).Message() == "Task with ID 999 not found."
  {
    assert NatToString(999) == "999" by {
      assert NatToString(9) == "9";
      assert NatToString(99) == "99";
    }
  }
}
