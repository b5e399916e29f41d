/** `TaskServiceImpl`: the task lifecycle (create, update, toggle, delete)
    over the repository, and the date-range queries.  The clock reads of
    the original (`LocalDateTime.now()`) are replaced by a `now` argument. */
module TaskService {
  import opened Wrappers
  import opened Time
  import opened TaskStore
  import opened Exceptions

  datatype TaskCreationRequest = TaskCreationRequest(title: string, description: string)

  datatype TaskUpdateRequest = TaskUpdateRequest(title: string, description: string)

  datatype TaskResponse = TaskResponse(id: int, title: string, description: string, date: LocalDateTime, completed: bool)

  /** Copies every field of the entity into the response. */
  function ConvertToTaskResponse(task: Task): TaskResponse {
    TaskResponse(task.id, task.title, task.description, task.date, task.completed)
  }

  /** Each row converted field by field, in the same order. */
  function Responses(rows: seq<Task>): seq<TaskResponse> {
    seq(|rows|, i requires 0 <= i < |rows| => ConvertToTaskResponse(rows[i]))
  }

  // ---------------------------------------------------------------- queries

  /** `r` holds, converted field for field, exactly the stored tasks dated
      within `[start, end]` (both ends included) whose flag is `completed`,
      each once, in ascending id order. */
  ghost predicate ListsExactly(
    r: seq<TaskResponse>, tasks: map<int, Task>, start: LocalDateTime, end: LocalDateTime, completed: bool)
  {
    (forall id :: id in tasks && IsBetween(tasks[id].date, start, end) && tasks[id].completed == completed
       ==> ConvertToTaskResponse(tasks[id]) in r) &&
    (forall resp :: resp in r ==>
       resp.id in tasks && resp == ConvertToTaskResponse(tasks[resp.id]) &&
       IsBetween(resp.date, start, end) && resp.completed == completed) &&
    (forall j, k :: 0 <= j < k < |r| ==> r[j].id < r[k].id)
  }

  lemma ResponsesListExactly(
    rows: seq<Task>, tasks: map<int, Task>, start: LocalDateTime, end: LocalDateTime, completed: bool)
    requires KeysAreIds(tasks)
    requires forall t :: t in rows <==>
      t.id in tasks && tasks[t.id] == t && IsBetween(t.date, start, end) && t.completed == completed
    requires forall j, k :: 0 <= j < k < |rows| ==> rows[j].id < rows[k].id
    ensures ListsExactly(Responses(rows), tasks, start, end, completed)
  {
    var r := Responses(rows);
    forall id | id in tasks && IsBetween(tasks[id].date, start, end) && tasks[id].completed == completed
      ensures ConvertToTaskResponse(tasks[id]) in r
    {
      assert tasks[id] in rows;
      var k :| 0 <= k < |rows| && rows[k] == tasks[id];
      assert r[k] == ConvertToTaskResponse(tasks[id]);
    }
    forall resp | resp in r
      ensures resp.id in tasks && resp == ConvertToTaskResponse(tasks[resp.id])
    {
      var k :| 0 <= k < |r| && r[k] == resp;
      assert rows[k] in rows;
    }
  }

  /** `getTasksByDateRangeAndCompletionStatus(start, end, completed)`. */
  function GetTasksByDateRangeAndCompletionStatus(
    tasks: map<int, Task>, nextId: int, start: LocalDateTime, end: LocalDateTime, completed: bool)
    : (r: seq<TaskResponse>)
    requires WellFormed(tasks, nextId)
    ensures ListsExactly(r, tasks, start, end, completed)
  {
    var rows := FindByDateBetweenAndCompleted(tasks, nextId, start, end, completed);
    ResponsesListExactly(rows, tasks, start, end, completed);
    Responses(rows)
  }

  /** `getTasksByDateAndCompletionStatus(date, completed)`: the tasks dated
      exactly `date`, i.e. the range query whose two bounds are `date`. */
  function GetTasksByDateAndCompletionStatus(tasks: map<int, Task>, nextId: int, date: LocalDateTime, completed: bool)
    : (r: seq<TaskResponse>)
    requires WellFormed(tasks, nextId)
    ensures ListsExactly(r, tasks, date, date, completed)
  {
    ExactDateIsDegenerateRange(tasks, nextId, date, completed);
    var rows := FindByDateAndCompleted(tasks, nextId, date, completed);
    ResponsesListExactly(rows, tasks, date, date, completed);
    Responses(rows)
  }

  /** `getTasksByWeekAndCompletionStatus`: the week up to now. */
  function GetTasksByWeekAndCompletionStatus(tasks: map<int, Task>, nextId: int, completed: bool, now: LocalDateTime)
    : (r: seq<TaskResponse>)
    requires WellFormed(tasks, nextId)
    ensures ListsExactly(r, tasks, MinusWeeks(now, 1), now, completed)
  {
    var weekAgo := MinusWeeks(now, 1);
    var rows := FindByDateBetweenAndCompleted(tasks, nextId, weekAgo, now, completed);
    ResponsesListExactly(rows, tasks, weekAgo, now, completed);
    Responses(rows)
  }

  /** `getTasksByMonthAndCompletionStatus`: the month up to now. */
  function GetTasksByMonthAndCompletionStatus(tasks: map<int, Task>, nextId: int, completed: bool, now: LocalDateTime)
    : (r: seq<TaskResponse>)
    requires WellFormed(tasks, nextId)
    ensures ListsExactly(r, tasks, MinusMonths(now, 1), now, completed)
  {
    var monthAgo := MinusMonths(now, 1);
    var rows := FindByDateBetweenAndCompleted(tasks, nextId, monthAgo, now, completed);
    ResponsesListExactly(rows, tasks, monthAgo, now, completed);
    Responses(rows)
  }

  /** `getUpcomingTasksByWeekAndCompletionStatus`: the week from now on. */
  function GetUpcomingTasksByWeekAndCompletionStatus(
    tasks: map<int, Task>, nextId: int, completed: bool, now: LocalDateTime)
    : (r: seq<TaskResponse>)
    requires WellFormed(tasks, nextId)
    ensures ListsExactly(r, tasks, now, PlusWeeks(now, 1), completed)
  {
    var weekLater := PlusWeeks(now, 1);
    var rows := FindByDateBetweenAndCompleted(tasks, nextId, now, weekLater, completed);
    ResponsesListExactly(rows, tasks, now, weekLater, completed);
    Responses(rows)
  }

  /** `getUpcomingTasksByMonthAndCompletionStatus`: the month from now on. */
  function GetUpcomingTasksByMonthAndCompletionStatus(
    tasks: map<int, Task>, nextId: int, completed: bool, now: LocalDateTime)
    : (r: seq<TaskResponse>)
    requires WellFormed(tasks, nextId)
    ensures ListsExactly(r, tasks, now, PlusMonths(now, 1), completed)
  {
    var monthLater := PlusMonths(now, 1);
    var rows := FindByDateBetweenAndCompleted(tasks, nextId, now, monthLater, completed);
    ResponsesListExactly(rows, tasks, now, monthLater, completed);
    Responses(rows)
  }

  /** Each of the four week and month ranges is non-empty and has `now` as
      one of its two ends: the past ranges end at `now` and start strictly
      before it, the upcoming ranges start at `now` and end strictly after. */
  lemma WeekAndMonthRangesAroundNow(now: LocalDateTime)
    ensures IsBefore(MinusWeeks(now, 1), now) && IsBefore(now, PlusWeeks(now, 1))
    ensures IsBefore(MinusMonths(now, 1), now) && IsBefore(now, PlusMonths(now, 1))
  {
    ShiftsAreMonotone(now, 1);
  }

  // ---------------------------------------------------------------- lifecycle

  /** The table after `updateTask(id, update)`: the title and description of
      that one task are replaced; an absent id changes nothing. */
  function Updated(tasks: map<int, Task>, id: int, update: TaskUpdateRequest): map<int, Task> {
    if id in tasks then tasks[id := tasks[id].(title := update.title, description := update.description)]
    else tasks
  }

  /** The table after `toggleTaskCompletion(id)`: the flag of that one task is
      negated; an absent id changes nothing. */
  function Toggled(tasks: map<int, Task>, id: int): map<int, Task> {
    if id in tasks then tasks[id := tasks[id].(completed := !tasks[id].completed)]
    else tasks
  }

  /** An update touches only the title and description of the one task:
      every other row, and that task's id, date and flag, are kept. */
  lemma UpdatedChangesOnlyTitleAndDescription(tasks: map<int, Task>, id: int, update: TaskUpdateRequest)
    ensures Updated(tasks, id, update).Keys == tasks.Keys
    ensures forall k :: k in tasks && k != id ==> Updated(tasks, id, update)[k] == tasks[k]
    ensures id in tasks ==>
      var t := Updated(tasks, id, update)[id];
      t.title == update.title && t.description == update.description &&
      t.id == tasks[id].id && t.date == tasks[id].date && t.completed == tasks[id].completed
  {
  }

  /** Updating twice with the same request is the same as updating once. */
  lemma UpdatedIsIdempotent(tasks: map<int, Task>, id: int, update: TaskUpdateRequest)
    ensures Updated(Updated(tasks, id, update), id, update) == Updated(tasks, id, update)
  {
  }

  /** Toggling touches only the flag of the one task, and toggling twice
      restores the table. */
  lemma ToggledIsSelfInverse(tasks: map<int, Task>, id: int)
    ensures Toggled(tasks, id).Keys == tasks.Keys
    ensures forall k :: k in tasks && k != id ==> Toggled(tasks, id)[k] == tasks[k]
    ensures id in tasks ==> Toggled(tasks, id)[id].completed != tasks[id].completed
    ensures Toggled(Toggled(tasks, id), id) == tasks
  {
    if id in tasks {
      var t := tasks[id];
      assert t.(completed := !t.completed).(completed := t.completed) == t;
    }
  }

  /** The service: every operation goes through the one repository. */
  class TaskServiceImpl {
    const taskRepository: TaskRepository

    ghost predicate Valid()
      reads this, taskRepository
    {
      taskRepository.Valid()
    }

    constructor (taskRepository: TaskRepository)
      ensures this.taskRepository == taskRepository
    {
      this.taskRepository := taskRepository;
    }

    /** `createTask(request)`: inserts one task under a fresh id, with the
        request's title and description, dated `now` and not completed. */
    method CreateTask(taskRequest: TaskCreationRequest, now: LocalDateTime) returns (response: TaskResponse)
      requires Valid()
      modifies taskRepository
      ensures Valid()
      ensures response == TaskResponse(old(taskRepository.nextId), taskRequest.title, taskRequest.description, now, false)
      ensures response.id !in old(taskRepository.tasks)
      ensures taskRepository.tasks ==
        old(taskRepository.tasks)[response.id := Task(response.id, taskRequest.title, taskRequest.description, now, false)]
      ensures taskRepository.nextId > old(taskRepository.nextId)
    {
      var savedTask := taskRepository.Insert(taskRequest.title, taskRequest.description, now, false);
      response := ConvertToTaskResponse(savedTask);
    }

    /** `updateTask(id, update)`: fails with `TaskNotFound(id)` and changes
        nothing when the id is absent; otherwise replaces title and
        description and returns the updated task. */
    method UpdateTask(taskId: int, taskUpdate: TaskUpdateRequest)
      returns (result: Result<TaskResponse, TaskNotFoundException>)
      requires Valid()
      modifies taskRepository
      ensures Valid()
      ensures taskRepository.tasks == Updated(old(taskRepository.tasks), taskId, taskUpdate)
      ensures taskRepository.nextId == old(taskRepository.nextId)
      ensures taskId in old(taskRepository.tasks) ==>
        result == Success(ConvertToTaskResponse(taskRepository.tasks[taskId]))
      ensures taskId !in old(taskRepository.tasks) ==> result == Failure(TaskNotFoundException(taskId))
    {
      var found := taskRepository.FindById(taskId);
      match found {
        case None =>
          result := Failure(TaskNotFoundException(taskId));
        case Some(task) =>
          task := task.(title := taskUpdate.title);
          task := task.(description := taskUpdate.description);
          var saved := taskRepository.Save(task);
          result := Success(ConvertToTaskResponse(saved));
      }
    }

    /** `toggleTaskCompletion(id)`: fails with `TaskNotFound(id)` and changes
        nothing when the id is absent; otherwise reads the stored flag and
        writes back its negation. */
    method ToggleTaskCompletion(id: int) returns (outcome: Outcome<TaskNotFoundException>)
      requires Valid()
      modifies taskRepository
      ensures Valid()
      ensures taskRepository.tasks == Toggled(old(taskRepository.tasks), id)
      ensures taskRepository.nextId == old(taskRepository.nextId)
      ensures outcome == if id in old(taskRepository.tasks) then Pass else Fail(TaskNotFoundException(id))
    {
      var found := taskRepository.FindById(id);
      if found.None? {
        return Fail(TaskNotFoundException(id));
      }
      var task := found.value;
      task := task.(completed := !task.completed);
      var _ := taskRepository.Save(task);
      outcome := Pass;
    }

    /** `deleteTask(id)`: checks existence first; fails with `TaskNotFound(id)`
        and changes nothing when the id is absent, otherwise removes the row. */
    method DeleteTask(id: int) returns (outcome: Outcome<TaskNotFoundException>)
      requires Valid()
      modifies taskRepository
      ensures Valid()
      ensures taskRepository.nextId == old(taskRepository.nextId)
      ensures id !in old(taskRepository.tasks) ==>
        outcome == Fail(TaskNotFoundException(id)) && taskRepository.tasks == old(taskRepository.tasks)
      ensures id in old(taskRepository.tasks) ==>
        outcome == Pass && taskRepository.tasks == old(taskRepository.tasks) - {id}
    {
      var present := taskRepository.ExistsById(id);
      if !present {
        return Fail(TaskNotFoundException(id));
      }
      taskRepository.DeleteById(id);
      outcome := Pass;
    }
  }

  /** Two toggles of the same id, through the service, leave the table as it
      was, whether or not the id is present. */
  method ToggleTwice(service: TaskServiceImpl, id: int)
    requires service.Valid()
    modifies service.taskRepository
    ensures service.Valid()
    ensures service.taskRepository.tasks == old(service.taskRepository.tasks)
  {
    var _ := service.ToggleTaskCompletion(id);
    var _ := service.ToggleTaskCompletion(id);
    ToggledIsSelfInverse(old(service.taskRepository.tasks), id);
  }

  /** A whole lifecycle on an empty table: create "Buy milk", toggle it twice,
      delete it, then try to update it; a second task created afterwards
      gets a new id, so deleted ids are never reused. */
  method BuyMilkScenario(now: LocalDateTime)
    returns (created: TaskResponse, completedAfterFirstToggle: bool, completedAfterSecondToggle: bool,
             deleted: Outcome<TaskNotFoundException>, updateAfterDelete: Result<TaskResponse, TaskNotFoundException>,
             recreated: TaskResponse)
    ensures created == TaskResponse(1, "Buy milk", "2% milk", now, false)
    ensures completedAfterFirstToggle && !completedAfterSecondToggle
    ensures deleted == Pass
    ensures updateAfterDelete == Failure(TaskNotFoundException(created.id))
    ensures recreated.id != created.id
  {
    var repository := new TaskRepository();
    var service := new TaskServiceImpl(repository);
    created := service.CreateTask(TaskCreationRequest("Buy milk", "2% milk"), now);
    var _ := service.ToggleTaskCompletion(created.id);
    completedAfterFirstToggle := repository.tasks[created.id].completed;
    var _ := service.ToggleTaskCompletion(created.id);
    completedAfterSecondToggle := repository.tasks[created.id].completed;
    deleted := service.DeleteTask(created.id);
    updateAfterDelete := service.UpdateTask(created.id, TaskUpdateRequest("Buy bread", "rye"));
    recreated := service.CreateTask(TaskCreationRequest("Buy milk", "2% milk"), now);
  }
}
