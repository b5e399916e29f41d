/** The task table and the repository operations the service uses: the
    inherited `JpaRepository` operations (`findById`, `existsById`, `save`,
    `deleteById`) and the two derived queries of `TaskRepository`.  The
    table is a map from id to task plus the next id the identity
    generator will hand out. */
module TaskStore {
  import opened Wrappers
  import opened Time

  /** The persisted entity. */
  datatype Task = Task(id: int, title: string, description: string, date: LocalDateTime, completed: bool)

  /** Every row is stored under its own id. */
  predicate KeysAreIds(tasks: map<int, Task>) {
    forall id :: id in tasks ==> tasks[id].id == id
  }

  /** The table invariant: rows are keyed by their ids, and every id in use
      was handed out before, so `nextId` is fresh. */
  predicate WellFormed(tasks: map<int, Task>, nextId: int) {
    1 <= nextId && KeysAreIds(tasks) && forall id :: id in tasks ==> 1 <= id < nextId
  }

  // ---------------------------------------------------------------- scans

  /** The ids in `[lo, hi)` that have a row, ascending: a primary-key scan. */
  function ScanIds(tasks: map<int, Task>, lo: int, hi: int): (r: seq<int>)
    ensures forall i :: i in r <==> lo <= i < hi && i in tasks
    ensures forall j, k :: 0 <= j < k < |r| ==> r[j] < r[k]
    decreases hi - lo
  {
    if lo >= hi then []
    else
      var rest := ScanIds(tasks, lo + 1, hi);
      if lo in tasks then
        assert forall k :: 0 <= k < |rest| ==> rest[k] in rest;
        [lo] + rest
      else rest
  }

  /** The rows under `ids`, in that order, that satisfy `keep`. */
  function Filter(tasks: map<int, Task>, ids: seq<int>, keep: Task -> bool): (r: seq<Task>)
    requires forall i :: i in ids ==> i in tasks && tasks[i].id == i
    requires forall j, k :: 0 <= j < k < |ids| ==> ids[j] < ids[k]
    ensures forall t :: t in r <==> t.id in ids && t == tasks[t.id] && keep(t)
    ensures forall j, k :: 0 <= j < k < |r| ==> r[j].id < r[k].id
    decreases |ids|
  {
    if ids == [] then []
    else
      var rest := Filter(tasks, ids[1..], keep);
      var t := tasks[ids[0]];
      assert forall u :: u in rest ==> t.id < u.id by {
        forall u | u in rest ensures t.id < u.id {
          var k :| 1 <= k < |ids| && ids[k] == u.id;
        }
      }
      if keep(t) then [t] + rest else rest
  }

  /** `findByDateBetweenAndCompleted(start, end, completed)`: the rows whose
      date lies in the inclusive range and whose flag is `completed`, in
      ascending id order. */
  function FindByDateBetweenAndCompleted(
    tasks: map<int, Task>, nextId: int, startDate: LocalDateTime, endDate: LocalDateTime, completed: bool)
    : (r: seq<Task>)
    requires WellFormed(tasks, nextId)
    ensures forall t :: t in r <==>
      t.id in tasks && tasks[t.id] == t && IsBetween(t.date, startDate, endDate) && t.completed == completed
    ensures forall j, k :: 0 <= j < k < |r| ==> r[j].id < r[k].id
  {
    Filter(tasks, ScanIds(tasks, 1, nextId),
      (t: Task) => IsBetween(t.date, startDate, endDate) && t.completed == completed)
  }

  /** `findByDateAndCompleted(date, completed)`: the rows dated exactly
      `date` whose flag is `completed`, in ascending id order. */
  function FindByDateAndCompleted(tasks: map<int, Task>, nextId: int, date: LocalDateTime, completed: bool)
    : (r: seq<Task>)
    requires WellFormed(tasks, nextId)
    ensures forall t :: t in r <==> t.id in tasks && tasks[t.id] == t && t.date == date && t.completed == completed
    ensures forall j, k :: 0 <= j < k < |r| ==> r[j].id < r[k].id
  {
    Filter(tasks, ScanIds(tasks, 1, nextId), (t: Task) => t.date == date && t.completed == completed)
  }

  /** Filtering with two predicates that agree on every task gives the same rows. */
  lemma {:induction false} FilterAgrees(tasks: map<int, Task>, ids: seq<int>, keep1: Task -> bool, keep2: Task -> bool)
    requires forall i :: i in ids ==> i in tasks && tasks[i].id == i
    requires forall j, k :: 0 <= j < k < |ids| ==> ids[j] < ids[k]
    requires forall t :: keep1(t) == keep2(t)
    ensures Filter(tasks, ids, keep1) == Filter(tasks, ids, keep2)
    decreases |ids|
  {
    if ids != [] {
      FilterAgrees(tasks, ids[1..], keep1, keep2);
    }
  }

  /** The exact-date query is the range query whose two bounds are that date. */
  lemma ExactDateIsDegenerateRange(tasks: map<int, Task>, nextId: int, date: LocalDateTime, completed: bool)
    requires WellFormed(tasks, nextId)
    ensures FindByDateAndCompleted(tasks, nextId, date, completed)
         == FindByDateBetweenAndCompleted(tasks, nextId, date, date, completed)
  {
    var exact := (t: Task) => t.date == date && t.completed == completed;
    var between := (t: Task) => IsBetween(t.date, date, date) && t.completed == completed;
    forall t: Task ensures exact(t) == between(t) {
      BetweenEqualBounds(t.date, date);
    }
    FilterAgrees(tasks, ScanIds(tasks, 1, nextId), exact, between);
  }

  // ---------------------------------------------------------------- the table

  /** The repository: a table of tasks keyed by id and an identity generator. */
  class TaskRepository {
    var tasks: map<int, Task>
    var nextId: int

    ghost predicate Valid()
      reads this
    {
      WellFormed(tasks, nextId)
    }

    /** An empty table whose first generated id is 1. */
    constructor ()
      ensures Valid() && tasks == map[] && nextId == 1
    {
      tasks := map[];
      nextId := 1;
    }

    /** `findById(id)`: the row stored under `id`, if any. */
    method FindById(id: int) returns (found: Option<Task>)
      requires Valid()
      ensures found.Some? <==> id in tasks
      ensures found.Some? ==> found.value == tasks[id] && found.value.id == id
    {
      if id in tasks {
        found := Some(tasks[id]);
      } else {
        found := None;
      }
    }

    /** `existsById(id)`. */
    method ExistsById(id: int) returns (exists_: bool)
      ensures exists_ <==> id in tasks
    {
      exists_ := id in tasks;
    }

    /** `save(task)` for a task without an id: the generator assigns the
        next id and the row is inserted under it. */
    method Insert(title: string, description: string, date: LocalDateTime, completed: bool)
      returns (saved: Task)
      requires Valid()
      modifies this
      ensures Valid()
      ensures saved == Task(old(nextId), title, description, date, completed)
      ensures saved.id !in old(tasks)
      ensures tasks == old(tasks)[saved.id := saved]
      ensures nextId == old(nextId) + 1
    {
      saved := Task(nextId, title, description, date, completed);
      tasks := tasks[nextId := saved];
      nextId := nextId + 1;
    }

    /** `save(task)` for a task read from the table: the row under its id
        is overwritten. */
    method Save(task: Task) returns (saved: Task)
      requires Valid() && task.id in tasks
      modifies this
      ensures Valid()
      ensures saved == task
      ensures tasks == old(tasks)[task.id := task]
      ensures nextId == old(nextId)
    {
      tasks := tasks[task.id := task];
      saved := task;
    }

    /** `deleteById(id)`: the row under `id` is removed. */
    method DeleteById(id: int)
      requires Valid()
      modifies this
      ensures Valid()
      ensures tasks == old(tasks) - {id}
      ensures nextId == old(nextId)
    {
      tasks := tasks - {id};
    }
  }
}
