/** `TaskController.getTasksByIntervalAndCompletionStatus`: the dispatch
    from an interval name ("today", "week", "month") and a direction
    ("future" or anything else) to a date-range query.  Both request
    parameters are optional, so each is an `Option<string>`. */
module TaskController {
  import opened Wrappers
  import opened Strings
  import opened Time
  import opened TaskStore
  import opened Exceptions
  import opened TaskService

  /** An inclusive range of date-times. */
  datatype DateTimeRange = DateTimeRange(start: LocalDateTime, end: LocalDateTime)

  /** The range each accepted interval queries, or the error for any other
      interval; the direction matters only for "week" and "month", where
      exactly "future" looks forward. */
  function ResolveInterval(interval: Option<string>, direction: Option<string>, now: LocalDateTime)
    : (r: Result<DateTimeRange, InvalidIntervalException>)
    ensures r.Success? <==> interval == Some("today") || interval == Some("week") || interval == Some("month")
    ensures r.Failure? ==> r.error.message == "Invalid interval value: " + StringValueOf(interval)
    ensures r.Success? ==> IsBetween(now, r.value.start, r.value.end)
    ensures r.Success? ==> !IsBefore(r.value.end, r.value.start)
  {
    WeekAndMonthRangesAroundNow(now);
    var future := direction == Some("future");
    if interval == Some("today") then
      Success(DateTimeRange(AtStartOfDay(now.date), AtEndOfDay(now.date)))
    else if interval == Some("week") then
      Success(if future then DateTimeRange(now, PlusWeeks(now, 1)) else DateTimeRange(MinusWeeks(now, 1), now))
    else if interval == Some("month") then
      Success(if future then DateTimeRange(now, PlusMonths(now, 1)) else DateTimeRange(MinusMonths(now, 1), now))
    else
      Failure(InvalidIntervalException("Invalid interval value: " + StringValueOf(interval)))
  }

  /** `GET /api/v1/tasks/filtered?interval=..&completed=..&direction=..`:
      the if/else chain of the controller, calling the service. */
  function GetTasksByIntervalAndCompletionStatus(
    tasks: map<int, Task>, nextId: int,
    interval: Option<string>, completed: bool, direction: Option<string>, now: LocalDateTime)
    : (r: Result<seq<TaskResponse>, InvalidIntervalException>)
    requires WellFormed(tasks, nextId)
    ensures r.Failure? <==> ResolveInterval(interval, direction, now).Failure?
    ensures r.Failure? ==> r.error == ResolveInterval(interval, direction, now).error
    ensures r.Success? ==>
      var range := ResolveInterval(interval, direction, now).value;
      ListsExactly(r.value, tasks, range.start, range.end, completed)
  {
    if interval == Some("today") then
      var today := now.date;
      var startOfDay := AtStartOfDay(today);
      var endOfDay := AtEndOfDay(today);
      Success(GetTasksByDateRangeAndCompletionStatus(tasks, nextId, startOfDay, endOfDay, completed))
    else if interval == Some("week") then
      if direction == Some("future") then
        Success(GetUpcomingTasksByWeekAndCompletionStatus(tasks, nextId, completed, now))
      else
        Success(GetTasksByWeekAndCompletionStatus(tasks, nextId, completed, now))
    else if interval == Some("month") then
      if direction == Some("future") then
        Success(GetUpcomingTasksByMonthAndCompletionStatus(tasks, nextId, completed, now))
      else
        Success(GetTasksByMonthAndCompletionStatus(tasks, nextId, completed, now))
    else
      Failure(InvalidIntervalException("Invalid interval value: " + StringValueOf(interval)))
  }

  /** "today" covers exactly the calendar day of `now`, whatever the direction. */
  lemma TodayIsTheWholeDay(direction: Option<string>, now: LocalDateTime, t: LocalDateTime)
    ensures ResolveInterval(Some("today"), direction, now).Success?
    ensures var range := ResolveInterval(Some("today"), direction, now).value;
      IsBetween(t, range.start, range.end) <==> t.date == now.date
  {
    WholeDay(t, now.date);
  }

  /** For "week" and "month", exactly the direction "future" gives a range
      that starts at `now`; every other direction, absent included, gives a
      range that ends at `now`. */
  lemma OnlyFutureLooksForward(interval: Option<string>, direction: Option<string>, now: LocalDateTime)
    requires interval == Some("week") || interval == Some("month")
    ensures ResolveInterval(interval, direction, now).Success?
    ensures var range := ResolveInterval(interval, direction, now).value;
      (range.start == now <==> direction == Some("future")) &&
      (range.end == now <==> direction != Some("future"))
  {
    WeekAndMonthRangesAroundNow(now);
  }

  /** With the direction "future", a task three days ahead is in the week
      and one eight days ahead is not. */
  lemma UpcomingWeekExample(now: LocalDateTime)
    ensures var range := ResolveInterval(Some("week"), Some("future"), now).value;
      IsBetween(LocalDateTime(PlusDays(now.date, 3), now.nanoOfDay), range.start, range.end) &&
      !IsBetween(LocalDateTime(PlusDays(now.date, 8), now.nanoOfDay), range.start, range.end)
  {
    PlusDaysMonotone(now.date, 3, 7);
    PlusDaysMonotone(now.date, 7, 8);
  }

  /** At 10:00 on 15 March 2024, "today" includes 09:00 that day and
      excludes 23:00 the day before. */
  lemma TodayExample()
    ensures var now := LocalDateTime(Date(2024, 3, 15), 10 * 3600 * 1_000_000_000);
      var range := ResolveInterval(Some("today"), None, now).value;
      IsBetween(LocalDateTime(Date(2024, 3, 15), 9 * 3600 * 1_000_000_000), range.start, range.end) &&
      !IsBetween(LocalDateTime(Date(2024, 3, 14), 23 * 3600 * 1_000_000_000), range.start, range.end)
  {
  }

  /** "yearly" is rejected, and the message names it. */
  lemma YearlyIsRejected(direction: Option<string>, now: LocalDateTime)
    ensures ResolveInterval(Some("yearly"), direction, now)
         == Failure(InvalidIntervalException("Invalid interval value: yearly"))
  {
    assert "yearly"[0] != "today"[0] && "yearly"[0] != "week"[0] && "yearly"[0] != "month"[0];
    assert "Invalid interval value: " + "yearly" == "Invalid interval value: yearly";
  }

  /** Interval names are case-sensitive, and an absent interval is reported
      as "null". */
  lemma CaseAndAbsenceAreRejected(direction: Option<string>, now: LocalDateTime)
    ensures ResolveInterval(Some("Today"), direction, now).Failure?
    ensures ResolveInterval(None, direction, now)
         == Failure(InvalidIntervalException("Invalid interval value: null"))
  {
    assert "Today"[0] != "today"[0] && |"Today"| != |"week"| && "Today"[0] != "month"[0];
    assert "Invalid interval value: " + "null" == "Invalid interval value: null";
  }
}
