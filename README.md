# Task service: lifecycle and interval queries

A Dafny model of the core of a Spring Boot task-tracking service: the
lifecycle operations of `TaskServiceImpl` (create, update, toggle
completion, delete) over a repository of tasks keyed by id, the date-range
queries it runs against that repository, and the interval dispatch of
`TaskController.getTasksByIntervalAndCompletionStatus`, which turns an
interval name ("today", "week", "month") and a direction ("future" or
anything else) into an inclusive date-time range.

Files, one module each:

- `wrappers.dfy` (`Wrappers`): `Option` for nullable request parameters and
  `findById` results, `Result` and `Outcome` for operations that throw.
- `strings.dfy` (`Strings`): `Long.toString` and `String.valueOf` as they
  appear in the two error messages, with a parser that undoes the former.
- `time.dfy` (`Time`): `LocalDate`/`LocalDateTime` as (year, month, day) plus
  nanosecond of day, their order, start and end of day, and
  `plusWeeks`/`minusWeeks`/`plusMonths`/`minusMonths` in the ISO calendar.
  Weeks are seven calendar days. Months follow java.time's rule: add to the
  month count, split it with floor division by 12, and clamp the day to the
  length of the new month. That the month shifts move strictly forward or
  back is proved from this definition, not assumed.
- `exceptions.dfy` (`Exceptions`): `TaskNotFoundException` with its message
  "Task with ID <id> not found.", and `InvalidIntervalException`.
- `task_store.dfy` (`TaskStore`): the `Task` entity and the class
  `TaskRepository`. Its table is a `map<int, Task>` and `nextId` is the
  identity generator. It holds the inherited `JpaRepository` operations the
  service calls and the two derived queries of `TaskRepository`, both with
  inclusive "Between" semantics.
- `task_service.dfy` (`TaskService`): the DTOs, `convertToTaskResponse`, the
  six query operations as functions of the table, and the class
  `TaskServiceImpl` whose methods perform the four mutations step by step
  (find, set fields, save) against its `TaskRepository`.
- `task_controller.dfy` (`TaskController`): the interval dispatch as a pure
  function, plus `ResolveInterval`, a reference definition of the range
  each accepted interval denotes.

The current time is a parameter `now` everywhere the source reads the clock
(`TaskServiceImpl.java` lines 28, 82, 92, 102, 112; `TaskController.java`
line 49).

Points where the model follows what the code does rather than what its
names suggest:
- Ranges are inclusive at both ends (SQL `BETWEEN`), not half-open.
- The exact-date query compares the stored date-time for equality. It does
  not cover the whole day. `ExactDateIsDegenerateRange` shows it is the range
  query with both bounds equal to that instant.
- `updateTask` is the partial update: title and description only.
- `TaskRepository` declares its date parameters as `LocalDate`
  (`TaskRepository.java` lines 12 and 14). The service passes `LocalDateTime`
  (`TaskServiceImpl.java` lines 66 and 73). The model uses `LocalDateTime`
  throughout.

The entity `Task`, the request `TaskCreationRequest` and the exception
`InvalidIntervalException` are rebuilt from the setters and constructors
the service and controller call and from the fields of `TaskResponse`.

## Model

| member | source | states |
|---|---|---|
| `Strings.LongToStringRoundTrip` | src/main/java/org/example/taskService/exception/TaskNotFoundException.java:5 | the decimal rendering of an id in the message parses back to the same id |
| `Strings.LongToStringInjective` | src/main/java/org/example/taskService/exception/TaskNotFoundException.java:5 | distinct ids render as distinct strings, and equal ids as equal ones |
| `Exceptions.TaskNotFoundException.Message` | src/main/java/org/example/taskService/exception/TaskNotFoundException.java:4-5 | the message is "Task with ID ", then the id in decimal, then " not found." |
| `Exceptions.TaskNotFoundMessageIdentifiesTask` | src/main/java/org/example/taskService/exception/TaskNotFoundException.java:5 | two not-found messages are equal exactly when they are about the same id |
| `Exceptions.TaskNotFoundMessageExample` | src/test/java/TaskControllerTest.java:130 | the message for id 999 is "Task with ID 999 not found." |
| `Time.IsBeforeIsStrictTotalOrder` | src/main/java/org/example/taskService/repository/TaskRepository.java:14 | the date-time order behind the Between query is irreflexive, transitive and total |
| `Time.BetweenEqualBounds` | src/main/java/org/example/taskService/repository/TaskRepository.java:12-14 | a range whose two bounds are one instant contains that instant only |
| `Time.PlusDays` | src/main/java/org/example/taskService/service/TaskServiceImpl.java:103 | adding a positive number of days moves strictly forward, a negative number strictly back |
| `Time.NextDay` | src/main/java/org/example/taskService/service/TaskServiceImpl.java:103 | the next calendar day: later than the date, with no valid date in between |
| `Time.PrevDay` | src/main/java/org/example/taskService/service/TaskServiceImpl.java:83 | the previous calendar day: earlier than the date, with no valid date in between |
| `Time.PlusDaysExamples` | src/main/java/org/example/taskService/service/TaskServiceImpl.java:103 | day steps cross a leap day, a non-leap February and a year end as the calendar does (28 Dec 2024 plus 7 days is 4 Jan 2025) |
| `Time.PlusDaysAdditive` | src/main/java/org/example/taskService/service/TaskServiceImpl.java:83 | adding a days and then b days is adding a + b days |
| `Time.PlusDaysRoundTrip` | src/main/java/org/example/taskService/service/TaskServiceImpl.java:83 | going n days forward and n days back returns to the same date, so `minusWeeks(1)` undoes `plusWeeks(1)` |
| `Time.PlusDaysMonotone` | src/main/java/org/example/taskService/service/TaskServiceImpl.java:103 | a larger day offset gives a strictly later date |
| `Time.DatePlusMonths` | src/main/java/org/example/taskService/service/TaskServiceImpl.java:113 | the month count moves by exactly the given months; the day is kept or clamped to the month's last day; positive moves go strictly forward, negative strictly back |
| `Time.ShiftsAreMonotone` | src/main/java/org/example/taskService/service/TaskServiceImpl.java:83-113 | `plusWeeks` and `plusMonths` by a positive amount go strictly forward; `minusWeeks` and `minusMonths` go strictly back |
| `Time.WholeDay` | src/main/java/org/example/taskService/controller/TaskController.java:49-51 | an instant lies between start of day and `LocalTime.MAX` of a date exactly when it falls on that date |
| `Time.MonthClampExample` | src/main/java/org/example/taskService/service/TaskServiceImpl.java:93 | 31 Jan 2024 plus a month is 29 Feb 2024; minus a month from there is 29 Jan, so months do not round-trip |
| `TaskStore.FindByDateBetweenAndCompleted` | src/main/java/org/example/taskService/repository/TaskRepository.java:14 | returns exactly the stored rows with start <= date <= end and the requested flag, each once, in ascending id order |
| `TaskStore.FindByDateAndCompleted` | src/main/java/org/example/taskService/repository/TaskRepository.java:12 | returns exactly the stored rows dated exactly the given instant with the requested flag, in ascending id order |
| `TaskStore.ExactDateIsDegenerateRange` | src/main/java/org/example/taskService/repository/TaskRepository.java:12-14 | the exact-date query equals the range query whose two bounds are that instant |
| `TaskStore.TaskRepository.constructor` | src/main/java/org/example/taskService/repository/TaskRepository.java:11 | a new repository is empty and well formed, and its first generated id is 1 |
| `TaskStore.TaskRepository.FindById` | src/main/java/org/example/taskService/service/TaskServiceImpl.java:50 | finds a row exactly when the id is stored, and the row found carries that id |
| `TaskStore.TaskRepository.ExistsById` | src/main/java/org/example/taskService/service/TaskServiceImpl.java:58 | true exactly when a row is stored under the id |
| `TaskStore.TaskRepository.Insert` | src/main/java/org/example/taskService/service/TaskServiceImpl.java:30 | a task saved without an id is stored under a fresh id; no other row changes; the generator advances |
| `TaskStore.TaskRepository.Save` | src/main/java/org/example/taskService/service/TaskServiceImpl.java:41 | a task read from the table is written back under its id; nothing else changes |
| `TaskStore.TaskRepository.DeleteById` | src/main/java/org/example/taskService/service/TaskServiceImpl.java:61 | the row under the id is removed; nothing else changes |
| `TaskService.ResponsesListExactly` | src/main/java/org/example/taskService/service/TaskServiceImpl.java:120-122 | covers `ConvertToTaskResponse` (lines 120-122) and `Responses`, the stream map over the query result (lines 67-69, 74-76): converting the matching rows field by field yields exactly the matching tasks as responses, in the same order |
| `TaskService.GetTasksByDateRangeAndCompletionStatus` | src/main/java/org/example/taskService/service/TaskServiceImpl.java:72-77 | lists, converted, exactly the stored tasks in [start, end] with the requested flag |
| `TaskService.GetTasksByDateAndCompletionStatus` | src/main/java/org/example/taskService/service/TaskServiceImpl.java:65-70 | lists exactly the stored tasks dated exactly the given instant with the requested flag |
| `TaskService.GetTasksByWeekAndCompletionStatus` | src/main/java/org/example/taskService/service/TaskServiceImpl.java:81-88 | lists exactly the matching tasks in [now minus one week, now] |
| `TaskService.GetTasksByMonthAndCompletionStatus` | src/main/java/org/example/taskService/service/TaskServiceImpl.java:91-98 | lists exactly the matching tasks in [now minus one month, now] |
| `TaskService.GetUpcomingTasksByWeekAndCompletionStatus` | src/main/java/org/example/taskService/service/TaskServiceImpl.java:101-108 | lists exactly the matching tasks in [now, now plus one week] |
| `TaskService.GetUpcomingTasksByMonthAndCompletionStatus` | src/main/java/org/example/taskService/service/TaskServiceImpl.java:111-118 | lists exactly the matching tasks in [now, now plus one month] |
| `TaskService.WeekAndMonthRangesAroundNow` | src/main/java/org/example/taskService/service/TaskServiceImpl.java:81-118 | each of the four ranges has now as one end and extends strictly away from it, so start < end and now is inside |
| `TaskService.UpdatedChangesOnlyTitleAndDescription` | src/main/java/org/example/taskService/service/TaskServiceImpl.java:38-43 | an update keeps every other row, and keeps the id, date and flag of the updated task |
| `TaskService.UpdatedIsIdempotent` | src/main/java/org/example/taskService/service/TaskServiceImpl.java:38-43 | applying the same update twice equals applying it once |
| `TaskService.ToggledIsSelfInverse` | src/main/java/org/example/taskService/service/TaskServiceImpl.java:49-53 | toggling negates only that task's flag, and toggling twice restores the table |
| `TaskService.TaskServiceImpl.constructor` | src/main/java/org/example/taskService/service/TaskServiceImpl.java:18-20 | the service works on the repository it is given |
| `TaskService.TaskServiceImpl.CreateTask` | src/main/java/org/example/taskService/service/TaskServiceImpl.java:24-32 | adds exactly one task under a fresh id with the request's title and description, dated now and not completed; other rows unchanged; returns it |
| `TaskService.TaskServiceImpl.UpdateTask` | src/main/java/org/example/taskService/service/TaskServiceImpl.java:36-45 | absent id: fails with TaskNotFound(id) and the table is unchanged; present id: the new table is the updated one and the updated task is returned |
| `TaskService.TaskServiceImpl.ToggleTaskCompletion` | src/main/java/org/example/taskService/service/TaskServiceImpl.java:49-53 | absent id: fails with TaskNotFound(id) and the table is unchanged; present id: only that task's flag is negated |
| `TaskService.TaskServiceImpl.DeleteTask` | src/main/java/org/example/taskService/service/TaskServiceImpl.java:57-62 | absent id: fails with TaskNotFound(id) and the table is unchanged; present id: exactly that row is removed |
| `TaskService.ToggleTwice` | src/main/java/org/example/taskService/service/TaskServiceImpl.java:49-53 | two toggles through the service leave the table as it was |
| `TaskService.BuyMilkScenario` | src/main/java/org/example/taskService/service/TaskServiceImpl.java:24-62 | create, toggle, toggle, delete, update: the flag goes false, true, false; delete succeeds; the update then fails with TaskNotFound; a new task gets a new id |
| `TaskController.ResolveInterval` | src/main/java/org/example/taskService/controller/TaskController.java:48-69 | succeeds exactly for "today", "week" and "month"; otherwise the error message is "Invalid interval value: " followed by the value or "null"; every range has start <= end and contains now |
| `TaskController.GetTasksByIntervalAndCompletionStatus` | src/main/java/org/example/taskService/controller/TaskController.java:43-70 | fails exactly when the interval is not accepted, with the same error; on success lists exactly the matching tasks in the resolved range |
| `TaskController.TodayIsTheWholeDay` | src/main/java/org/example/taskService/controller/TaskController.java:48-54 | "today" covers exactly the calendar day of now, whatever the direction |
| `TaskController.OnlyFutureLooksForward` | src/main/java/org/example/taskService/controller/TaskController.java:55-66 | for week and month, the range starts at now exactly when the direction is "future", and ends at now otherwise, absent included |
| `TaskController.UpcomingWeekExample` | src/main/java/org/example/taskService/service/TaskServiceImpl.java:101-104 | in the upcoming week, a task three days ahead is included and one eight days ahead is not |
| `TaskController.TodayExample` | src/main/java/org/example/taskService/controller/TaskController.java:48-51 | at 10:00 on 15 March 2024, "today" includes 09:00 that day and excludes 23:00 the day before |
| `TaskController.YearlyIsRejected` | src/main/java/org/example/taskService/controller/TaskController.java:67-69 | "yearly" fails with the message "Invalid interval value: yearly" |
| `TaskController.CaseAndAbsenceAreRejected` | src/main/java/org/example/taskService/controller/TaskController.java:48-69 | "Today" is rejected because names are case-sensitive; an absent interval fails with "Invalid interval value: null" |

## Left out

- The clock: every operation takes `now` as an argument instead of reading the system clock. Each request path reads the clock at most once, so a single `now` per request matches the source.
- HTTP plumbing: routes, status codes, `ResponseEntity`, and the create, update, toggle, delete and exact-date handlers of the controller, which only delegate. `GlobalExceptionHandler` (the mapping of exceptions to 404 and 400 responses and the ", " join of validation messages) is also out.
- `@NotBlank` validation of titles and descriptions: the framework enforces it before the service is called.
- `@Transactional` and concurrent requests: the model is sequential, so each mutation is one atomic step.
- Integer widths: ids are unbounded integers rather than 64-bit `Long`, and the identity generator never overflows.
- java.time's year limits (±999,999,999) and the `DateTimeException` they raise are not modelled: years are unbounded.
- Result order: the source leaves the order of a query's list to the database. The model returns rows in ascending id order.
- `TaskStore.TaskRepository.Save`: modelled only for a task already in the table, which is the only way the service calls it. Saving a detached entity whose id is not stored is not modelled.
- The JPA entity's identity: `Task` is a value. The service's in-place setters on the managed entity become record updates followed by `save`.
