# PiggyPlanner in Dafny

A model of the non-GUI core of PiggyPlanner, a small Java task tracker. The user types one line
at a time. The first word selects a command: `list`, `mark N`, `unmark N`, `todo <name>`,
`deadline <name> /by <d/M/yyyy HHmm>`, `event <name> /from <…> /to <…>`, `delete N`,
`find <keywords>`, `agenda for <d/M/yyyy>` or `bye`. The planner checks the shape of the
arguments and runs the command on the shared task list. After each command that may change the
list, it saves the whole list to a file of lines `status | K: name | time`.

The layers of the model follow the program:

- `Tasks` (tasks.dfy) holds the tasks. `Task` is a class with a final `info` and a mutable
  `isDone`.
  - `info` is a ToDo, a Deadline with its due date-time, or an Event with start and end.
  - The subset type `Info` carries the Event constructor's start-before-end check.
  - `TaskRecord` is the value of one task object at one moment.
  - `Render` is `toString`, and `SameTask` is `equals`: the same class and the same name.
- `TaskLists` (tasklist.dfy) models the lists.
  - `TaskArrayList` is `java.util.ArrayList<Task>`, a sequence of object references that
    commands edit in place.
  - `TaskList` wraps that same list without copying it, as the Java class does.
- `Time` (time.dfy) is the part of java.time the program uses:
  - dates, date-times and their order;
  - the `d/M/yyyy HHmm` and `d/M/yyyy` formatters in both directions;
  - the English display patterns.
- `JavaText` (javatext.dfy) is the part of `java.lang.String` and `Integer` the program uses.
- `Storage` (storage.dfy) is the line codec of the save file and the line loops of `loadList`
  and `updateList`.
- `CommandTypes` (commandtype.dfy) is `CommandType.fromString`.
- One module per command class:
  - `AddTask` (addtask.dfy), `Mark` (mark.dfy), `Unmark` (unmark.dfy) and `DeleteTask`
    (deletetask.dfy). `TaskIndex` (taskindex.dfy) holds the index reading that Mark, Unmark
    and DeleteTask share.
  - `ListCommand` (listcommand.dfy). `Listing` (listing.dfy) holds the numbered-listing helpers
    that ListCommand and Find share.
  - `Find` (find.dfy) and `DayPlan` (dayplan.dfy).
- `Planner` (planner.dfy) is the `PiggyPlanner` class: `validateArguments`, `processCommand`
  and `getResponse`.

How commands are modelled:

- Each command that changes the list has a pure `Step` function over the task states. Its
  method on the shared list is proved to produce exactly the reply and new states of `Step`.
  The lemmas then state the properties of `Step`: which inputs are refused, that nothing else
  changes, that no duplicates appear, and so on.
- A reply is an `Outcome`:
  - `Done(text)` is a returned string;
  - `Error(message)` is a `PiggyException`;
  - `Fault(name)` is an unchecked Java exception that escapes, such as
    ArrayIndexOutOfBoundsException or StringIndexOutOfBoundsException.
- The save file is a sequence of lines. The planner's `saved` field holds what the file
  contains.
- Loading reads a sequence of lines. Its result is a fresh list, or the load error.

Two behaviours of the code are kept as written:

- Inside the `try` blocks of `AddTask.deadline` and `AddTask.event`, a duplicate's
  `PiggyException` is caught by `catch (Exception e)`. A duplicate deadline or event is
  therefore reported with the invalid-date message. The request's `duplicateMessage` is that
  message, and `ReadDeadlineRefusals`/`ReadEventRefusals` state it.
- Commands receive the raw input line, while classification uses the trimmed one. The fixed
  offsets of `substring(5)`, `substring(9, …)` and `substring(6, …)` are taken on the raw line.

## Model

| member | source | states |
|---|---|---|
| Tasks.StatusText | src/main/java/tasks/Task.java:25-30 | the status is one character: `X` exactly when done, a space exactly when not |
| Tasks.Task.Status | src/main/java/tasks/Task.java:25-30 | `status()` of the object is `X` iff its flag is set and a space iff it is not |
| Tasks.Task.Mark | src/main/java/tasks/Task.java:35-37 | afterwards the task is done whatever it was before; only the flag changes (the info is final) |
| Tasks.Task.Unmark | src/main/java/tasks/Task.java:42-44 | afterwards the task is not done whatever it was before |
| Tasks.Task.Equals | src/main/java/tasks/Task.java:73-83 | `equals` holds iff the two tasks have the same kind and name; the flag and dates take no part |
| Tasks.SameTaskEquivalence | src/main/java/tasks/Task.java:73-83 | `equals` is reflexive, symmetric and transitive |
| Tasks.SameTaskCases | src/main/java/tasks/Task.java:73-83 | two ToDos are equal iff their names are; one-named Deadlines are equal whatever their dates; different kinds are never equal |
| Tasks.Kind | src/main/java/storage/Storage.java:204-211 | the kind letter is one character, and it is `T`, `D` or `E` exactly for a ToDo, a Deadline or an Event |
| Tasks.RenderLayout | src/main/java/tasks/Task.java:61-63 | every rendering starts `[K][s] ` followed by the name, for the task's kind letter and status |
| Tasks.RenderStatusOnly | src/main/java/tasks/Task.java:25-63 | the done and not-done renderings of a task have one length and differ only at index 4 (`X` versus a space) |
| Tasks.Task.ToDo | src/main/java/tasks/ToDo.java:13-15 | `new ToDo(name)` has that name and is not done |
| Tasks.Task.ToDoWithStatus | src/main/java/tasks/ToDo.java:23-26 | `new ToDo(name, isDone)` has that name and flag |
| Tasks.Task.Deadline | src/main/java/tasks/Deadline.java:20-23 | `new Deadline(name, due)` keeps the due date and is not done; any date is accepted |
| Tasks.Task.DeadlineWithStatus | src/main/java/tasks/Deadline.java:32-36 | the three-argument Deadline keeps its name, due date and flag |
| Tasks.Task.Event | src/main/java/tasks/Event.java:26-33 | `new Event(name, start, end)` succeeds iff start is strictly before end, with those dates and not done; otherwise it fails with the order message |
| Tasks.Task.EventWithStatus | src/main/java/tasks/Event.java:44-52 | the four-argument Event succeeds iff start is before end, with the given flag; otherwise it fails with the order message |
| Tasks.ClockText | src/main/java/tasks/Deadline.java:52-54 | `h:mma` lowercased: the 12-hour clock hour, two-digit minutes and `am` before noon, `pm` after |
| Tasks.Task.GetTime | src/main/java/tasks/Deadline.java:52-54 | `getTime` is the lowercased 12-hour clock time of the due date |
| Tasks.ClockTextExamples | src/main/java/tasks/Deadline.java:52-54 | 00:00 is `12:00am`, 12:00 is `12:00pm`, 21:30 is `9:30pm`, 09:30 is `9:30am` |
| Tasks.EventIncludesRange | src/main/java/tasks/Event.java:89-91 | an event covers a date iff the date lies between its start and end days, both included and whatever the times; it covers its first and last day |
| Tasks.Task.IncludesDate | src/main/java/tasks/Event.java:89-91 | `includesDate` is that inclusive calendar-range test |
| Time.IsBeforeStrictTotal | src/main/java/tasks/Event.java:61-63 | `isBefore` on date-times is irreflexive, asymmetric, transitive and total |
| Time.IsBeforeKey | src/main/java/tasks/Event.java:61-63 | `isBefore` is the numeric order of the `yyyyMMddHHmm` keys |
| Time.DateIsBeforeKey | src/main/java/tasks/Event.java:89-91 | `isBefore` on dates is the numeric order of the `yyyyMMdd` keys |
| Time.IsBeforeDates | src/main/java/tasks/Event.java:89-91 | an earlier date-time never lies on a later calendar date |
| Time.DaysInMonth | src/main/java/commands/AddTask.java:68 | a month has 28 to 31 days, and 31 exactly for the long months |
| Time.ResolveDate | src/main/java/commands/AddTask.java:68 | the resolver accepts years 1-9999, months 1-12 and days 1-31, keeps year and month, and moves a day past the month's end to its last day |
| Time.ReadClock | src/main/java/commands/AddTask.java:18 | the `HHmm` part gives an hour below 24 and a minute below 60, or `2400`, that the SMART resolver admits as the end of the day |
| Time.NextDay | src/main/java/commands/AddTask.java:18 | the day after a date comes after it, and every date the model holds except 31/12/9999 has one |
| Time.ParseDateTimeEndOfDay | src/main/java/commands/AddTask.java:18 | `d/M/yyyy 2400`, with day and month of at most 19 digits, parses as midnight at the start of the day after the resolved date |
| Time.EndOfYearMidnight | src/main/java/commands/AddTask.java:68 | `31/12/2025 2400` is read as 1/1/2026 at 00:00 |
| Time.ParseDateTimeOf | src/main/java/commands/AddTask.java:18 | `d/M/yyyy HHmm` made of digit runs, with day and month of at most 19 digits, parses as the resolved date at that time |
| Time.ReadSlashedTooLong | src/main/java/commands/AddTask.java:18 | more than 19 digits before a slash are not read as a `d` or `M` field |
| Time.ReadDateFieldsTooLong | src/main/java/commands/DayPlan.java:50 | a day or a month of more than 19 digits makes the whole date unreadable |
| Time.LongDayRefused | src/main/java/commands/DayPlan.java:50-53 | a day zero-padded to 20 digits (`00000000000000000001/1/2020`) is refused |
| Time.ParseFormattedDateTime | src/main/java/storage/Storage.java:144 | parsing a date-time written in the `d/M/yyyy HHmm` format gives it back |
| Time.ParseFormattedDate | src/main/java/commands/DayPlan.java:50 | parsing a date written as `d/M/yyyy` gives it back |
| Time.ParseDateOfNumbers | src/main/java/commands/DayPlan.java:50 | any day and month and a four-digit year, typed with slashes, parse exactly as the resolver decides |
| Time.FormatMachineShape | src/main/java/storage/Storage.java:25 | a formatted date-time is non-empty, starts and ends with a digit, and holds only digits, slashes and a space |
| Time.ClockHour | src/main/java/tasks/Deadline.java:12 | the `h` field is between 1 and 12 and agrees with the hour modulo 12 |
| Time.ClockHourDetermines | src/main/java/tasks/Deadline.java:12 | the clock hour and the half of the day determine the hour |
| Time.DayOfWeek | src/main/java/tasks/Deadline.java:11 | the weekday index of `EEEE` is below 7 |
| Time.DayOfWeekAnchor | src/main/java/tasks/Deadline.java:11 | 1 January 2024 is a Monday |
| Time.DayOfWeekNext | src/main/java/tasks/Deadline.java:11 | the day after a date falls on the next weekday, Sunday being followed by Monday |
| Time.YearTermStep | src/main/java/tasks/Deadline.java:11 | a new year moves the weekdays on by one, and by two after a leap day |
| JavaText.TrimSpec | src/main/java/commands/AddTask.java:132 | `trim()` is empty exactly when every character is at most U+0020 |
| JavaText.TrimShape | src/main/java/commands/AddTask.java:35 | the trim is no longer than the string and neither of its ends is trimmable |
| JavaText.TrimIdempotent | src/main/java/commands/AddTask.java:132 | trimming twice is trimming once |
| JavaText.IndexOfSpec | src/main/java/commands/AddTask.java:61 | `indexOf` gives the first occurrence, and -1 exactly when there is none |
| JavaText.ContainsSpec | src/main/java/commands/AddTask.java:58 | `contains` holds exactly when the pattern occurs somewhere |
| JavaText.SubstringSpec | src/main/java/commands/AddTask.java:62 | an in-range `substring` has the range's length and sits between the parts before and after it |
| JavaText.Substring | src/main/java/commands/AddTask.java:62 | `substring` is defined exactly for `0 <= b <= e <= length` (otherwise it throws) |
| JavaText.SplitAllJoin | src/main/java/storage/Storage.java:81 | splitting loses nothing: joining the pieces with the separator gives the string back, and no piece holds the separator |
| JavaText.DropTrailingEmpty | src/main/java/storage/Storage.java:81 | `split` drops exactly the trailing empty pieces and keeps a prefix of them |
| JavaText.SplitOnce | src/main/java/piggyplanner/PiggyPlanner.java:44 | `split(" ", 2)` gives one piece iff there is no separator; otherwise the piece before the first one and the rest |
| JavaText.Lower | src/main/java/commands/Find.java:55-57 | lowering keeps the length and maps each character on its own |
| JavaText.LowerIdempotent | src/main/java/commands/Find.java:55-57 | lowering twice is lowering once |
| JavaText.LowerConcat | src/main/java/tasks/Deadline.java:63 | lowering distributes over concatenation |
| JavaText.NatToString | src/main/java/commands/DeleteTask.java:35 | the count is written as digits, one digit exactly below 10 |
| JavaText.NatToStringValue | src/main/java/commands/DeleteTask.java:35 | the written digits read back as the number |
| JavaText.ZeroPadValue | src/main/java/storage/Storage.java:25 | a zero-padded field reads back as the number |
| JavaText.ParseInt | src/main/java/commands/Mark.java:21 | what the model reads is an optional sign and ASCII digits whose value fits in 32 bits |
| JavaText.ParseIntOfNatToString | src/main/java/commands/Mark.java:21 | `parseInt` reads back what `Integer.toString` writes |
| TaskIndex.ReadIndexOf | src/main/java/commands/Mark.java:21 | `word N` reads as the 0-based index N-1 |
| TaskIndex.ReadIndexOfWord | src/main/java/commands/Mark.java:21 | an input with no space has no second token, and the array access throws |
| TaskIndex.ReadIndexNotANumber | src/main/java/commands/Mark.java:39-40 | a second token that is not a number is reported as such |
| TaskLists.TaskArrayList.constructor | src/main/java/storage/Storage.java:55 | a new ArrayList is empty |
| TaskLists.TaskArrayList.Add | src/main/java/commands/AddTask.java:41 | `add` appends the object at the end and changes nothing else |
| TaskLists.TaskArrayList.Remove | src/main/java/commands/DeleteTask.java:29 | `remove(k)` returns the object at k and closes the gap; the others keep their order |
| TaskLists.TaskList.constructor | src/main/java/tasks/TaskList.java:14-16 | `new TaskList()` holds a fresh, empty list |
| TaskLists.TaskList.Wrap | src/main/java/tasks/TaskList.java:23-25 | `new TaskList(list)` keeps that very list, not a copy |
| TaskLists.TaskList.GetAllTasks | src/main/java/tasks/TaskList.java:32-34 | `getAllTasks` returns the list object held, so edits show through |
| TaskLists.TaskList.IsDuplicateTask | src/main/java/tasks/TaskList.java:43-50 | true iff some stored task `equals` the given one; the list is unchanged |
| TaskLists.ContainsEqual | src/main/java/commands/AddTask.java:164-171 | the `isDuplicate` loop is true iff some listed task `equals` the new one |
| Storage.CreateTaskSpec | src/main/java/storage/Storage.java:119-136 | a built task has the given kind letter, name and flag; only Deadline and Event lines can be fatal; any other kind letter is skipped |
| Storage.CreateDeadlineSpec | src/main/java/storage/Storage.java:138-146 | a Deadline line yields a Deadline with the line's name and flag; no `by: ` is a skip; an unreadable date aborts |
| Storage.CreateEventSpec | src/main/java/storage/Storage.java:148-157 | an Event line yields an Event with the line's name and flag; no `from: ` or no `, to: ` is a skip; past those, a missing end part or an unreadable start or end date aborts the load, and dates out of order are a skip |
| Storage.CreateDeadlineOf | src/main/java/storage/Storage.java:138-146 | `by: ` and a written date-time is read back as that due date |
| Storage.CreateEventOf | src/main/java/storage/Storage.java:148-157 | `from: a, to: b` with readable dates gives that Event if a is before b, and a skip (not an abort) otherwise |
| Storage.CreateEventParts | src/main/java/storage/Storage.java:150-156 | the same, for any time field whose pieces split and trim to the two date texts |
| Storage.ParseTaskSpec | src/main/java/storage/Storage.java:80-107 | a line with fewer than three fields, a middle field without a colon, or nothing after the middle field's first colon, is skipped; a read task is done iff the first field trims to `X` |
| Storage.SplitFormatted | src/main/java/storage/Storage.java:199-218 | a written line splits back into exactly its status, `K: name` and time fields |
| Storage.TimeInfoShape | src/main/java/storage/Storage.java:202-214 | the time field is `--`, `by: …` or `from: …, to: …`, holds no `|` and is its own trim |
| Storage.StatusTrim | src/main/java/storage/Storage.java:87-88 | the written status field is read back as the done flag |
| Storage.CreateFormatted | src/main/java/storage/Storage.java:119-157 | the kind letter, name, time field and flag written for a task build that task again |
| Storage.ParseFormatted | src/main/java/storage/Storage.java:80-107 | round trip: for a non-empty, trimmed name without `|` or `:`, reading a written line gives the same task state |
| Storage.ParseAllSpec | src/main/java/storage/Storage.java:60-65 | one result per line, each being what `parseTask` makes of that line |
| Storage.KeptAppend | src/main/java/storage/Storage.java:60-65 | the tasks from two runs of lines are those of the first run followed by those of the second |
| Storage.KeptOnlyParsed | src/main/java/storage/Storage.java:60-65 | only parsed lines yield tasks, in line order; no more tasks than lines |
| Storage.KeptParsedAll | src/main/java/storage/Storage.java:60-65 | when every line parses, the tasks are exactly the parsed ones |
| Storage.NoneAborted | src/main/java/storage/Storage.java:60-67 | links the two forms of "no fatal line": no aborted result among the parsed lines means no line of the file aborts the load |
| Storage.FormatAll | src/main/java/storage/Storage.java:177-180 | the file has one line per task, `formatTask` of it, in list order |
| Storage.LoadFormatted | src/main/java/storage/Storage.java:53-72 | saving and then loading gives back the list: no line is skipped and none is fatal |
| Storage.AddParsed | src/main/java/storage/Storage.java:61-64 | a parsed line's fresh task is appended after the earlier ones |
| Storage.LoadLine | src/main/java/storage/Storage.java:61-64 | the line is read as `parseTask` reads it, and the task it yields, if any, is appended to the list |
| Storage.LoadList | src/main/java/storage/Storage.java:53-72 | the load succeeds iff no line is fatal, with the tasks of the surviving lines in file order; otherwise it fails with the load error |
| Storage.UpdateList | src/main/java/storage/Storage.java:176-180 | the written lines are `formatTask` of each task, in list order |
| CommandTypes.ClassifySpec | src/main/java/commands/CommandType.java:25-46 | each recognised word selects exactly the command of that word, and every command word selects its command |
| CommandTypes.FromStringIgnoresCase | src/main/java/commands/CommandType.java:25 | an input and its lower-case form are classified alike |
| CommandTypes.FromStringWord | src/main/java/commands/CommandType.java:24-47 | every command word in any mix of cases selects its command (`agenda` DAYPLAN, `bye` EXIT) |
| CommandTypes.FindUnknownAsWritten | src/main/java/commands/CommandType.java:6-16 | as written, `find` is classified UNKNOWN |
| CommandTypes.AsWrittenDiffersOnlyOnFind | src/main/java/commands/CommandType.java:24-47 | the switch as written never gives FIND, and differs from the corrected classifier exactly on `find` in any case |
| CommandTypes.FindRecognised | src/main/java/commands/CommandType.java:24-47 | with the FIND constant, `find` in any case selects FIND, where the enum as written gives UNKNOWN |
| AddTask.AddStepSpec | src/main/java/commands/AddTask.java:38-44 | an add succeeds iff the input reads as a task no listed task equals; it appends that task, not done, at the end with the added message and size; otherwise nothing changes |
| AddTask.AddStepKeepsNoDuplicates | src/main/java/commands/AddTask.java:164-171 | adding keeps the list free of equal tasks, and afterwards the requested task is listed |
| AddTask.ReadTodoSpec | src/main/java/commands/AddTask.java:32-37 | `todo` is read iff the input is longer than 5 and the rest is not blank; the name is `substring(5).trim()`; otherwise the missing-name message |
| AddTask.ReadTodoOf | src/main/java/commands/AddTask.java:35 | `todo <name>` gives the ToDo of that name |
| AddTask.ReadDeadlineRefusals | src/main/java/commands/AddTask.java:58-79 | no `/by` is the missing-due message; `/by` before index 9 throws from `substring`; then a blank name, a blank date and an unreadable date each get their own message, and otherwise the Deadline is read with the trimmed name and date; a duplicate gets the invalid-date message |
| AddTask.ReadDeadlineOf | src/main/java/commands/AddTask.java:61-70 | `deadline <name> /by <date-time>` gives that Deadline |
| AddTask.ReadEventRefusals | src/main/java/commands/AddTask.java:93-121 | no `/from` or `/to` is refused; `/to` in front of the start text throws from `substring`; a read event starts before it ends; a duplicate gets the invalid-date message |
| AddTask.EventOfPartsCases | src/main/java/commands/AddTask.java:98-121 | a blank name, start or end gets its own message, in that order; an unreadable date or a start not before the end gets the invalid-event message; otherwise the Event is read with the trimmed parts |
| AddTask.EventChecksPass | src/main/java/commands/AddTask.java:101-111 | non-blank texts that parse to ordered date-times pass every check of `event` |
| AddTask.CutEventAt | src/main/java/commands/AddTask.java:96-100 | `event` cuts the name, start and end texts at the first `/from` and `/to` |
| AddTask.ReadEventOf | src/main/java/commands/AddTask.java:96-111 | `event <name> /from <start> /to <end>` with ordered dates gives that Event |
| AddTask.NewTask | src/main/java/commands/AddTask.java:37 | the new task object is fresh and not done |
| AddTask.Append | src/main/java/commands/AddTask.java:41 | appending a new object adds its state at the end and keeps the objects distinct |
| AddTask.AddIfNew | src/main/java/commands/AddTask.java:38-44 | the duplicate check, `add` and reply are `AddStep` of the request; earlier objects stay in place |
| AddTask.Todo | src/main/java/commands/AddTask.java:28-45 | `todo` gives the reply and new states of `AddStep(ReadTodo(input))` |
| AddTask.Deadline | src/main/java/commands/AddTask.java:55-80 | `deadline` gives the reply and new states of `AddStep(ReadDeadline(input))` |
| AddTask.Event | src/main/java/commands/AddTask.java:90-122 | `event` gives the reply and new states of `AddStep(ReadEvent(input))` |
| Mark.StepRefusalKeeps | src/main/java/commands/Mark.java:20-41 | every reply but success leaves all tasks unchanged and is the missing-token fault, the not-a-number error or the out-of-range error |
| Mark.StepOutOfRange | src/main/java/commands/Mark.java:22-24 | a number outside 1..size is refused with the out-of-range message |
| Mark.StepMarksOnlyIndex | src/main/java/commands/Mark.java:26-37 | only the task at the index becomes done, with the length and all others unchanged; an already-done task gives the already-marked reply |
| Mark.StepIdempotent | src/main/java/commands/Mark.java:29-30 | marking twice is marking once, and the second time replies already-marked |
| Mark.StepKeepsNoDuplicates | src/main/java/commands/Mark.java:33 | marking never makes two tasks equal |
| Mark.MarkedMessageShowsX | src/main/java/commands/Mark.java:35-36 | the success reply shows the task with `X` in its status box |
| Mark.Execute | src/main/java/commands/Mark.java:19-42 | the list keeps its objects, and its reply and states are those of `Mark.Step` |
| Unmark.StepRefusalKeeps | src/main/java/commands/Unmark.java:20-40 | every reply but success leaves all tasks unchanged and is one of the three refusals |
| Unmark.StepOutOfRange | src/main/java/commands/Unmark.java:22-24 | a number outside 1..size is refused |
| Unmark.StepUnmarksOnlyIndex | src/main/java/commands/Unmark.java:26-36 | only the task at the index is cleared, with the others unchanged; a not-done task gives the already-unmarked reply |
| Unmark.StepKeepsNoDuplicates | src/main/java/commands/Unmark.java:33 | unmarking never makes two tasks equal |
| Unmark.MarkThenUnmark | src/main/java/commands/Unmark.java:29-35 | marking and then unmarking a not-done task restores the list and the `[ ]` box |
| Unmark.Execute | src/main/java/commands/Unmark.java:19-41 | the list keeps its objects, and its reply and states are those of `Unmark.Step` |
| DeleteTask.StepRefusalKeeps | src/main/java/commands/DeleteTask.java:24-27 | a refusal leaves the list unchanged, and nothing can be deleted from an empty list |
| DeleteTask.StepRemovesIndex | src/main/java/commands/DeleteTask.java:28-35 | success removes exactly the task at the index: one shorter, earlier tasks in place, later tasks moved up, the reply naming it and the number left |
| DeleteTask.RemainingTextCases | src/main/java/commands/DeleteTask.java:30-35 | "only have 1 task" for one left, "have N tasks" otherwise, including 0 |
| DeleteTask.StepKeepsNoDuplicates | src/main/java/commands/DeleteTask.java:29 | deleting never makes two tasks equal |
| DeleteTask.RemoveAt | src/main/java/commands/DeleteTask.java:28-35 | at an index inside the list, the reply and states are those of `DeleteTask.Apply`, and exactly the object at the index is taken out |
| DeleteTask.Execute | src/main/java/commands/DeleteTask.java:22-40 | the reply and states are those of `DeleteTask.Step`; on success exactly the object at the index is taken out, otherwise the list is unchanged |
| Listing.LinesAppend | src/main/java/commands/ListCommand.java:21-24 | one more text appends its line, numbered one past the earlier ones |
| Listing.LineNumbered | src/main/java/commands/ListCommand.java:21-24 | the text at index k is on the line numbered k+1, right after the lines before it |
| Listing.TrimListing | src/main/java/commands/ListCommand.java:25 | trimming a listing drops only its final line break |
| ListCommand.EntryNumbered | src/main/java/commands/ListCommand.java:21-24 | the task at index k is rendered on line k+1, in list order |
| ListCommand.ListTextShape | src/main/java/commands/ListCommand.java:20-25 | a non-empty list gives the header and one numbered line per task without the last line break, never the empty-list message |
| ListCommand.Execute | src/main/java/commands/ListCommand.java:16-26 | the reply is the listing of the current task states; nothing is changed |
| Find.NonEmpty | src/main/java/commands/Find.java:31-35 | the keywords kept are exactly the non-empty raw words |
| Find.KeepNonEmpty | src/main/java/commands/Find.java:28-36 | the keyword loop keeps the non-empty words, in order |
| Find.KeywordsAreWords | src/main/java/commands/Find.java:28-36 | every keyword is non-empty and has no space |
| Find.KeywordsPresent | src/main/java/commands/Find.java:23-25 | past the missing-keyword check there is at least one keyword |
| Find.MatchesIgnoresCase | src/main/java/commands/Find.java:55-57 | matching compares lowercased names and keywords, so the name's case does not matter |
| Find.NoMatchExactlyWhenEmpty | src/main/java/commands/Find.java:65-67 | the no-match reply is given exactly when nothing is listed |
| Find.FoundTextShape | src/main/java/commands/Find.java:71-77 | the found reply is the header and the numbered lines without the last line break |
| Find.MatchingSnoc | src/main/java/commands/Find.java:54-62 | a task joins the matches exactly when it matches |
| Find.CollectMatches | src/main/java/commands/Find.java:54-62 | the set holds exactly the tasks whose lowercased name contains a lowercased keyword |
| Find.ListMatches | src/main/java/commands/Find.java:71-77 | each match is listed exactly once, numbered 1..k in set order, under the header |
| Find.AnswersMeaning | src/main/java/commands/Find.java:47-78 | a task is listed iff it matches; every listed task is from the list and matches; the no-match reply comes iff no task matches |
| Find.ProcessKeywords | src/main/java/commands/Find.java:47-78 | `processKeywords` gives a reply that answers the search |
| Find.Execute | src/main/java/commands/Find.java:20-38 | without keywords, the missing-keywords message; otherwise the answer for the non-empty words; the list is read only |
| DayPlan.EmptyListFirst | src/main/java/commands/DayPlan.java:27-29 | the no-tasks reply comes iff the list is empty, whatever the input |
| DayPlan.AgendaFormatRefusal | src/main/java/commands/DayPlan.java:31-37 | with tasks listed, the format error comes iff the input splits into fewer than 3 tokens or the second is not `for` |
| DayPlan.AgendaWordOnly | src/main/java/commands/DayPlan.java:34-37 | an input without a space (`agenda` alone) gets the format error |
| DayPlan.AgendaDateCases | src/main/java/commands/DayPlan.java:40-54 | past the format check: a blank date is the missing-date error, an unreadable one the invalid-date error, and a read date gives its agenda |
| DayPlan.AgendaDoneFirst | src/main/java/commands/DayPlan.java:59-61 | with tasks listed, every agenda starts with its heading |
| DayPlan.AgendaOfDate | src/main/java/commands/DayPlan.java:31-104 | `agenda for d/M/yyyy` gives the agenda of that date |
| DayPlan.AgendaOfWords | src/main/java/commands/DayPlan.java:31-54 | a word, `for` and a readable date text give the agenda of that date |
| DayPlan.GroupCountIsMembers | src/main/java/commands/DayPlan.java:64-73 | a group's count is the number of positions whose task is in the group: Deadlines due that day, or Events covering it |
| DayPlan.NoneExactlyWhenNoLines | src/main/java/commands/DayPlan.java:75-81 | a count is 0 exactly when its group lists no line |
| DayPlan.CountsBounded | src/main/java/commands/DayPlan.java:64-95 | no task is in both groups, so the two counts together never exceed the list's size |
| DayPlan.ToDoAddsNothing | src/main/java/commands/DayPlan.java:66 | a ToDo anywhere in the list changes nothing in the agenda |
| DayPlan.CountLineOne | src/main/java/commands/DayPlan.java:78-80 | one task of a group is reported in the singular |
| DayPlan.AppendDeadlines | src/main/java/commands/DayPlan.java:64-73 | the deadline loop appends the lines of the Deadlines due that day in list order, and counts them |
| DayPlan.AppendEvents | src/main/java/commands/DayPlan.java:86-95 | the event loop appends the lines of the Events covering that day in list order, and counts them |
| DayPlan.Execute | src/main/java/commands/DayPlan.java:26-105 | the reply is the agenda of the listed tasks; the list is read only |
| Planner.Parts | src/main/java/piggyplanner/PiggyPlanner.java:44 | the trimmed input splits into the command word and at most one rest |
| Planner.UnknownRefused | src/main/java/piggyplanner/PiggyPlanner.java:201-203 | an unknown word is refused in validation with "Unknown command", and nothing changes |
| Planner.RefusalKeeps | src/main/java/piggyplanner/PiggyPlanner.java:47 | a refused input gets the refusal and changes no task |
| Planner.ReadOnlyKeeps | src/main/java/piggyplanner/PiggyPlanner.java:50-91 | `list`, `agenda` and `bye` never change a task |
| Planner.StepKeepsNoDuplicates | src/main/java/piggyplanner/PiggyPlanner.java:49-97 | no command creates a duplicate in a list that had none |
| Planner.FindValidation | src/main/java/piggyplanner/PiggyPlanner.java:169-173 | `find` passes validation exactly when there are keywords to look for, and is otherwise refused with the missing-keywords message |
| Planner.BareCommandsTakeNoArguments | src/main/java/piggyplanner/PiggyPlanner.java:153-159 | `list` and `bye` are refused iff anything follows the word, with "does not take any arguments" |
| Planner.NumberCommandsNeedArgument | src/main/java/piggyplanner/PiggyPlanner.java:161-168 | `mark`, `unmark` and `delete` pass validation iff an argument follows, and are otherwise refused |
| Planner.WordAlone | src/main/java/piggyplanner/PiggyPlanner.java:44 | a single word is the whole command, with no arguments |
| Planner.ListInput | src/main/java/piggyplanner/PiggyPlanner.java:50-51 | `list` replies with the listing and changes nothing |
| Planner.ByeInput | src/main/java/piggyplanner/PiggyPlanner.java:89-91 | `bye` replies with the goodbye message and changes nothing |
| Planner.Shown | src/main/java/piggyplanner/PiggyPlanner.java:106-112 | `getResponse` shows a `PiggyException` as its message and passes everything else through |
| Planner.ShownNeverThrows | src/main/java/piggyplanner/PiggyPlanner.java:106-112 | `getResponse` never lets a `PiggyException` through |
| Planner.PiggyPlanner.constructor | src/main/java/piggyplanner/PiggyPlanner.java:31-34 | the planner wraps the loaded list itself and holds the file that was read |
| Planner.PiggyPlanner.SyncedReloads | src/main/java/storage/Storage.java:53-72 | when the file is in step with storable tasks, loading it gives the current tasks back |
| Planner.PiggyPlanner.Save | src/main/java/piggyplanner/PiggyPlanner.java:55 | after a save the file holds exactly the lines of the current tasks |
| Planner.PiggyPlanner.ProcessCommand | src/main/java/piggyplanner/PiggyPlanner.java:43-98 | validation, then the command; the reply and states are those of `Step`; the file is rewritten iff a mutating command returned normally; `find` answers the search and changes nothing |
| Planner.PiggyPlanner.ProcessChange | src/main/java/piggyplanner/PiggyPlanner.java:53-81 | a mutating command runs, then its save runs if it returned |
| Planner.PiggyPlanner.ProcessQuery | src/main/java/piggyplanner/PiggyPlanner.java:50-91 | `list`, `agenda` and `bye` give the reply of `Step`, change nothing and save nothing |
| Planner.PiggyPlanner.RunMark | src/main/java/piggyplanner/PiggyPlanner.java:53-56 | the reply and states of `Mark.Step`, saved if it returned |
| Planner.PiggyPlanner.RunUnmark | src/main/java/piggyplanner/PiggyPlanner.java:58-61 | the reply and states of `Unmark.Step`, saved if it returned |
| Planner.PiggyPlanner.RunTodo | src/main/java/piggyplanner/PiggyPlanner.java:63-66 | the reply and states of the ToDo add, saved if it returned |
| Planner.PiggyPlanner.RunDeadline | src/main/java/piggyplanner/PiggyPlanner.java:68-71 | the reply and states of the Deadline add, saved if it returned |
| Planner.PiggyPlanner.RunEvent | src/main/java/piggyplanner/PiggyPlanner.java:73-76 | the reply and states of the Event add, saved if it returned |
| Planner.PiggyPlanner.RunDelete | src/main/java/piggyplanner/PiggyPlanner.java:78-81 | the reply and states of `DeleteTask.Step`, saved if it returned |
| Planner.PiggyPlanner.RunFind | src/main/java/piggyplanner/PiggyPlanner.java:83-84 | the search's reply answers it for the current list |
| Planner.PiggyPlanner.GetResponse | src/main/java/piggyplanner/PiggyPlanner.java:106-112 | the shown reply is that of `processCommand`, with a refusal shown as its message |
| Planner.Start | src/main/java/piggyplanner/PiggyPlanner.java:31-34 | the planner starts iff loading the file succeeds, holding the file's surviving tasks; otherwise it fails with the load error |

## Left out

- The GUI and the console are not part of this model: `ui/*`, `Launcher`, `PiggyPlanner.run`,
  `main` and the `Scanner` loop. They are JavaFX, printing and console I/O.
- Real file I/O is not modelled. That covers `ensureFileExists`, the reader and writer and the
  `.bak` rename and delete. The file is modelled as its sequence of lines.
- I/O failures of `updateList` and `loadList` are not modelled. A failing writer or reader
  comes from the platform, not from the program's logic.
- Storage.LoadList: the load error is modelled by its fixed prefix alone. The appended
  `e.getMessage()` is the text of a platform exception.
- Storage.LoadList: it does not state that the loaded task objects are fresh. Only the list
  object is fresh, and the distinctness of its objects is stated instead.
- Printed warnings in `parseTask`/`createTask` are left out. They are output only, and the
  model shows them as a skipped line.
- Weekday and month names use the English locale. Java takes them from the JVM's default
  locale.
- Time.ResolveDate: it models the parts of the SMART resolver and year-of-era that the program
  meets. It does not model Java's full acceptance set, for example signed or longer years.
- Time.ParseDateTime: `31/12/9999 2400` is refused. Java reads it as 1/1/10000 at 00:00, a year
  that the model's dates do not hold.
- JavaText.ParseInt: only ASCII digits are read. Java's `parseInt` takes every Unicode decimal
  digit (a fullwidth `３`, an Arabic-Indic `٣`) through `Character.digit`, so `mark ３` selects
  task 3 in Java and gets the not-a-number reply in the model.
- JavaText.Lower: only ASCII letters are case-folded. Java's `toLowerCase` also maps other
  letters.
- Characters are Unicode code points, while Java strings count UTF-16 code units. Offsets
  differ only for characters outside the Basic Multilingual Plane.
- Find.ListMatches: the `HashSet` iteration order is unspecified. The model lists the matches
  in an order it chooses. It proves the order lists each match exactly once, but not which
  order Java picks.
- Find.CollectMatches: the `HashSet` of tasks is modelled as a set of objects. `Task` overrides
  `equals` but not `hashCode`, so the set works by identity, except when two equal tasks (same
  kind and name) have colliding identity hash codes. In that case Java keeps only one of them.
  A save file with repeated lines can hold such a pair. The model keeps both, because identity
  hash codes are not part of it.
- Help.java is not part of this model. It is a constant string, and no command dispatches to
  it.
- `PiggyException` is the `Error` arm of `Outcome`.
- The legacy default-package PiggyPlanner.java, Deadline.java and Event.java are not part of
  this model. They are superseded by the packaged classes.
- Java's `assert` statements are not modelled; they are off by default at run time.
  `KeywordsPresent` proves the `keywords.length > 0` assertion holds.
- Planner.PiggyPlanner.ProcessCommand: the FIND branch is stated by what the reply answers, not
  by `Step`. The `HashSet` order makes the reply text depend on object identities.
- Planner.PiggyPlanner.ProcessCommand: the `UNKNOWN` case of the switch is proved unreachable,
  because validation has already refused it.
- `Find.processKeywords` is split into its matching loop (`CollectMatches`) and its listing loop
  (`ListMatches`). The keyword loop of `execute` is `KeepNonEmpty`.
- `DayPlan.execute` is split the same way: its two loops are `AppendDeadlines` and
  `AppendEvents`.

## Findings

| source | as written | input that shows it | evidently intended | confidence | as-written member | corrected member |
|---|---|---|---|---|---|---|
| src/main/java/commands/CommandType.java:6-47 | the enum has no `FIND` constant, and `fromString` sends `find` to UNKNOWN, although PiggyPlanner.java's `processCommand` and `validateArguments` switch on `FIND` | `find book` | `find` selects FIND, and the search runs | not executed | CommandTypes.FindUnknownAsWritten | CommandTypes.FindRecognised |
