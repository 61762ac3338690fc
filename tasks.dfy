/**
 * The tasks of the planner: a `Task` has a final name and a mutable done flag, and is a ToDo,
 * a Deadline (with a due date-time) or an Event (with a start before its end).
 */
module Tasks {
  import opened Results
  import opened JavaText
  import opened Time

  /** The final part of a task: its kind, its name and the dates the kind carries. */
  datatype TaskInfo =
    | ToDoInfo(name: string)
    | DeadlineInfo(name: string, due: LocalDateTime)
    | EventInfo(name: string, start: LocalDateTime, end: LocalDateTime)

  /** The Event constructors refuse a start that is not strictly before the end. */
  predicate ValidInfo(i: TaskInfo)
  {
    i.EventInfo? ==> IsBefore(i.start, i.end)
  }

  type Info = i: TaskInfo | ValidInfo(i) witness ToDoInfo("")

  /** The state of one task object at one moment. */
  datatype TaskRecord = TaskRecord(info: Info, done: bool)

  const EventOrderMessage := "Event start time must be before end time."

  /** The letter that tags each kind, in `toString` and in the save file. */
  function Kind(i: TaskInfo): (k: string)
    ensures |k| == 1
    ensures k == "T" <==> i.ToDoInfo?
    ensures k == "D" <==> i.DeadlineInfo?
    ensures k == "E" <==> i.EventInfo?
  {
    match i
    case ToDoInfo(_) => "T"
    case DeadlineInfo(_, _) => "D"
    case EventInfo(_, _, _) => "E"
  }

  /** `status()`: one character, `X` for a done task and a space otherwise. */
  function StatusText(done: bool): (s: string)
    ensures |s| == 1
    ensures s == "X" <==> done
    ensures s == " " <==> !done
  {
    if done then "X" else " "
  }

  /**
   * `equals`: the same runtime class and the same name. The done flag and the dates take no
   * part, and no subclass refines it.
   */
  predicate SameTask(a: TaskInfo, b: TaskInfo)
  {
    Kind(a) == Kind(b) && a.name == b.name
  }

  /** `equals` is an equivalence relation. */
  lemma SameTaskEquivalence(a: TaskInfo, b: TaskInfo, c: TaskInfo)
    ensures SameTask(a, a)
    ensures SameTask(a, b) ==> SameTask(b, a)
    ensures SameTask(a, b) && SameTask(b, c) ==> SameTask(a, c)
  {
  }

  /**
   * Two ToDos are equal exactly when their names are; two Deadlines with one name are equal
   * whatever their due dates; tasks of different kinds are never equal, even with one name.
   */
  lemma SameTaskCases(n: string, m: string, d1: LocalDateTime, d2: LocalDateTime)
    ensures SameTask(ToDoInfo(n), ToDoInfo(m)) <==> n == m
    ensures SameTask(DeadlineInfo(n, d1), DeadlineInfo(n, d2))
    ensures !SameTask(ToDoInfo(n), DeadlineInfo(n, d1))
  {
  }

  /** `*:mm` of `h:mma`, lowercased as `Deadline.getTime` does: `12:00am`, `9:30pm`. */
  function ClockText(t: LocalDateTime): (s: string)
    ensures s == NatToString(ClockHour(t.hour)) + ":" + ZeroPad(t.minute, 2) + (if t.hour < 12 then "am" else "pm")
  {
    var h, m := NatToString(ClockHour(t.hour)), ZeroPad(t.minute, 2);
    LowerConcat(h + ":" + m, AmPm(t.hour));
    LowerConcat(h + ":", m);
    LowerConcat(h, ":");
    LowerDigits(h);
    LowerDigits(m);
    assert Lower(":") == ":";
    assert Lower(AmPm(t.hour)) == if t.hour < 12 then "am" else "pm";
    Lower(FormatClock(t))
  }

  lemma LowerDigits(s: string)
    requires AllDigits(s)
    ensures Lower(s) == s
  {
  }

  /** Midnight is `12:00am`, noon `12:00pm`, 21:30 `9:30pm` and 09:30 `9:30am`. */
  lemma ClockTextExamples(d: LocalDate)
    ensures ClockText(DateTime(d.year, d.month, d.day, 0, 0)) == "12:00am"
    ensures ClockText(DateTime(d.year, d.month, d.day, 12, 0)) == "12:00pm"
    ensures ClockText(DateTime(d.year, d.month, d.day, 21, 30)) == "9:30pm"
    ensures ClockText(DateTime(d.year, d.month, d.day, 9, 30)) == "9:30am"
  {
    assert NatToString(12) == "12" by { assert NatToString(1) == "1"; }
    assert NatToString(9) == "9";
    assert ZeroPad(0, 2) == "00" by { assert Zeros(1) == "0"; }
    assert ZeroPad(30, 2) == "30" by { assert NatToString(3) == "3"; }
  }

  /** `includesDate`: whether `d` lies in the event's calendar dates, both ends included. */
  predicate EventIncludes(i: TaskInfo, d: Date)
    requires i.EventInfo?
  {
    !DateIsBefore(d, ToDate(i.start)) && !DateIsBefore(ToDate(i.end), d)
  }

  /**
   * An event covers exactly the dates whose `yyyyMMdd` key lies between those of its start and
   * end days, whatever the times of day; in particular it covers its first and its last day.
   */
  lemma EventIncludesRange(i: Info, d: LocalDate)
    requires i.EventInfo?
    ensures EventIncludes(i, d) <==> DateKey(ToDate(i.start)) <= DateKey(d) <= DateKey(ToDate(i.end))
    ensures EventIncludes(i, ToDate(i.start)) && EventIncludes(i, ToDate(i.end))
  {
    DateIsBeforeKey(d, ToDate(i.start));
    DateIsBeforeKey(ToDate(i.end), d);
    DateIsBeforeKey(ToDate(i.end), ToDate(i.start));
  }

  /** `getDates`: both calendar dates in the long format. */
  function EventDates(i: TaskInfo): string
    requires i.EventInfo?
  {
    "from: " + FormatDateLong(ToDate(i.start)) + ", to: " + FormatDateLong(ToDate(i.end))
  }

  /** `Task.toString`: the status box and the name. */
  function TaskText(done: bool, name: string): string
  {
    "[" + StatusText(done) + "] " + name
  }

  /** What the subclasses' `toString` adds after `Task.toString`: nothing, the due date, or both dates. */
  function DateSuffix(i: TaskInfo): string
  {
    match i
    case ToDoInfo(_) => ""
    case DeadlineInfo(_, due) => " (by: " + Lower(FormatLong(due)) + ")"
    case EventInfo(_, s, e) => " (from: " + Lower(FormatLong(s)) + " to: " + Lower(FormatLong(e)) + ")"
  }

  /** `toString` of a ToDo, a Deadline or an Event in the given state: `[T]`, `[D]` or `[E]` first. */
  function Render(r: TaskRecord): string
  {
    "[" + Kind(r.info) + "]" + TaskText(r.done, r.info.name) + DateSuffix(r.info)
  }

  /**
   * Every rendering opens with the kind tag, the status box and a space, then the name:
   * `[T][ ] Buy groceries`, `[D][X] Submit report (by: …)`.
   */
  lemma RenderLayout(r: TaskRecord)
    ensures |Render(r)| >= 7 + |r.info.name|
    ensures Render(r)[..7] == "[" + Kind(r.info) + "][" + StatusText(r.done) + "] "
    ensures Render(r)[7..7 + |r.info.name|] == r.info.name
  {
    HeadThenName(Kind(r.info), StatusText(r.done), r.info.name, DateSuffix(r.info));
  }

  lemma HeadThenName(k: string, st: string, name: string, suffix: string)
    requires |k| == 1 && |st| == 1
    ensures var r := "[" + k + "]" + ("[" + st + "] " + name) + suffix;
            |r| >= 7 + |name| && r[..7] == "[" + k + "][" + st + "] " && r[7..7 + |name|] == name
  {
    var head := "[" + k + "][" + st + "] ";
    assert "[" + k + "]" + ("[" + st + "] " + name) + suffix == head + (name + suffix);
  }

  /**
   * Marking and unmarking change only the status box: the two renderings of a task have one
   * length and differ at index 4 alone, where they show `X` and a space.
   */
  lemma RenderStatusOnly(i: Info)
    ensures |Render(TaskRecord(i, true))| == |Render(TaskRecord(i, false))|
    ensures Render(TaskRecord(i, true))[4] == 'X' && Render(TaskRecord(i, false))[4] == ' '
    ensures forall k :: 0 <= k < |Render(TaskRecord(i, true))| && k != 4
                     ==> Render(TaskRecord(i, true))[k] == Render(TaskRecord(i, false))[k]
  {
    BoxOnly(Kind(i), i.name, DateSuffix(i));
  }

  lemma BoxOnly(k: string, name: string, suffix: string)
    requires |k| == 1
    ensures var t, f := "[" + k + "]" + TaskText(true, name) + suffix, "[" + k + "]" + TaskText(false, name) + suffix;
            |t| == |f| && t[4] == 'X' && f[4] == ' ' && forall j :: 0 <= j < |t| && j != 4 ==> t[j] == f[j]
  {
    var tail := name + suffix;
    assert "[" + k + "]" + TaskText(true, name) + suffix == "[" + k + "][X] " + tail;
    assert "[" + k + "]" + TaskText(false, name) + suffix == "[" + k + "][ ] " + tail;
  }

  /** A task object: its kind, name and dates are final, its done flag is not. */
  class Task {
    const info: Info
    var isDone: bool

    /** `new ToDo(name)`. */
    constructor ToDo(name: string)
      ensures info == ToDoInfo(name) && !isDone
    {
      info := ToDoInfo(name);
      isDone := false;
    }

    /** `new ToDo(name, isDone)`. */
    constructor ToDoWithStatus(name: string, isDone: bool)
      ensures info == ToDoInfo(name) && this.isDone == isDone
    {
      info := ToDoInfo(name);
      this.isDone := isDone;
    }

    /** `new Deadline(name, dueDate)`: any due date-time is accepted. */
    constructor Deadline(name: string, dueDate: LocalDateTime)
      ensures info == DeadlineInfo(name, dueDate) && !isDone
    {
      info := DeadlineInfo(name, dueDate);
      isDone := false;
    }

    /** `new Deadline(name, dueDate, isDone)`. */
    constructor DeadlineWithStatus(name: string, dueDate: LocalDateTime, isDone: bool)
      ensures info == DeadlineInfo(name, dueDate) && this.isDone == isDone
    {
      info := DeadlineInfo(name, dueDate);
      this.isDone := isDone;
    }

    /** The body of the Event constructors once `isValidTimeRange` has passed. */
    constructor OrderedEvent(name: string, start: LocalDateTime, end: LocalDateTime, isDone: bool)
      requires IsBefore(start, end)
      ensures info == EventInfo(name, start, end) && this.isDone == isDone
    {
      info := EventInfo(name, start, end);
      this.isDone := isDone;
    }

    /** A task object in the given state. */
    constructor FromRecord(r: TaskRecord)
      ensures Record() == r
    {
      info := r.info;
      isDone := r.done;
    }

    /** `new Event(name, start, end)`, which throws unless `start.isBefore(end)`. */
    static method Event(name: string, start: LocalDateTime, end: LocalDateTime) returns (r: Result<Task, string>)
      ensures r.Success? <==> IsBefore(start, end)
      ensures r.Success? ==> fresh(r.value) && r.value.info == EventInfo(name, start, end) && !r.value.isDone
      ensures r.Failure? ==> r.error == EventOrderMessage
    {
      r := EventWithStatus(name, start, end, false);
    }

    /** `new Event(name, start, end, isDone)`, which throws unless `start.isBefore(end)`. */
    static method EventWithStatus(name: string, start: LocalDateTime, end: LocalDateTime, isDone: bool)
      returns (r: Result<Task, string>)
      ensures r.Success? <==> IsBefore(start, end)
      ensures r.Success? ==> fresh(r.value) && r.value.info == EventInfo(name, start, end) && r.value.isDone == isDone
      ensures r.Failure? ==> r.error == EventOrderMessage
    {
      if !IsBefore(start, end) {
        return Failure(EventOrderMessage);
      }
      var t := new Task.OrderedEvent(name, start, end, isDone);
      r := Success(t);
    }

    /** The current state of this object. */
    function Record(): TaskRecord
      reads this
    {
      TaskRecord(info, isDone)
    }

    /** `status()`. */
    function Status(): (s: string)
      reads this
      ensures s == "X" <==> isDone
      ensures s == " " <==> !isDone
    {
      StatusText(isDone)
    }

    /** `mark()`: the task is done afterwards, whatever it was before; its name is final. */
    method Mark()
      modifies this
      ensures isDone
    {
      isDone := true;
    }

    /** `unmark()`: the task is not done afterwards, whatever it was before. */
    method Unmark()
      modifies this
      ensures !isDone
    {
      isDone := false;
    }

    /** `toString()` of the object in its current state. */
    function ToString(): string
      reads this
    {
      Render(Record())
    }

    /** `equals(other)`: the same object, or the same class and name. */
    function Equals(other: Task): (eq: bool)
      ensures eq <==> SameTask(info, other.info)
    {
      this == other || SameTask(info, other.info)
    }

    /** `Deadline.getTime()`. */
    function GetTime(): (s: string)
      requires info.DeadlineInfo?
      ensures s == NatToString(ClockHour(info.due.hour)) + ":" + ZeroPad(info.due.minute, 2)
                   + (if info.due.hour < 12 then "am" else "pm")
    {
      ClockText(info.due)
    }

    /** `Event.includesDate(date)`. */
    function IncludesDate(date: LocalDate): (b: bool)
      requires info.EventInfo?
      ensures b <==> DateKey(ToDate(info.start)) <= DateKey(date) <= DateKey(ToDate(info.end))
    {
      EventIncludesRange(info, date);
      EventIncludes(info, date)
    }

    /** `Event.getDates()`. */
    function GetDates(): string
      requires info.EventInfo?
    {
      EventDates(info)
    }
  }
}
