/**
 * `AddTask.todo`, `AddTask.deadline` and `AddTask.event`: read a new task out of the raw input
 * line, refuse it if an equal task is listed, and otherwise append it to the shared list.
 */
module AddTask {
  import opened Results
  import opened JavaText
  import opened Time
  import opened Tasks
  import opened TaskLists

  const MissingNameMessage := "You forgot to mention what the task is."
  const DuplicateMessage := "This task already exists in your list!"
  const MissingDueMessage := "You forgot to mention when the task is due."
  const MissingDeadlineDateMessage := "You forgot to mention when the deadline is."
  const InvalidDeadlineMessage := "Invalid date format! Try again and use: d/M/yyyy HHmm (e.g., 2/12/2019 1800)."
  const MissingEventTimesMessage := "You forgot to mention when the event starts/ends."
  const MissingEventNameMessage := "You forgot to mention what the event is."
  const MissingStartMessage := "You forgot to mention when the event starts."
  const MissingEndMessage := "You forgot to mention when the event ends."
  const InvalidEventMessage := "Invalid date format! Try again and use: d/M/yyyy HHmm (e.g., 2/12/2019 1800).\nOr check that the start time is before the end time."
  /** A `substring` whose range is out of bounds throws outside every `try`. */
  const SubstringFault := "StringIndexOutOfBoundsException"

  /** A task read from the input, with the message its duplicate check throws. */
  datatype Request = Request(info: Info, duplicateMessage: string)

  /** The size line of `taskAddedMsg`. */
  function CountMessage(n: nat): string
  {
    if n == 1 then "Now we have 1 task in the list." else "Now we have " + NatToString(n) + " tasks in the list."
  }

  /** `taskAddedMsg(task, totalTasks)`. */
  function AddedMessage(r: TaskRecord, n: nat): string
  {
    "New task incoming! I've added it to our list :)\n " + Render(r) + "\n" + CountMessage(n)
  }

  /** The reading part of `todo`: the name is everything after `todo `, trimmed. */
  function ReadTodo(input: string): Result<Request, Outcome>
  {
    if |input| <= 5 then Failure(Error(MissingNameMessage))
    else
      var name := Trim(input[5..]);
      if IsBlank(name) then Failure(Error(MissingNameMessage))
      else Success(Request(ToDoInfo(name), DuplicateMessage))
  }

  /**
   * The reading part of `deadline`: the name runs from index 9 to the first `/by`, the due
   * date-time follows it; both are trimmed. A duplicate is thrown inside the `try` whose handler
   * replaces every exception by the invalid-date message.
   */
  function ReadDeadline(input: string): Result<Request, Outcome>
  {
    if !Contains(input, "/by") then Failure(Error(MissingDueMessage))
    else
      var i := IndexOf(input, "/by");
      match Substring(input, 9, i)
      case None => Failure(Fault(SubstringFault))
      case Some(n) =>
        var name := Trim(n);
        var due := Trim(input[i + 3..]);
        if IsBlank(name) then Failure(Error(MissingNameMessage))
        else if IsBlank(due) then Failure(Error(MissingDeadlineDateMessage))
        else
          match ParseDateTime(due)
          case None => Failure(Error(InvalidDeadlineMessage))
          case Some(d) => Success(Request(DeadlineInfo(name, d), InvalidDeadlineMessage))
  }

  /**
   * The reading part of `event`: the name runs from index 6 to the first `/from`, the start
   * from after it to the first `/to`, the end after that; all three are trimmed. An order
   * failure and a duplicate are thrown inside the `try` whose handler replaces them by the
   * invalid-date message.
   */
  function ReadEvent(input: string): Result<Request, Outcome>
  {
    match CutEvent(input)
    case Failure(o) => Failure(o)
    case Success(parts) => EventOfParts(parts.0, parts.1, parts.2)
  }

  /** The three texts that `event` cuts out of the input: before `/from`, between, and after `/to`. */
  function CutEvent(input: string): Result<(string, string, string), Outcome>
  {
    if !Contains(input, "/from") || !Contains(input, "/to") then Failure(Error(MissingEventTimesMessage))
    else
      var f, t := IndexOf(input, "/from"), IndexOf(input, "/to");
      match Substring(input, 6, f)
      case None => Failure(Fault(SubstringFault))
      case Some(n) =>
        match Substring(input, f + 5, t)
        case None => Failure(Fault(SubstringFault))
        case Some(st) => Success((n, st, input[t + 3..]))
  }

  /** The checks of `event` on the three cut-out texts, each trimmed: blanks, then the date-times. */
  function EventOfParts(n: string, st: string, en: string): Result<Request, Outcome>
  {
    var name, start, end := Trim(n), Trim(st), Trim(en);
    if IsBlank(name) then Failure(Error(MissingEventNameMessage))
    else if IsBlank(start) then Failure(Error(MissingStartMessage))
    else if IsBlank(end) then Failure(Error(MissingEndMessage))
    else
      var s, e := ParseDateTime(start), ParseDateTime(end);
      if s.None? || e.None? || !IsBefore(s.value, e.value) then Failure(Error(InvalidEventMessage))
      else Success(Request(EventInfo(name, s.value, e.value), InvalidEventMessage))
  }

  /**
   * The effect of a read request on the task states: a refusal or a duplicate changes nothing,
   * anything else appends one task that is not done.
   */
  function AddStep(req: Result<Request, Outcome>, recs: seq<TaskRecord>): (Outcome, seq<TaskRecord>)
  {
    match req
    case Failure(o) => (o, recs)
    case Success(q) =>
      if HasEqual(recs, q.info) then (Error(q.duplicateMessage), recs)
      else
        var added := TaskRecord(q.info, false);
        (Done(AddedMessage(added, |recs| + 1)), recs + [added])
  }

  // ---------------------------------------------------------------- properties of the step

  /**
   * A command succeeds exactly when its input reads as a task that no listed task equals; it
   * then appends that task, not done, after all earlier ones, and otherwise changes nothing.
   */
  lemma AddStepSpec(req: Result<Request, Outcome>, recs: seq<TaskRecord>)
    requires req.Failure? ==> !req.error.Done?
    ensures AddStep(req, recs).0.Done? <==> req.Success? && !HasEqual(recs, req.value.info)
    ensures AddStep(req, recs).0.Done? ==> AddStep(req, recs).1 == recs + [TaskRecord(req.value.info, false)]
    ensures !AddStep(req, recs).0.Done? ==> AddStep(req, recs).1 == recs
    ensures AddStep(req, recs).0.Done?
            ==> AddStep(req, recs).0.text == AddedMessage(TaskRecord(req.value.info, false), |AddStep(req, recs).1|)
  {
  }

  /** Adding keeps the list free of equal tasks, and afterwards the requested task is listed. */
  lemma AddStepKeepsNoDuplicates(req: Result<Request, Outcome>, recs: seq<TaskRecord>)
    requires NoDuplicates(recs)
    ensures NoDuplicates(AddStep(req, recs).1)
    ensures req.Success? ==> HasEqual(AddStep(req, recs).1, req.value.info)
  {
    if req.Success? {
      var after := AddStep(req, recs).1;
      if !HasEqual(recs, req.value.info) {
        assert after[|recs|].info == req.value.info;
        assert forall j :: 0 <= j < |recs| ==> after[j] == recs[j];
      }
    }
  }

  // ---------------------------------------------------------------- todo

  /** `todo`: too short an input or a blank name is refused; otherwise the trimmed rest is the name. */
  lemma ReadTodoSpec(input: string)
    ensures ReadTodo(input).Success? <==> |input| > 5 && !IsBlank(Trim(input[5..]))
    ensures ReadTodo(input).Failure? ==> ReadTodo(input).error == Error(MissingNameMessage)
    ensures ReadTodo(input).Success? ==> ReadTodo(input).value == Request(ToDoInfo(Trim(input[5..])), DuplicateMessage)
  {
  }

  /** `todo <name>` reads back a name that is its own trim. */
  lemma ReadTodoOf(name: string)
    requires |name| > 0 && Trim(name) == name
    ensures ReadTodo("todo " + name) == Success(Request(ToDoInfo(name), DuplicateMessage))
  {
    assert ("todo " + name)[5..] == name;
  }

  // ---------------------------------------------------------------- deadline

  /**
   * Without `/by` the deadline is refused; `/by` before index 9 makes a `substring` throw; then
   * a blank name, a blank date and an unreadable date each get their own message; a read
   * deadline throws the invalid-date message on a duplicate.
   */
  lemma ReadDeadlineRefusals(input: string, recs: seq<TaskRecord>)
    ensures !Contains(input, "/by") ==> ReadDeadline(input) == Failure(Error(MissingDueMessage))
    ensures Contains(input, "/by") && IndexOf(input, "/by") < 9 ==> ReadDeadline(input) == Failure(Fault(SubstringFault))
    ensures Contains(input, "/by") && IndexOf(input, "/by") >= 9 ==>
              var i := IndexOf(input, "/by");
              var name, due := Trim(input[9..i]), Trim(input[i + 3..]);
              (IsBlank(name) ==> ReadDeadline(input) == Failure(Error(MissingNameMessage)))
              && (!IsBlank(name) && IsBlank(due) ==> ReadDeadline(input) == Failure(Error(MissingDeadlineDateMessage)))
              && (!IsBlank(name) && !IsBlank(due) && ParseDateTime(due).None?
                  ==> ReadDeadline(input) == Failure(Error(InvalidDeadlineMessage)))
              && (!IsBlank(name) && !IsBlank(due) && ParseDateTime(due).Some?
                  ==> ReadDeadline(input) == Success(Request(DeadlineInfo(name, ParseDateTime(due).value), InvalidDeadlineMessage)))
    ensures ReadDeadline(input).Success? ==> ReadDeadline(input).value.info.DeadlineInfo?
    ensures ReadDeadline(input).Success? && HasEqual(recs, ReadDeadline(input).value.info)
            ==> AddStep(ReadDeadline(input), recs) == (Error(InvalidDeadlineMessage), recs)
  {
  }

  lemma SpaceLacksSlash()
    ensures Lacks(" ", '/')
  {
  }

  lemma DeadlineWordLacksSlash()
    ensures Lacks("deadline ", '/')
  {
  }

  lemma EventWordLacksSlash()
    ensures Lacks("event ", '/')
  {
  }

  /**
   * In `head + name + " " + sep + rest`, where neither `head` nor `name` has the first character
   * of `sep`, the first `sep` is the one after the name, and the cuts around it give the padded
   * name and the rest.
   */
  lemma CutAtFirst(head: string, name: string, sep: string, rest: string)
    requires |sep| > 0 && forall k :: 0 < k < |sep| ==> sep[k] != sep[0]
    requires Lacks(head, sep[0]) && Lacks(name, sep[0]) && Lacks(" ", sep[0])
    ensures var a := head + name + " ";
            && IndexOf(a + sep + rest, sep) == |a|
            && (a + sep + rest)[|head|..|a|] == name + " "
            && (a + sep + rest)[|a| + |sep|..] == rest
  {
    var a := head + name + " ";
    LacksJoin(head, name, sep[0]);
    LacksJoin(head + name, " ", sep[0]);
    FirstSeparator(a, sep, rest, 0);
    assert (a + sep + rest)[|head|..|a|] == name + " ";
    assert (a + sep + rest)[|a| + |sep|..] == rest;
  }

  lemma ByMarkerUnique()
    ensures forall k :: 0 < k < |"/by"| ==> "/by"[k] != "/by"[0]
  {
    assert "/by"[1] == 'b' && "/by"[2] == 'y';
  }

  lemma DeadlineInput(name: string, m: string)
    ensures "deadline " + name + " /by " + m == ("deadline " + name + " ") + "/by" + (" " + m)
  {
  }

  /** The parts that `deadline` cuts out of `deadline <name> /by <date-time>`. */
  lemma DeadlineParts(name: string, m: string)
    requires Lacks(name, '/')
    ensures var input := "deadline " + name + " /by " + m;
            && IndexOf(input, "/by") == 10 + |name|
            && input[9..10 + |name|] == name + " "
            && input[13 + |name|..] == " " + m
  {
    DeadlineWordLacksSlash();
    SpaceLacksSlash();
    DeadlineInput(name, m);
    ByMarkerUnique();
    CutAtFirst("deadline ", name, "/by", " " + m);
  }

  /** `ReadDeadline` on an input whose `/by` and parts are where `DeadlineParts` puts them. */
  lemma ReadDeadlineFrom(input: string, name: string, due: LocalDateTime)
    requires |name| > 0 && Trim(name) == name
    requires |input| == 14 + |name| + |FormatMachine(due)|
    requires IndexOf(input, "/by") == 10 + |name|
    requires input[9..10 + |name|] == name + " "
    requires input[13 + |name|..] == " " + FormatMachine(due)
    ensures ReadDeadline(input) == Success(Request(DeadlineInfo(name, due), InvalidDeadlineMessage))
  {
    TrimShape(name);
    TrimBlankAfter(name, ' ');
    FormatMachineShape(due);
    TrimSpaceBefore(FormatMachine(due));
    ParseFormattedDateTime(due);
    assert Substring(input, 9, 10 + |name|) == Some(name + " ");
  }

  /**
   * `deadline <name> /by <date-time>` reads back the name and the due date-time that the
   * `d/M/yyyy HHmm` pattern writes, for a name without slashes that is its own trim.
   */
  lemma ReadDeadlineOf(name: string, due: LocalDateTime)
    requires |name| > 0 && Trim(name) == name && Lacks(name, '/')
    ensures ReadDeadline("deadline " + name + " /by " + FormatMachine(due))
            == Success(Request(DeadlineInfo(name, due), InvalidDeadlineMessage))
  {
    DeadlineParts(name, FormatMachine(due));
    ReadDeadlineFrom("deadline " + name + " /by " + FormatMachine(due), name, due);
  }

  // ---------------------------------------------------------------- event

  /**
   * Without `/from` or `/to` the event is refused; `/to` in front of the start text makes a
   * `substring` throw; a read event starts before it ends and throws the invalid-date message
   * on a duplicate.
   */
  lemma ReadEventRefusals(input: string, recs: seq<TaskRecord>)
    ensures !Contains(input, "/from") || !Contains(input, "/to")
            ==> ReadEvent(input) == Failure(Error(MissingEventTimesMessage))
    ensures Contains(input, "/from") && Contains(input, "/to") && IndexOf(input, "/from") >= 6
            && IndexOf(input, "/to") < IndexOf(input, "/from") + 5
            ==> ReadEvent(input) == Failure(Fault(SubstringFault))
    ensures ReadEvent(input).Success? ==> ReadEvent(input).value.info.EventInfo?
                                          && IsBefore(ReadEvent(input).value.info.start, ReadEvent(input).value.info.end)
    ensures ReadEvent(input).Success? && HasEqual(recs, ReadEvent(input).value.info)
            ==> AddStep(ReadEvent(input), recs) == (Error(InvalidEventMessage), recs)
  {
  }

  /**
   * The checks on the cut-out texts, in order: a blank name, a blank start and a blank end each
   * get their own message; an unreadable date and a start not before the end both get the
   * invalid-event message; otherwise the Event is read with its trimmed parts.
   */
  lemma EventOfPartsCases(n: string, st: string, en: string)
    ensures IsBlank(Trim(n)) ==> EventOfParts(n, st, en) == Failure(Error(MissingEventNameMessage))
    ensures !IsBlank(Trim(n)) && IsBlank(Trim(st)) ==> EventOfParts(n, st, en) == Failure(Error(MissingStartMessage))
    ensures !IsBlank(Trim(n)) && !IsBlank(Trim(st)) && IsBlank(Trim(en))
            ==> EventOfParts(n, st, en) == Failure(Error(MissingEndMessage))
    ensures !IsBlank(Trim(n)) && !IsBlank(Trim(st)) && !IsBlank(Trim(en)) ==>
              var s, e := ParseDateTime(Trim(st)), ParseDateTime(Trim(en));
              (s.None? || e.None? || !IsBefore(s.value, e.value) ==> EventOfParts(n, st, en) == Failure(Error(InvalidEventMessage)))
              && (s.Some? && e.Some? && IsBefore(s.value, e.value)
                  ==> EventOfParts(n, st, en) == Success(Request(EventInfo(Trim(n), s.value, e.value), InvalidEventMessage)))
  {
  }

  /** The machine format has no `t`, so none of its slashes starts `/to`. */
  lemma MachineNoTo(m: string)
    requires MachineChars(m)
    ensures NeverFollowedBy(m, '/', 't')
  {
  }

  lemma FromMarkerUnique()
    ensures forall k :: 0 < k < |"/from"| ==> "/from"[k] != "/from"[0]
  {
    assert "/from"[1] == 'f' && "/from"[2] == 'r' && "/from"[3] == 'o' && "/from"[4] == 'm';
  }

  lemma FromGapNoTo()
    ensures NeverFollowedBy(" /from ", '/', 't')
  {
    assert " /from "[2] == 'f';
  }

  lemma EventInput(name: string, m1: string, m2: string)
    ensures var input := "event " + name + " /from " + m1 + " /to " + m2;
            && input == ("event " + name + " ") + "/from" + (" " + m1 + " /to " + m2)
            && input == ("event " + name + " /from " + m1 + " ") + "/to" + (" " + m2)
  {
  }

  /** Nothing before the `/to` of `event <name> /from <start> /to <end>` starts another `/to`. */
  lemma EventHeadNoTo(name: string, m1: string)
    requires Lacks(name, '/') && MachineChars(m1)
    ensures NeverFollowedBy("event " + name + " /from " + m1 + " ", '/', 't')
  {
    var head := "event " + name;
    EventWordLacksSlash();
    SpaceLacksSlash();
    LacksJoin("event ", name, '/');
    LacksNeverFollowed(head, '/', 't');
    FromGapNoTo();
    NeverFollowedByJoin(head, " /from ", '/', 't');
    MachineNoTo(m1);
    NeverFollowedByJoin(head + " /from ", m1, '/', 't');
    LacksNeverFollowed(" ", '/', 't');
    NeverFollowedByJoin(head + " /from " + m1, " ", '/', 't');
  }

  /** Where `/to` first occurs in `event <name> /from <start> /to <end>`. */
  lemma EventToIndex(name: string, m1: string, m2: string)
    requires Lacks(name, '/') && MachineChars(m1) && |m1| > 0
    ensures IndexOf("event " + name + " /from " + m1 + " /to " + m2, "/to") == 14 + |name| + |m1|
  {
    var head := "event " + name;
    EventHeadNoTo(name, m1);
    EventInput(name, m1, m2);
    FirstSeparatorAfter(head + " /from " + m1 + " ", "/to", " " + m2);
  }

  /** Where `/from` first occurs in `event <name> /from <start> /to <end>`, and the name cut before it. */
  lemma EventFromIndex(name: string, m1: string, m2: string)
    requires Lacks(name, '/')
    ensures var input := "event " + name + " /from " + m1 + " /to " + m2;
            && IndexOf(input, "/from") == 7 + |name|
            && input[6..7 + |name|] == name + " "
            && input[12 + |name|..] == " " + m1 + " /to " + m2
  {
    EventWordLacksSlash();
    SpaceLacksSlash();
    EventInput(name, m1, m2);
    FromMarkerUnique();
    CutAtFirst("event ", name, "/from", " " + m1 + " /to " + m2);
  }

  /** The start and end that `event` cuts out of the text after `/from`. */
  lemma EventTail(m1: string, m2: string)
    ensures var tail := " " + m1 + " /to " + m2;
            && tail[..|m1| + 2] == " " + m1 + " "
            && tail[|m1| + 5..] == " " + m2
  {
  }

  /** Texts whose trims are not blank and parse to date-times in order pass every check of `event`. */
  lemma EventChecksPass(n: string, st: string, en: string, start: LocalDateTime, end: LocalDateTime)
    requires |Trim(n)| > 0 && |Trim(st)| > 0 && |Trim(en)| > 0 && IsBefore(start, end)
    requires ParseDateTime(Trim(st)) == Some(start) && ParseDateTime(Trim(en)) == Some(end)
    ensures EventOfParts(n, st, en) == Success(Request(EventInfo(Trim(n), start, end), InvalidEventMessage))
  {
    TrimIdempotent(n);
    TrimIdempotent(st);
    TrimIdempotent(en);
  }

  /** The padded texts of `event <name> /from <start> /to <end>` pass every check of `event`. */
  lemma EventOfPartsOf(name: string, start: LocalDateTime, end: LocalDateTime)
    requires |name| > 0 && Trim(name) == name && IsBefore(start, end)
    ensures EventOfParts(name + " ", " " + FormatMachine(start) + " ", " " + FormatMachine(end))
            == Success(Request(EventInfo(name, start, end), InvalidEventMessage))
  {
    var m1, m2 := FormatMachine(start), FormatMachine(end);
    FormatMachineShape(start);
    FormatMachineShape(end);
    TrimShape(name);
    TrimBlankAfter(name, ' ');
    TrimSpacesAround(m1);
    TrimSpaceBefore(m2);
    ParseFormattedDateTime(start);
    ParseFormattedDateTime(end);
    EventChecksPass(name + " ", " " + m1 + " ", " " + m2, start, end);
  }

  /** Where the markers are found, `event` cuts the three texts around them. */
  lemma CutEventAt(input: string, f: int, t: int)
    requires IndexOf(input, "/from") == f && IndexOf(input, "/to") == t
    requires 6 <= f && f + 5 <= t
    ensures CutEvent(input) == Success((input[6..f], input[f + 5..t], input[t + 3..]))
  {
    assert Contains(input, "/from") && Contains(input, "/to");
  }

  /** The cuts of `event` on an input whose markers sit after the name and after the start. */
  lemma CutEventFrom(input: string, name: string, m1: string, m2: string)
    requires IndexOf(input, "/from") == 7 + |name| && IndexOf(input, "/to") == 14 + |name| + |m1|
    requires input[6..7 + |name|] == name + " "
    requires input[12 + |name|..] == " " + m1 + " /to " + m2
    ensures CutEvent(input) == Success((name + " ", " " + m1 + " ", " " + m2))
  {
    var tail := input[12 + |name|..];
    EventTail(m1, m2);
    assert tail[..|m1| + 2] == input[12 + |name|..14 + |name| + |m1|];
    assert tail[|m1| + 5..] == input[17 + |name| + |m1|..];
    CutEventAt(input, 7 + |name|, 14 + |name| + |m1|);
  }

  /** `event <name> /from <start> /to <end>` cuts out the padded name, start and end. */
  lemma CutEventOf(name: string, m1: string, m2: string)
    requires Lacks(name, '/') && MachineChars(m1) && |m1| > 0
    ensures CutEvent("event " + name + " /from " + m1 + " /to " + m2) == Success((name + " ", " " + m1 + " ", " " + m2))
  {
    EventFromIndex(name, m1, m2);
    EventToIndex(name, m1, m2);
    CutEventFrom("event " + name + " /from " + m1 + " /to " + m2, name, m1, m2);
  }

  /**
   * `event <name> /from <start> /to <end>` reads back the name and the two date-times that the
   * `d/M/yyyy HHmm` pattern writes, when the start is before the end.
   */
  lemma ReadEventOf(name: string, start: LocalDateTime, end: LocalDateTime)
    requires |name| > 0 && Trim(name) == name && Lacks(name, '/') && IsBefore(start, end)
    ensures ReadEvent("event " + name + " /from " + FormatMachine(start) + " /to " + FormatMachine(end))
            == Success(Request(EventInfo(name, start, end), InvalidEventMessage))
  {
    FormatMachineShape(start);
    CutEventOf(name, FormatMachine(start), FormatMachine(end));
    EventOfPartsOf(name, start, end);
  }

  // ---------------------------------------------------------------- the commands

  /** `new ToDo(name)`, `new Deadline(name, due)` or `new Event(name, start, end)`. */
  method NewTask(info: Info) returns (t: Task)
    ensures fresh(t) && t.Record() == TaskRecord(info, false)
  {
    if info.ToDoInfo? {
      t := new Task.ToDo(info.name);
    } else if info.DeadlineInfo? {
      t := new Task.Deadline(info.name, info.due);
    } else {
      var r := Task.Event(info.name, info.start, info.end);
      t := r.value;
    }
  }

  /** `taskList.add(newTask)` for a task object not yet listed. */
  method Append(newTask: Task, taskList: TaskArrayList)
    requires taskList.Distinct() && newTask !in taskList.items
    modifies taskList
    ensures taskList.items == old(taskList.items) + [newTask]
    ensures taskList.Records() == old(taskList.Records()) + [newTask.Record()]
    ensures taskList.Distinct()
  {
    RecordsSnoc(taskList.items, newTask);
    taskList.Add(newTask);
  }

  /** What the step does with a request it has read: refuse a duplicate, or append. */
  lemma AddStepRequest(q: Request, recs: seq<TaskRecord>)
    ensures HasEqual(recs, q.info) ==> AddStep(Success(q), recs) == (Error(q.duplicateMessage), recs)
    ensures !HasEqual(recs, q.info) ==>
              AddStep(Success(q), recs)
              == (Done(AddedMessage(TaskRecord(q.info, false), |recs| + 1)), recs + [TaskRecord(q.info, false)])
  {
  }

  /** The common tail of the three commands: the `isDuplicate` check, then `add` and the reply. */
  method AddIfNew(q: Request, taskList: TaskArrayList) returns (o: Outcome)
    requires taskList.Distinct()
    modifies taskList
    ensures (o, taskList.Records()) == AddStep(Success(q), old(taskList.Records()))
    ensures taskList.Distinct()
    ensures |old(taskList.items)| <= |taskList.items| && taskList.items[..|old(taskList.items)|] == old(taskList.items)
  {
    ghost var before := taskList.Records();
    AddStepRequest(q, before);
    var newTask := NewTask(q.info);
    var duplicate := ContainsEqual(taskList.items, newTask);
    if duplicate {
      return Error(q.duplicateMessage);
    }
    ghost var items := taskList.items;
    Append(newTask, taskList);
    assert taskList.items[..|items|] == items;
    o := Done(AddedMessage(newTask.Record(), |taskList.items|));
  }

  /** `todo(userInput, taskList)`. */
  method Todo(userInput: string, taskList: TaskArrayList) returns (o: Outcome)
    requires taskList.Distinct()
    modifies taskList
    ensures (o, taskList.Records()) == AddStep(ReadTodo(userInput), old(taskList.Records()))
    ensures taskList.Distinct()
    ensures |old(taskList.items)| <= |taskList.items| && taskList.items[..|old(taskList.items)|] == old(taskList.items)
  {
    match ReadTodo(userInput)
    case Failure(e) =>
      assert taskList.items[..|taskList.items|] == taskList.items;
      return e;
    case Success(q) =>
      o := AddIfNew(q, taskList);
  }

  /** `deadline(userInput, taskList)`. */
  method Deadline(userInput: string, taskList: TaskArrayList) returns (o: Outcome)
    requires taskList.Distinct()
    modifies taskList
    ensures (o, taskList.Records()) == AddStep(ReadDeadline(userInput), old(taskList.Records()))
    ensures taskList.Distinct()
    ensures |old(taskList.items)| <= |taskList.items| && taskList.items[..|old(taskList.items)|] == old(taskList.items)
  {
    match ReadDeadline(userInput)
    case Failure(e) =>
      assert taskList.items[..|taskList.items|] == taskList.items;
      return e;
    case Success(q) =>
      o := AddIfNew(q, taskList);
  }

  /** `event(userInput, taskList)`. */
  method Event(userInput: string, taskList: TaskArrayList) returns (o: Outcome)
    requires taskList.Distinct()
    modifies taskList
    ensures (o, taskList.Records()) == AddStep(ReadEvent(userInput), old(taskList.Records()))
    ensures taskList.Distinct()
    ensures |old(taskList.items)| <= |taskList.items| && taskList.items[..|old(taskList.items)|] == old(taskList.items)
  {
    match ReadEvent(userInput)
    case Failure(e) =>
      assert taskList.items[..|taskList.items|] == taskList.items;
      return e;
    case Success(q) =>
      o := AddIfNew(q, taskList);
  }
}
