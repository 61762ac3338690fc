/**
 * `DayPlan.execute`, the `agenda for d/M/yyyy` command: the deadlines due on a date and the
 * events that cover it, each group counted. The list is only read.
 */
module DayPlan {
  import opened Results
  import opened JavaText
  import opened Time
  import opened Tasks
  import TaskIndex
  import TaskLists

  const NoTasksMessage := "You have no tasks " + "at the moment. Free all day!"
  const FormatMessage := "I don't exactly understand what you are asking. Try this format:\n "
                         + "agenda for d/M/yyyy (e.g., agenda for 2/12/2023)"
  const MissingDateMessage := "Missing date! Please provide a valid date "
                              + "in the format d/M/yyyy (e.g., 2/12/2023)."
  const InvalidDateMessage := "Invalid date! Please check the day, month, "
                              + "and format (d/M/yyyy, e.g., 2/12/2023)."

  /** The two groups of the agenda, each collected by its own loop. */
  datatype Group = Deadlines | Events

  /**
   * The task belongs to the group on date `d`: a Deadline whose due date-time falls on `d`, or
   * an Event with `includesDate(d)`. A ToDo belongs to neither.
   */
  predicate InGroup(g: Group, i: Info, d: LocalDate)
  {
    match g
    case Deadlines => i.DeadlineInfo? && ToDate(i.due) == d
    case Events => i.EventInfo? && EventIncludes(i, d)
  }

  /** The agenda line of a Deadline (name, `due at:` and the clock time) or of an Event (name and dates). */
  function EntryLine(i: Info): string
    requires !i.ToDoInfo?
  {
    if i.DeadlineInfo? then i.name + " due at: " + ClockText(i.due) + "\n"
    else i.name + " " + EventDates(i) + "\n"
  }

  /** The lines of the tasks of `infos` in the group, in list order. */
  function GroupLines(g: Group, infos: seq<Info>, d: LocalDate): string
  {
    if |infos| == 0 then ""
    else
      var i := infos[|infos| - 1];
      GroupLines(g, infos[..|infos| - 1], d) + (if InGroup(g, i, d) then EntryLine(i) else "")
  }

  /** How many tasks of `infos` are in the group, counted as the loop counts them. */
  function GroupCount(g: Group, infos: seq<Info>, d: LocalDate): nat
  {
    if |infos| == 0 then 0
    else GroupCount(g, infos[..|infos| - 1], d) + (if InGroup(g, infos[|infos| - 1], d) then 1 else 0)
  }

  function Noun(g: Group): string
  {
    match g
    case Deadlines => "deadline"
    case Events => "event"
  }

  /** The line that closes a group: none, one, or a plural count. */
  function CountLine(g: Group, n: nat): string
  {
    if n == 0 then "You have no " + Noun(g) + "s on this day.\n"
    else "You have " + NatToString(n) + " " + Noun(g) + (if n == 1 then "" else "s") + " on this day.\n"
  }

  /** The first line of the agenda, and the heading of the deadlines. */
  function Heading(d: LocalDate): string
  {
    "Here's what's happening on " + FormatDateLong(d) + ":\n\nDEADLINES:\n"
  }

  /** The agenda of date `d` for tasks with final parts `infos`, before the final trim. */
  function AgendaBody(infos: seq<Info>, d: LocalDate): string
  {
    Heading(d) + GroupLines(Deadlines, infos, d) + CountLine(Deadlines, GroupCount(Deadlines, infos, d))
    + "\nEVENTS:\n" + GroupLines(Events, infos, d) + CountLine(Events, GroupCount(Events, infos, d))
  }

  /** The reply of `execute` for tasks with final parts `infos`. */
  function Agenda(userInput: string, infos: seq<Info>): Outcome
  {
    if |infos| == 0 then Done(NoTasksMessage)
    else
      var inputParts := Split(userInput, " ");
      if |inputParts| < 3 || inputParts[1] != "for" then Error(FormatMessage)
      else
        var dateStr := Trim(inputParts[2]);
        if |dateStr| == 0 then Error(MissingDateMessage)
        else
          match ParseDate(dateStr)
          case None => Error(InvalidDateMessage)
          case Some(d) => Done(Report(infos, d))
  }

  /** The agenda of a parsed date, trimmed as `execute` returns it. */
  function Report(infos: seq<Info>, d: LocalDate): string
  {
    Trim(AgendaBody(infos, d))
  }

  /** The final parts of the task states, in list order: all the agenda looks at. */
  function InfosOf(recs: seq<TaskRecord>): (infos: seq<Info>)
    ensures |infos| == |recs| && forall k :: 0 <= k < |recs| ==> infos[k] == recs[k].info
  {
    seq(|recs|, k requires 0 <= k < |recs| => recs[k].info)
  }

  /** The group members among `infos`, by position. */
  ghost function Members(g: Group, infos: seq<Info>, d: LocalDate): set<int>
  {
    set k | 0 <= k < |infos| && InGroup(g, infos[k], d)
  }

  /** The count is the number of positions whose task is in the group. */
  lemma {:induction false} GroupCountIsMembers(g: Group, infos: seq<Info>, d: LocalDate)
    ensures GroupCount(g, infos, d) == |Members(g, infos, d)|
    decreases |infos|
  {
    if |infos| > 0 {
      var n := |infos| - 1;
      var init := infos[..n];
      GroupCountIsMembers(g, init, d);
      var before := Members(g, init, d);
      assert n !in before;
      if InGroup(g, infos[n], d) {
        assert Members(g, infos, d) == before + {n};
      } else {
        assert Members(g, infos, d) == before;
      }
    }
  }

  /** A group's count line says "no" exactly when the group lists no line. */
  lemma {:induction false} NoneExactlyWhenNoLines(g: Group, infos: seq<Info>, d: LocalDate)
    ensures GroupCount(g, infos, d) == 0 <==> GroupLines(g, infos, d) == ""
    ensures |GroupLines(g, infos, d)| >= GroupCount(g, infos, d)
    decreases |infos|
  {
    if |infos| > 0 {
      var i := infos[|infos| - 1];
      NoneExactlyWhenNoLines(g, infos[..|infos| - 1], d);
      if InGroup(g, i, d) {
        assert |EntryLine(i)| > 0;
      }
    }
  }

  /** No task is both a deadline and an event of the day, so the two counts never exceed the tasks. */
  lemma {:induction false} CountsBounded(infos: seq<Info>, d: LocalDate)
    ensures GroupCount(Deadlines, infos, d) + GroupCount(Events, infos, d) <= |infos|
    decreases |infos|
  {
    if |infos| > 0 {
      CountsBounded(infos[..|infos| - 1], d);
    }
  }

  /** A ToDo adds nothing to either group, wherever it stands in the list. */
  lemma ToDoAddsNothing(before: seq<Info>, i: Info, after: seq<Info>, d: LocalDate)
    requires i.ToDoInfo?
    ensures AgendaBody(before + [i] + after, d) == AgendaBody(before + after, d)
  {
    GroupsSkipToDo(Deadlines, before, i, after, d);
    GroupsSkipToDo(Events, before, i, after, d);
    CountSkipsToDo(Deadlines, before, i, after, d);
    CountSkipsToDo(Events, before, i, after, d);
  }

  lemma {:induction false} GroupsSkipToDo(g: Group, before: seq<Info>, i: Info, after: seq<Info>, d: LocalDate)
    requires i.ToDoInfo?
    ensures GroupLines(g, before + [i] + after, d) == GroupLines(g, before + after, d)
    decreases |after|
  {
    SnocSplit(before, i, after);
    if |after| > 0 {
      GroupsSkipToDo(g, before, i, after[..|after| - 1], d);
    }
  }

  lemma {:induction false} CountSkipsToDo(g: Group, before: seq<Info>, i: Info, after: seq<Info>, d: LocalDate)
    requires i.ToDoInfo?
    ensures GroupCount(g, before + [i] + after, d) == GroupCount(g, before + after, d)
    decreases |after|
  {
    SnocSplit(before, i, after);
    if |after| > 0 {
      CountSkipsToDo(g, before, i, after[..|after| - 1], d);
    }
  }

  /** How the last element splits off `before + [i] + after` and `before + after`. */
  lemma SnocSplit<T>(before: seq<T>, i: T, after: seq<T>)
    ensures |after| == 0 ==> (before + [i] + after)[..|before| + |after|] == before + after
    ensures |after| == 0 ==> (before + [i] + after)[|before| + |after|] == i
    ensures |after| > 0 ==> (before + [i] + after)[..|before| + |after|] == before + [i] + after[..|after| - 1]
    ensures |after| > 0 ==> (before + [i] + after)[|before| + |after|] == after[|after| - 1]
    ensures |after| > 0 ==> (before + after)[..|before| + |after| - 1] == before + after[..|after| - 1]
    ensures |after| > 0 ==> (before + after)[|before| + |after| - 1] == after[|after| - 1]
  {
    if |after| > 0 {
      assert (before + [i] + after)[..|before| + |after|] == before + [i] + after[..|after| - 1];
      assert (before + after)[..|before| + |after| - 1] == before + after[..|after| - 1];
    } else {
      assert (before + [i] + after)[..|before| + |after|] == before + after;
    }
  }

  /** Exactly one task of the group is reported in the singular, with the digit 1. */
  lemma CountLineOne(g: Group)
    ensures CountLine(g, 1) == "You have 1 " + Noun(g) + " on this day.\n"
  {
    assert NatToString(1) == "1";
    assert "You have " + "1" + " " + Noun(g) + "" == "You have 1 " + Noun(g);
  }

  /** An empty list is answered before the input is even looked at, and only an empty list is. */
  lemma EmptyListFirst(userInput: string, infos: seq<Info>)
    ensures Agenda(userInput, infos) == Done(NoTasksMessage) <==> |infos| == 0
  {
    if |infos| > 0 && Agenda(userInput, infos).Done? {
      AgendaDoneFirst(userInput, infos);
      assert NoTasksMessage[0] == 'Y';
    }
  }

  /** With tasks in the list, every agenda starts with its heading. */
  lemma AgendaDoneFirst(userInput: string, infos: seq<Info>)
    requires |infos| > 0 && Agenda(userInput, infos).Done?
    ensures |Agenda(userInput, infos).text| > 0 && Agenda(userInput, infos).text[0] == 'H'
  {
    var d := ParseDate(Trim(Split(userInput, " ")[2])).value;
    ReportFirst(infos, d);
  }

  lemma ReportFirst(infos: seq<Info>, d: LocalDate)
    ensures |Report(infos, d)| > 0 && Report(infos, d)[0] == 'H'
  {
    HeadingFirst(infos, d);
    TrimKeepsFirst(AgendaBody(infos, d));
  }

  lemma HeadingFirst(infos: seq<Info>, d: LocalDate)
    ensures |AgendaBody(infos, d)| > 0 && AgendaBody(infos, d)[0] == 'H'
  {
    var h := "Here's what's happening on ";
    assert h[0] == 'H';
    var rest := GroupLines(Deadlines, infos, d) + CountLine(Deadlines, GroupCount(Deadlines, infos, d))
                + "\nEVENTS:\n" + GroupLines(Events, infos, d) + CountLine(Events, GroupCount(Events, infos, d));
    assert AgendaBody(infos, d)[0] == Heading(d)[0];
  }

  /** The input must have a third space-separated token after the word `for`. */
  lemma AgendaFormatRefusal(userInput: string, infos: seq<Info>)
    requires |infos| > 0
    ensures var parts := Split(userInput, " ");
            Agenda(userInput, infos) == Error(FormatMessage) <==> |parts| < 3 || parts[1] != "for"
  {
  }

  /**
   * Past the format check, the trimmed third token decides: blank is a missing date, a text
   * that `d/M/yyyy` does not read is an invalid date, and a date read gives its agenda.
   */
  lemma AgendaDateCases(userInput: string, infos: seq<Info>)
    requires |infos| > 0
    requires var parts := Split(userInput, " "); |parts| >= 3 && parts[1] == "for"
    ensures var dateStr := Trim(Split(userInput, " ")[2]);
            && (|dateStr| == 0 ==> Agenda(userInput, infos) == Error(MissingDateMessage))
            && (|dateStr| > 0 && ParseDate(dateStr).None? ==> Agenda(userInput, infos) == Error(InvalidDateMessage))
            && (|dateStr| > 0 && ParseDate(dateStr).Some?
                ==> Agenda(userInput, infos) == Done(Report(infos, ParseDate(dateStr).value)))
  {
  }

  /** `agenda` alone, or any input without a space, is not in the expected format. */
  lemma AgendaWordOnly(word: string, infos: seq<Info>)
    requires |infos| > 0 && Lacks(word, ' ')
    ensures Agenda(word, infos) == Error(FormatMessage)
  {
    JavaText.NoSeparator(word, " ", 0);
  }

  /** The digits and slashes of a `d/M/yyyy` date: no space, a digit at both ends. */
  lemma DateTextShape(d: LocalDate)
    ensures var s := FormatDateMachine(d);
            |s| > 0 && Lacks(s, ' ') && !IsTrimmable(s[0]) && !IsTrimmable(s[|s| - 1])
  {
    var a, b, c := NatToString(d.day), NatToString(d.month), ZeroPad(d.year, 4);
    TaskIndex.DigitsLackSpace(a);
    TaskIndex.DigitsLackSpace(b);
    TaskIndex.DigitsLackSpace(c);
    SlashLacksSpace();
    LacksJoin(a, "/", ' ');
    LacksJoin(a + "/", b, ' ');
    LacksJoin(a + "/" + b, "/", ' ');
    LacksJoin(a + "/" + b + "/", c, ' ');
    var s := FormatDateMachine(d);
    assert s[0] == a[0];
    assert |c| == 4 && s[|s| - 1] == c[3];
  }

  lemma SlashLacksSpace()
    ensures Lacks("/", ' ')
  {
    LacksSpec("/", ' ');
  }

  lemma AgendaWordsLackSpace()
    ensures Lacks("agenda", ' ') && Lacks("for", ' ')
  {
    LacksSpec("agenda", ' ');
    LacksSpec("for", ' ');
  }

  /** A word, `for` and a date text without spaces that reads as `d`: the agenda of `d`. */
  lemma AgendaOfWords(x: string, s: string, infos: seq<Info>, d: LocalDate)
    requires |infos| > 0 && Lacks(x, ' ') && Lacks(s, ' ') && |s| > 0
    requires Trim(s) == s && ParseDate(s) == Some(d)
    ensures Agenda(x + " " + ("for" + " " + s), infos) == Done(Report(infos, d))
  {
    SplitAgendaWords(x, s);
  }

  lemma SplitAgendaWords(x: string, s: string)
    requires Lacks(x, ' ') && Lacks(s, ' ') && |s| > 0
    ensures Split(x + " " + ("for" + " " + s), " ") == [x, "for", s]
  {
    AgendaWordsLackSpace();
    SplitTriple(x, " ", "for", s, 0);
  }

  /** `agenda for` followed by a date written as `d/M/yyyy` gives the agenda of that date. */
  lemma AgendaOfDate(d: LocalDate, infos: seq<Info>)
    requires |infos| > 0
    ensures Agenda("agenda for " + FormatDateMachine(d), infos) == Done(Report(infos, d))
  {
    var s := FormatDateMachine(d);
    DateTextShape(d);
    TrimOfTrimmed(s);
    ParseFormattedDate(d);
    AgendaWordsLackSpace();
    AgendaOfWords("agenda", s, infos, d);
    AgendaInput(s);
  }

  lemma AgendaInput(s: string)
    ensures "agenda for " + s == "agenda" + " " + ("for" + " " + s)
  {
  }

  /** The infos of a longer prefix. */
  lemma GroupSnoc(g: Group, infos: seq<Info>, i: nat, d: LocalDate)
    requires i < |infos|
    ensures GroupLines(g, infos[..i + 1], d)
            == GroupLines(g, infos[..i], d) + (if InGroup(g, infos[i], d) then EntryLine(infos[i]) else "")
    ensures GroupCount(g, infos[..i + 1], d) == GroupCount(g, infos[..i], d) + (if InGroup(g, infos[i], d) then 1 else 0)
  {
    assert infos[..i + 1][..i] == infos[..i];
  }

  /** The deadline loop: appends each task due on `currDate` and counts them. */
  method AppendDeadlines(taskList: seq<Task>, currDate: LocalDate, start: string) returns (tasksOfDay: string, deadlineCount: nat)
    ensures tasksOfDay == start + GroupLines(Deadlines, InfosOf(TaskLists.RecordsOf(taskList)), currDate)
    ensures deadlineCount == GroupCount(Deadlines, InfosOf(TaskLists.RecordsOf(taskList)), currDate)
  {
    ghost var infos := InfosOf(TaskLists.RecordsOf(taskList));
    tasksOfDay, deadlineCount := start, 0;
    for i := 0 to |taskList|
      invariant tasksOfDay == start + GroupLines(Deadlines, infos[..i], currDate)
      invariant deadlineCount == GroupCount(Deadlines, infos[..i], currDate)
    {
      var task := taskList[i];
      GroupSnoc(Deadlines, infos, i, currDate);
      if task.info.DeadlineInfo? && ToDate(task.info.due) == currDate {
        var line := task.info.name + " due at: " + task.GetTime() + "\n";
        AppendAssociative(start, GroupLines(Deadlines, infos[..i], currDate), line);
        tasksOfDay := tasksOfDay + line;
        deadlineCount := deadlineCount + 1;
      }
    }
    assert infos[..|taskList|] == infos;
  }

  /** The event loop: appends each event that covers `currDate` and counts them. */
  method AppendEvents(taskList: seq<Task>, currDate: LocalDate, start: string) returns (tasksOfDay: string, eventCount: nat)
    ensures tasksOfDay == start + GroupLines(Events, InfosOf(TaskLists.RecordsOf(taskList)), currDate)
    ensures eventCount == GroupCount(Events, InfosOf(TaskLists.RecordsOf(taskList)), currDate)
  {
    ghost var infos := InfosOf(TaskLists.RecordsOf(taskList));
    tasksOfDay, eventCount := start, 0;
    for i := 0 to |taskList|
      invariant tasksOfDay == start + GroupLines(Events, infos[..i], currDate)
      invariant eventCount == GroupCount(Events, infos[..i], currDate)
    {
      var task := taskList[i];
      GroupSnoc(Events, infos, i, currDate);
      if task.info.EventInfo? && task.IncludesDate(currDate) {
        var line := task.info.name + " " + task.GetDates() + "\n";
        AppendAssociative(start, GroupLines(Events, infos[..i], currDate), line);
        tasksOfDay := tasksOfDay + line;
        eventCount := eventCount + 1;
      }
    }
    assert infos[..|taskList|] == infos;
  }

  /** `execute(userInput, taskList)`: the reply of `Agenda`; the list is only read. */
  method Execute(userInput: string, taskList: TaskLists.TaskArrayList) returns (o: Outcome)
    ensures o == Agenda(userInput, InfosOf(TaskLists.RecordsOf(taskList.items)))
  {
    var items := taskList.items;
    if |items| == 0 {
      return Done(NoTasksMessage);
    }
    var inputParts := Split(userInput, " ");
    if |inputParts| < 3 || inputParts[1] != "for" {
      return Error(FormatMessage);
    }
    var dateStr := Trim(inputParts[2]);
    if |dateStr| == 0 {
      return Error(MissingDateMessage);
    }
    var parsed := ParseDate(dateStr);
    if parsed.None? {
      return Error(InvalidDateMessage);
    }
    var currDate := parsed.value;
    var tasksOfDay := Heading(currDate);
    var deadlineCount;
    tasksOfDay, deadlineCount := AppendDeadlines(items, currDate, tasksOfDay);
    tasksOfDay := tasksOfDay + CountLine(Deadlines, deadlineCount);
    tasksOfDay := tasksOfDay + "\nEVENTS:\n";
    var eventCount;
    tasksOfDay, eventCount := AppendEvents(items, currDate, tasksOfDay);
    tasksOfDay := tasksOfDay + CountLine(Events, eventCount);
    return Done(Trim(tasksOfDay));
  }
}
