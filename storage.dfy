/**
 * The save file: one line per task, `status | K: name | time`. Saving writes the lines in list
 * order; loading reads them back, skipping lines it cannot make sense of, and gives up
 * altogether when a date on a Deadline or Event line cannot be parsed.
 */
module Storage {
  import opened Results
  import opened JavaText
  import opened Time
  import opened Tasks
  import opened TaskLists

  const LoadErrorPrefix := "An error occurred while loading tasks: "

  /**
   * What `parseTask` makes of one line: a task, `null` (the line is skipped with a warning), or
   * an unchecked exception that escapes `createTask` and ends the whole load.
   */
  datatype LineResult = Parsed(rec: TaskRecord) | Skipped | Aborted

  /** The third field of a saved line. */
  function TimeInfo(i: TaskInfo): string
  {
    match i
    case ToDoInfo(_) => "--"
    case DeadlineInfo(_, due) => "by: " + FormatMachine(due)
    case EventInfo(_, s, e) => "from: " + FormatMachine(s) + ", to: " + FormatMachine(e)
  }

  /** `formatTask(task)`: `status | K: name | time`. */
  function FormatTask(r: TaskRecord): string
  {
    StatusText(r.done) + " | " + Kind(r.info) + ": " + r.info.name + " | " + TimeInfo(r.info)
  }

  /** `createDeadline`: the time field must start with `by: `; an unparsable date escapes. */
  function CreateDeadline(description: string, timeInfo: string, isDone: bool): LineResult
  {
    if !StartsWith(timeInfo, "by: ") then Skipped
    else
      match ParseDateTime(Trim(timeInfo[4..]))
      case None => Aborted
      case Some(due) => Parsed(TaskRecord(DeadlineInfo(description, due), isDone))
  }

  /**
   * `createEvent`: the time field must start with `from: ` and contain `, to: `; an unparsable
   * date (or a missing second part) escapes, while a start not before the end makes the Event
   * constructor throw the checked exception that `createTask` turns into a skip.
   */
  function CreateEvent(description: string, timeInfo: string, isDone: bool): LineResult
  {
    if !StartsWith(timeInfo, "from: ") || !Contains(timeInfo, ", to: ") then Skipped
    else
      var eventParts := Split(timeInfo, ", to: ");
      if |eventParts| < 2 then Aborted
      else
        match Substring(eventParts[0], 6, |eventParts[0]|)
        case None => Aborted
        case Some(fromText) =>
          match ParseDateTime(Trim(fromText))
          case None => Aborted
          case Some(from) =>
            match ParseDateTime(Trim(eventParts[1]))
            case None => Aborted
            case Some(to) =>
              if IsBefore(from, to) then Parsed(TaskRecord(EventInfo(description, from, to), isDone))
              else Skipped
  }

  /**
   * `createTask`: builds the task the kind letter names. A line is only ever fatal for a
   * Deadline or an Event, and an unknown kind letter is skipped.
   */
  function CreateTask(kind: string, description: string, timeInfo: string, isDone: bool): LineResult
  {
    if kind == "T" then Parsed(TaskRecord(ToDoInfo(description), isDone))
    else if kind == "D" then CreateDeadline(description, timeInfo, isDone)
    else if kind == "E" then CreateEvent(description, timeInfo, isDone)
    else Skipped
  }

  /** A Deadline line yields a Deadline with the line's name and flag, and needs `by: `. */
  lemma CreateDeadlineSpec(description: string, timeInfo: string, isDone: bool)
    ensures var r := CreateDeadline(description, timeInfo, isDone);
            (r.Parsed? ==> r.rec.info.DeadlineInfo? && r.rec.info.name == description && r.rec.done == isDone)
            && (!StartsWith(timeInfo, "by: ") ==> r.Skipped?)
            && (StartsWith(timeInfo, "by: ") && ParseDateTime(Trim(timeInfo[4..])).None? ==> r.Aborted?)
  {
  }

  /**
   * An Event line yields an Event with the line's name and flag, and needs `from: ` and `, to: `;
   * past those, a missing end part or an unreadable date is fatal, and dates out of order skip.
   */
  lemma CreateEventSpec(description: string, timeInfo: string, isDone: bool)
    ensures var r := CreateEvent(description, timeInfo, isDone);
            (r.Parsed? ==> r.rec.info.EventInfo? && r.rec.info.name == description && r.rec.done == isDone)
            && (!StartsWith(timeInfo, "from: ") || !Contains(timeInfo, ", to: ") ==> r.Skipped?)
    ensures var r, p := CreateEvent(description, timeInfo, isDone), Split(timeInfo, ", to: ");
            StartsWith(timeInfo, "from: ") && Contains(timeInfo, ", to: ") ==>
              (|p| < 2 || |p[0]| < 6 ==> r.Aborted?)
              && (|p| >= 2 && |p[0]| >= 6 ==>
                   var from, to := ParseDateTime(Trim(p[0][6..])), ParseDateTime(Trim(p[1]));
                   (from.None? || to.None? ==> r.Aborted?)
                   && (from.Some? && to.Some? && !IsBefore(from.value, to.value) ==> r.Skipped?))
  {
    var p := Split(timeInfo, ", to: ");
    if |p| >= 2 && |p[0]| >= 6 {
      assert p[0][6..|p[0]|] == p[0][6..];
      assert Substring(p[0], 6, |p[0]|) == Some(p[0][6..]);
    }
  }

  /**
   * The task built has the kind letter, name and flag it was given; only a Deadline or an
   * Event line can be fatal, and a line with any other kind letter is skipped.
   */
  lemma CreateTaskSpec(kind: string, description: string, timeInfo: string, isDone: bool)
    ensures var r := CreateTask(kind, description, timeInfo, isDone);
            (r.Parsed? ==> Kind(r.rec.info) == kind && r.rec.info.name == description && r.rec.done == isDone)
            && (r.Aborted? ==> kind == "D" || kind == "E")
            && (kind != "T" && kind != "D" && kind != "E" ==> r.Skipped?)
  {
    CreateDeadlineSpec(description, timeInfo, isDone);
    CreateEventSpec(description, timeInfo, isDone);
  }

  /**
   * `parseTask(line)`: three or more ` | `-separated fields, of which the first three are used;
   * the middle one needs a `:` with something after it; the status is done exactly when it
   * trims to `X`.
   */
  function ParseTask(line: string): LineResult
  {
    var taskParts := Split(line, " | ");
    if |taskParts| < 3 then Skipped
    else
      var isDone := Trim(taskParts[0]) == "X";
      var typeAndName := Trim(taskParts[1]);
      if !Contains(typeAndName, ":") then Skipped
      else
        var typeSplit := Split(typeAndName, ":");
        if |typeSplit| < 2 then Skipped
        else CreateTask(Trim(typeSplit[0]), Trim(typeSplit[1]), Trim(taskParts[2]), isDone)
  }

  /**
   * A line with fewer than three fields, or whose middle field has no colon or nothing after
   * its first colon, is skipped; a task read from a line is done exactly when the first field
   * trims to `X`.
   */
  lemma ParseTaskSpec(line: string)
    ensures |Split(line, " | ")| < 3 ==> ParseTask(line).Skipped?
    ensures |Split(line, " | ")| >= 3 && !Contains(Trim(Split(line, " | ")[1]), ":") ==> ParseTask(line).Skipped?
    ensures |Split(line, " | ")| >= 3 && |Split(Trim(Split(line, " | ")[1]), ":")| < 2 ==> ParseTask(line).Skipped?
    ensures ParseTask(line).Parsed? ==> ParseTask(line).rec.done == (Trim(Split(line, " | ")[0]) == "X")
  {
    var taskParts := Split(line, " | ");
    if |taskParts| >= 3 {
      var typeAndName := Trim(taskParts[1]);
      var typeSplit := Split(typeAndName, ":");
      if Contains(typeAndName, ":") && |typeSplit| >= 2 {
        CreateTaskSpec(Trim(typeSplit[0]), Trim(typeSplit[1]), Trim(taskParts[2]), Trim(taskParts[0]) == "X");
      }
    }
  }

  // ---------------------------------------------------------------- round trip

  /**
   * A name the line format can carry: non-empty, already trimmed, and free of `|` (the field
   * separator) and `:` (the kind separator, after whose second piece the reader stops).
   */
  predicate StorableName(n: string)
  {
    |n| > 0 && !IsTrimmable(n[0]) && !IsTrimmable(n[|n| - 1]) && Lacks(n, '|') && Lacks(n, ':')
  }

  predicate Storable(r: TaskRecord)
  {
    StorableName(r.info.name)
  }

  /** What the machine format writes for a date-time: digits first and last, and no separator. */
  predicate MachineText(m: string)
  {
    |m| > 0 && IsDigit(m[0]) && IsDigit(m[|m| - 1]) && Lacks(m, '|') && Lacks(m, ',') && Lacks(m, ':')
  }

  lemma {:induction false} MachineLacks(s: string)
    requires MachineChars(s)
    ensures Lacks(s, '|') && Lacks(s, ',') && Lacks(s, ':')
    decreases |s|
  {
    if s != [] {
      assert MachineChars(s[1..]) by {
        forall k | 0 <= k < |s| - 1 ensures IsDigit(s[1..][k]) || s[1..][k] == '/' || s[1..][k] == ' ' {
          assert s[1..][k] == s[k + 1];
        }
      }
      MachineLacks(s[1..]);
    }
  }

  lemma FormatMachineText(t: LocalDateTime)
    ensures MachineText(FormatMachine(t))
  {
    FormatMachineShape(t);
    MachineLacks(FormatMachine(t));
  }

  /** A string is its own trim when it starts and ends with a character that is not trimmable. */
  lemma TrimOfEnds(s: string)
    requires |s| > 0 && !IsTrimmable(s[0]) && !IsTrimmable(s[|s| - 1])
    ensures Trim(s) == s
  {
    TrimOfTrimmed(s);
  }

  lemma DeadlineTimeShape(m: string)
    requires MachineText(m)
    ensures Lacks("by: " + m, '|')
    ensures Trim("by: " + m) == "by: " + m
  {
    LacksJoin("by: ", m, '|');
    TrimOfEnds("by: " + m);
  }

  lemma EventTimeLacks(a: string, b: string)
    requires Lacks(a, '|') && Lacks(b, '|')
    ensures Lacks("from: " + a + ", to: " + b, '|')
  {
    LacksJoin("from: ", a, '|');
    LacksJoin("from: " + a, ", to: ", '|');
    LacksJoin("from: " + a + ", to: ", b, '|');
  }

  lemma EventTimeTrim(a: string, b: string)
    requires |b| > 0 && IsDigit(b[|b| - 1])
    ensures Trim("from: " + a + ", to: " + b) == "from: " + a + ", to: " + b
  {
    var ti := "from: " + a + ", to: " + b;
    assert ti[0] == 'f' && ti[|ti| - 1] == b[|b| - 1];
    TrimOfEnds(ti);
  }

  /** A field without `|` that is its own trim. */
  predicate CleanField(ti: string)
  {
    |ti| > 0 && Lacks(ti, '|') && Trim(ti) == ti
  }

  lemma DashesLack()
    ensures Lacks("--", '|')
  {
  }

  lemma DashesTrim()
    ensures Trim("--") == "--"
  {
    TrimOfEnds("--");
  }

  lemma ToDoTimeShape(n: string)
    ensures CleanField(TimeInfo(ToDoInfo(n)))
  {
    DashesLack();
    DashesTrim();
  }

  lemma DeadlineTimeInfoShape(n: string, due: LocalDateTime)
    ensures CleanField(TimeInfo(DeadlineInfo(n, due)))
  {
    FormatMachineText(due);
    DeadlineTimeShape(FormatMachine(due));
  }

  lemma EventTimeInfoShape(n: string, s: LocalDateTime, e: LocalDateTime)
    ensures CleanField(TimeInfo(EventInfo(n, s, e)))
  {
    FormatMachineText(s);
    FormatMachineText(e);
    EventTimeLacks(FormatMachine(s), FormatMachine(e));
    EventTimeTrim(FormatMachine(s), FormatMachine(e));
  }

  /** The time field of a saved line holds no `|`, is non-empty and is its own trim. */
  lemma TimeInfoShape(i: TaskInfo)
    ensures CleanField(TimeInfo(i))
  {
    match i
    case ToDoInfo(n) => ToDoTimeShape(n);
    case DeadlineInfo(n, due) => DeadlineTimeInfoShape(n, due);
    case EventInfo(n, s, e) => EventTimeInfoShape(n, s, e);
  }

  /** Three pieces without `|`, the last one non-empty, joined by ` | `, split back into those pieces. */
  lemma SplitThree(st: string, mid: string, ti: string)
    requires Lacks(st, '|') && Lacks(mid, '|') && Lacks(ti, '|') && |ti| > 0
    ensures Split(st + " | " + (mid + " | " + ti), " | ") == [st, mid, ti]
  {
    SplitTriple(st, " | ", mid, ti, 1);
  }

  /** A saved line splits into its status, its kind and name, and its time field. */
  lemma SplitFields(st: string, k: string, name: string, ti: string)
    requires Lacks(st, '|') && Lacks(k, '|') && Lacks(name, '|') && Lacks(ti, '|') && |ti| > 0
    ensures Split(st + " | " + k + ": " + name + " | " + ti, " | ") == [st, k + ": " + name, ti]
  {
    var mid := k + ": " + name;
    assert st + " | " + k + ": " + name + " | " + ti == st + " | " + (mid + " | " + ti);
    LacksJoin(k, ": ", '|');
    LacksJoin(k + ": ", name, '|');
    SplitThree(st, mid, ti);
  }

  lemma StatusKindLack(r: TaskRecord)
    ensures Lacks(StatusText(r.done), '|') && Lacks(Kind(r.info), '|')
  {
  }

  /** A formatted line splits into exactly its three fields. */
  lemma SplitFormatted(r: TaskRecord)
    requires Storable(r)
    ensures Split(FormatTask(r), " | ") == [StatusText(r.done), Kind(r.info) + ": " + r.info.name, TimeInfo(r.info)]
  {
    TimeInfoShape(r.info);
    StatusKindLack(r);
    SplitFields(StatusText(r.done), Kind(r.info), r.info.name, TimeInfo(r.info));
  }

  /** `k:rest` with a single non-colon `k` and a colon-free, non-empty `rest` splits at the colon. */
  lemma SplitColon(k: string, rest: string)
    requires |k| == 1 && k[0] != ':' && |rest| > 0 && Lacks(rest, ':')
    ensures Split(k + ":" + rest, ":") == [k, rest]
  {
    SplitPair(k, ":", rest, 0);
  }

  /** The middle field of a saved line gives back the kind letter and the name. */
  lemma SplitKindAndName(k: string, name: string)
    requires |k| == 1 && !IsTrimmable(k[0]) && k[0] != ':' && StorableName(name)
    ensures Trim(k + ": " + name) == k + ": " + name
    ensures Contains(k + ": " + name, ":")
    ensures Split(k + ": " + name, ":") == [k, " " + name]
    ensures Trim(k) == k && Trim(" " + name) == name
  {
    var rest := " " + name;
    assert k + ": " + name == k + ":" + rest;
    LacksJoin(" ", name, ':');
    SplitColon(k, rest);
    TrimOfEnds(k + ": " + name);
    TrimOfEnds(k);
    TrimSkipsLeading(" ", name);
    TrimOfEnds(name);
  }

  /** The status field gives back the done flag. */
  lemma StatusTrim(done: bool)
    ensures (Trim(StatusText(done)) == "X") == done
  {
    if done {
      TrimOfEnds("X");
    } else {
      assert Trim(" ") == [];
    }
  }

  /** A well-formed Deadline time field is read back as its date. */
  lemma CreateDeadlineOf(n: string, m: string, done: bool, due: LocalDateTime)
    requires MachineText(m) && ParseDateTime(m) == Some(due)
    ensures CreateDeadline(n, "by: " + m, done) == Parsed(TaskRecord(DeadlineInfo(n, due), done))
  {
    assert ("by: " + m)[..4] == "by: " && ("by: " + m)[4..] == m;
    TrimOfEnds(m);
  }

  lemma CreateFormattedDeadline(n: string, due: LocalDateTime, done: bool)
    ensures CreateDeadline(n, TimeInfo(DeadlineInfo(n, due)), done) == Parsed(TaskRecord(DeadlineInfo(n, due), done))
  {
    FormatMachineText(due);
    ParseFormattedDateTime(due);
    CreateDeadlineOf(n, FormatMachine(due), done, due);
  }

  lemma FromLacks(a: string)
    requires Lacks(a, ',')
    ensures Lacks("from: " + a, ',')
  {
    LacksJoin("from: ", a, ',');
  }

  /** `x, to: b` splits at `, to: ` when neither `x` nor `b` has a comma and `b` is not empty. */
  lemma SplitEventTime(x: string, b: string)
    requires Lacks(x, ',') && |b| > 0 && Lacks(b, ',')
    ensures Split(x + ", to: " + b, ", to: ") == [x, b]
    ensures Contains(x + ", to: " + b, ", to: ")
  {
    SplitPair(x, ", to: ", b, 0);
  }

  lemma FromPrefix(a: string)
    ensures Substring("from: " + a, 6, |"from: " + a|) == Some(a)
  {
    assert ("from: " + a)[6..|"from: " + a|] == a;
  }

  /**
   * An Event time field whose pieces read back as two dates yields that Event when they are in
   * order, and is skipped when they are not.
   */
  lemma CreateEventParts(n: string, ti: string, x: string, a: string, b: string, done: bool, start: LocalDateTime, end: LocalDateTime)
    requires StartsWith(ti, "from: ") && Contains(ti, ", to: ") && Split(ti, ", to: ") == [x, b]
    requires Substring(x, 6, |x|) == Some(a) && Trim(a) == a && Trim(b) == b
    requires ParseDateTime(a) == Some(start) && ParseDateTime(b) == Some(end)
    ensures IsBefore(start, end) ==> CreateEvent(n, ti, done) == Parsed(TaskRecord(EventInfo(n, start, end), done))
    ensures !IsBefore(start, end) ==> CreateEvent(n, ti, done) == Skipped
  {
  }

  /**
   * A well-formed Event time field is read back as its two dates; a start not before the end
   * makes the Event constructor throw, and the line is skipped rather than ending the load.
   */
  lemma CreateEventOf(n: string, a: string, b: string, done: bool, start: LocalDateTime, end: LocalDateTime)
    requires MachineText(a) && MachineText(b)
    requires ParseDateTime(a) == Some(start) && ParseDateTime(b) == Some(end)
    ensures IsBefore(start, end) ==> CreateEvent(n, "from: " + a + ", to: " + b, done) == Parsed(TaskRecord(EventInfo(n, start, end), done))
    ensures !IsBefore(start, end) ==> CreateEvent(n, "from: " + a + ", to: " + b, done) == Skipped
  {
    var x := "from: " + a;
    var ti := x + ", to: " + b;
    assert ti[..6] == "from: ";
    FromLacks(a);
    SplitEventTime(x, b);
    FromPrefix(a);
    TrimOfEnds(a);
    TrimOfEnds(b);
    CreateEventParts(n, ti, x, a, b, done, start, end);
  }

  lemma CreateFormattedEvent(i: Info, done: bool)
    requires i.EventInfo?
    ensures CreateEvent(i.name, TimeInfo(i), done) == Parsed(TaskRecord(i, done))
  {
    FormatMachineText(i.start);
    FormatMachineText(i.end);
    ParseFormattedDateTime(i.start);
    ParseFormattedDateTime(i.end);
    CreateEventOf(i.name, FormatMachine(i.start), FormatMachine(i.end), done, i.start, i.end);
  }

  /** A line whose fields are read as a kind, a name and a time field is built from those. */
  lemma ParseTaskOf(line: string, st: string, k: string, name: string, ti: string)
    requires |k| == 1 && !IsTrimmable(k[0]) && k[0] != ':' && StorableName(name)
    requires Split(line, " | ") == [st, k + ": " + name, ti] && Trim(ti) == ti
    ensures ParseTask(line) == CreateTask(k, name, ti, Trim(st) == "X")
  {
    SplitKindAndName(k, name);
  }

  /**
   * Round trip: a task whose name the format can carry is read back from its saved line with
   * the same kind, name, done flag and dates.
   */
  lemma ParseFormatted(r: TaskRecord)
    requires Storable(r)
    ensures ParseTask(FormatTask(r)) == Parsed(r)
  {
    SplitFormatted(r);
    TimeInfoShape(r.info);
    ParseTaskOf(FormatTask(r), StatusText(r.done), Kind(r.info), r.info.name, TimeInfo(r.info));
    StatusTrim(r.done);
    CreateFormatted(r);
  }

  /** The kind letter, name, time field and flag of a saved task build that task again. */
  lemma CreateFormatted(r: TaskRecord)
    ensures CreateTask(Kind(r.info), r.info.name, TimeInfo(r.info), r.done) == Parsed(r)
  {
    match r.info
    case ToDoInfo(_) =>
    case DeadlineInfo(n, due) => CreateFormattedDeadline(n, due, r.done);
    case EventInfo(_, _, _) => CreateFormattedEvent(r.info, r.done);
  }

  // ---------------------------------------------------------------- loading and saving

  /** `f` applied to each line in turn, in line order. */
  function MapLines<R>(f: string -> R, lines: seq<string>): seq<R>
  {
    if lines == [] then [] else MapLines(f, lines[..|lines| - 1]) + [f(lines[|lines| - 1])]
  }

  /** There is one result per line, and it is what `f` makes of that line. */
  lemma {:induction false} MapLinesSpec<R>(f: string -> R, lines: seq<string>)
    ensures |MapLines(f, lines)| == |lines|
    ensures forall k :: 0 <= k < |lines| ==> MapLines(f, lines)[k] == f(lines[k])
  {
    if lines != [] {
      var init := lines[..|lines| - 1];
      MapLinesSpec(f, init);
      assert forall k :: 0 <= k < |init| ==> init[k] == lines[k];
    }
  }

  /** What `parseTask` makes of each line, in line order. */
  function ParseAll(lines: seq<string>): seq<LineResult>
  {
    MapLines(ParseTask, lines)
  }

  /** There is one result per line, and it is what `parseTask` makes of that line. */
  lemma ParseAllSpec(lines: seq<string>)
    ensures |ParseAll(lines)| == |lines|
    ensures forall k :: 0 <= k < |lines| ==> ParseAll(lines)[k] == ParseTask(lines[k])
  {
    MapLinesSpec(ParseTask, lines);
  }

  /** Reading one more line appends its result. */
  lemma ParseAllSnoc(lines: seq<string>, i: nat)
    requires i < |lines|
    ensures ParseAll(lines[..i + 1]) == ParseAll(lines[..i]) + [ParseTask(lines[i])]
  {
    assert lines[..i + 1][..i] == lines[..i];
  }

  /** A file none of whose results is fatal has no fatal line. */
  lemma NoneAborted(lines: seq<string>)
    requires forall k :: 0 <= k < |ParseAll(lines)| ==> !ParseAll(lines)[k].Aborted?
    ensures !AnyAborted(lines)
  {
    ParseAllSpec(lines);
  }

  /** The tasks that a run of line results yields, in order; skipped lines contribute nothing. */
  function Kept(rs: seq<LineResult>): seq<TaskRecord>
  {
    if rs == [] then []
    else Kept(rs[..|rs| - 1]) + (if rs[|rs| - 1].Parsed? then [rs[|rs| - 1].rec] else [])
  }

  /** The tasks that the lines of a file yield. */
  function Surviving(lines: seq<string>): seq<TaskRecord>
  {
    Kept(ParseAll(lines))
  }

  /** Some line ends the load with an unchecked exception. */
  predicate AnyAborted(lines: seq<string>)
  {
    exists k :: 0 <= k < |lines| && ParseTask(lines[k]).Aborted?
  }

  /** Reading results in two parts keeps both parts' tasks, first part first. */
  lemma {:induction false} KeptAppend(a: seq<LineResult>, b: seq<LineResult>)
    ensures Kept(a + b) == Kept(a) + Kept(b)
    decreases |b|
  {
    if b == [] {
      assert a + b == a;
    } else {
      var c := b[..|b| - 1];
      assert (a + b)[..|a + b| - 1] == a + c;
      KeptAppend(a, c);
    }
  }

  /** Kept tasks come from parsed lines only: a run without a parsed line keeps nothing, and
      every kept task is one that some line parsed to, in order. */
  lemma {:induction false} KeptOnlyParsed(rs: seq<LineResult>)
    ensures |Kept(rs)| <= |rs|
    ensures (forall k :: 0 <= k < |rs| ==> !rs[k].Parsed?) ==> Kept(rs) == []
    ensures forall j :: 0 <= j < |Kept(rs)| ==> exists k :: 0 <= k < |rs| && rs[k] == Parsed(Kept(rs)[j])
    decreases |rs|
  {
    if rs != [] {
      var init := rs[..|rs| - 1];
      KeptOnlyParsed(init);
      forall j | 0 <= j < |Kept(rs)|
        ensures exists k :: 0 <= k < |rs| && rs[k] == Parsed(Kept(rs)[j])
      {
        if j < |Kept(init)| {
          var k :| 0 <= k < |init| && init[k] == Parsed(Kept(init)[j]);
          assert rs[k] == init[k];
        } else {
          assert rs[|rs| - 1] == Parsed(Kept(rs)[j]);
        }
      }
    }
  }

  /** The results `Parsed(r)` of a run of records, one per record. */
  function ParsedAll(recs: seq<TaskRecord>): (rs: seq<LineResult>)
    ensures |rs| == |recs| && forall k :: 0 <= k < |recs| ==> rs[k] == Parsed(recs[k])
  {
    seq(|recs|, k requires 0 <= k < |recs| => Parsed(recs[k]))
  }

  /** When every line parses, the tasks are exactly the parsed ones. */
  lemma {:induction false} KeptParsedAll(recs: seq<TaskRecord>)
    ensures Kept(ParsedAll(recs)) == recs
    decreases |recs|
  {
    if recs != [] {
      var init := recs[..|recs| - 1];
      assert ParsedAll(recs)[..|recs| - 1] == ParsedAll(init);
      KeptParsedAll(init);
      assert recs == init + [recs[|recs| - 1]];
    }
  }

  /** The lines `updateList` writes for the tasks, one per task, in list order. */
  function FormatAll(rs: seq<TaskRecord>): (lines: seq<string>)
    ensures |lines| == |rs|
    ensures forall k :: 0 <= k < |rs| ==> lines[k] == FormatTask(rs[k])
  {
    seq(|rs|, k requires 0 <= k < |rs| => FormatTask(rs[k]))
  }

  /** Saving and then loading gives back the list: no line is skipped and none is fatal. */
  lemma LoadFormatted(rs: seq<TaskRecord>)
    requires forall k :: 0 <= k < |rs| ==> Storable(rs[k])
    ensures Surviving(FormatAll(rs)) == rs
    ensures !AnyAborted(FormatAll(rs))
  {
    var lines := FormatAll(rs);
    forall k | 0 <= k < |rs|
      ensures ParseTask(lines[k]) == Parsed(rs[k])
    {
      ParseFormatted(rs[k]);
    }
    ParseAllSpec(lines);
    assert ParseAll(lines) == ParsedAll(rs);
    KeptParsedAll(rs);
  }

  /** One more result adds its task, if it has one, at the end. */
  lemma KeptSnoc(rs: seq<LineResult>, x: LineResult)
    ensures Kept(rs + [x]) == Kept(rs) + (if x.Parsed? then [x.rec] else [])
  {
    assert (rs + [x])[..|rs|] == rs;
  }

  /** One step of the line loop: the result of line `i` extends the results and the tasks. */
  lemma ReadOneMore(lines: seq<string>, i: nat, results: seq<LineResult>, parsed: LineResult)
    requires i < |lines| && results == ParseAll(lines[..i]) && parsed == ParseTask(lines[i])
    ensures results + [parsed] == ParseAll(lines[..i + 1])
    ensures Kept(results + [parsed]) == Kept(results) + (if parsed.Parsed? then [parsed.rec] else [])
  {
    ParseAllSnoc(lines, i);
    KeptSnoc(results, parsed);
  }

  /** `tasks.add(task)` for the fresh task object that a parsed line built. */
  method AddParsed(list: TaskArrayList, rec: TaskRecord)
    requires list.Distinct()
    modifies list
    ensures |list.items| == |old(list.items)| + 1 && list.items[..|old(list.items)|] == old(list.items)
    ensures list.Records() == old(list.Records()) + [rec]
    ensures list.Distinct()
  {
    var task := new Task.FromRecord(rec);
    RecordsSnoc(list.items, task);
    list.Add(task);
    assert list.items[..|old(list.items)|] == old(list.items);
  }

  /** One turn of the line loop: parse the line and add the task it yields, if any. */
  method LoadLine(list: TaskArrayList, line: string) returns (parsed: LineResult)
    requires list.Distinct()
    modifies list
    ensures parsed == ParseTask(line)
    ensures list.Records() == old(list.Records()) + (if parsed.Parsed? then [parsed.rec] else [])
    ensures list.Distinct()
  {
    parsed := ParseTask(line);
    if parsed.Parsed? {
      AddParsed(list, parsed.rec);
    }
  }

  /** Results read line by line, none of them fatal, are the whole file's. */
  lemma LoadedAll(lines: seq<string>, results: seq<LineResult>)
    requires results == ParseAll(lines)
    requires forall k :: 0 <= k < |results| ==> !results[k].Aborted?
    ensures !AnyAborted(lines) && Kept(results) == Surviving(lines)
  {
    NoneAborted(lines);
  }

  /**
   * The line loop of `loadList`: on success a fresh list of distinct task objects, one per line
   * that parses, in line order; the first fatal line turns the load into the error message.
   */
  method LoadList(lines: seq<string>) returns (r: Result<TaskArrayList, string>)
    ensures r.Success? <==> !AnyAborted(lines)
    ensures r.Success? ==> fresh(r.value) && r.value.Records() == Surviving(lines) && r.value.Distinct()
    ensures r.Failure? ==> r.error == LoadErrorPrefix
  {
    var taskList := new TaskArrayList();
    ghost var results: seq<LineResult> := [];
    var i := 0;
    while i < |lines|
      invariant 0 <= i <= |lines|
      invariant fresh(taskList)
      invariant taskList.Distinct()
      invariant results == ParseAll(lines[..i])
      invariant forall k :: 0 <= k < |results| ==> !results[k].Aborted?
      invariant taskList.Records() == Kept(results)
    {
      var parsed := LoadLine(taskList, lines[i]);
      if parsed.Aborted? {
        return Failure(LoadErrorPrefix);
      }
      ReadOneMore(lines, i, results, parsed);
      results := results + [parsed];
      i := i + 1;
    }
    assert lines[..i] == lines;
    LoadedAll(lines, results);
    r := Success(taskList);
  }

  /** The line loop of `updateList`: the lines it writes, one per task, in list order. */
  method UpdateList(tasks: TaskArrayList) returns (lines: seq<string>)
    ensures lines == FormatAll(tasks.Records())
  {
    ghost var recs := tasks.Records();
    lines := [];
    var i := 0;
    while i < |tasks.items|
      invariant 0 <= i <= |tasks.items|
      invariant |lines| == i && forall k :: 0 <= k < i ==> lines[k] == FormatTask(recs[k])
    {
      assert recs[i] == tasks.items[i].Record();
      lines := lines + [FormatTask(tasks.items[i].Record())];
      i := i + 1;
    }
  }
}
