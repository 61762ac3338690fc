/**
 * The `PiggyPlanner` class: it classifies the first word of an input, checks the shape of the
 * arguments, runs the command on the shared task list and saves the list after every command
 * that may have changed it.
 */
module Planner {
  import opened Results
  import opened JavaText
  import opened Tasks
  import opened TaskLists
  import opened CommandTypes
  import Storage
  import ListCommand
  import Mark
  import Unmark
  import AddTask
  import DeleteTask
  import Find
  import DayPlan

  const GoodbyeMessage := "Goodbye! See you soon! \U{1F437}"
  const NotUnderstoodMessage := "Unfortunately, I don't know what that means. Please try again."
  const UnknownCommandMessage := "Unknown command. Can you try again?"
  const TodoArgumentMessage := "The 'todo' command requires a task description."
  const DeadlineArgumentMessage := "The 'deadline' command requires a task description and a due date. "
                                   + "Format: deadline <task> /by <d/M/yyyy HHmm>"
  const EventArgumentMessage := "The 'event' command requires a task description, start date, and end date. "
                                + "Format: event <task> /from <d/M/yyyy HHmm> /to <d/M/yyyy HHmm>"
  const AgendaArgumentMessage := "The 'agenda' command requires a valid date. Format: agenda for <d/M/yyyy>"

  /** `userInput.trim().split(" ", 2)`: the command word and, if there is one, the rest. */
  function Parts(userInput: string): (parts: seq<string>)
    ensures 1 <= |parts| <= 2
  {
    SplitOnce(Trim(userInput), " ")
  }

  /** The command that the first word selects. */
  function CommandOf(userInput: string): CommandType
  {
    FromString(Parts(userInput)[0])
  }

  /** `validateArguments`: the message of the exception it throws, or `None` when it passes. */
  function Refusal(command: CommandType, inputParts: seq<string>): Option<string>
  {
    var argLength := |inputParts|;
    match command
    case LIST =>
      if argLength != 1 then Some(NoArgumentsMessage(command)) else None
    case EXIT =>
      if argLength != 1 then Some(NoArgumentsMessage(command)) else None
    case MARK =>
      if argLength != 2 then Some(OneNumberMessage(command)) else None
    case UNMARK =>
      if argLength != 2 then Some(OneNumberMessage(command)) else None
    case DELETE =>
      if argLength != 2 then Some(OneNumberMessage(command)) else None
    case FIND =>
      if argLength < 2 || IsBlank(inputParts[1]) then Some(Find.MissingKeywordsMessage) else None
    case TODO =>
      if argLength != 2 || IsBlank(inputParts[1]) then Some(TodoArgumentMessage) else None
    case DEADLINE =>
      if argLength < 2 || !Contains(inputParts[1], "/by") then Some(DeadlineArgumentMessage) else None
    case EVENT =>
      if argLength < 2 || !Contains(inputParts[1], "/from") || !Contains(inputParts[1], "/to") then
        Some(EventArgumentMessage)
      else None
    case DAYPLAN =>
      if argLength != 2 then Some(AgendaArgumentMessage) else None
    case UNKNOWN =>
      Some(UnknownCommandMessage)
  }

  function NoArgumentsMessage(command: CommandType): string
  {
    "The '" + ConstantName(command) + "' command does not take any arguments."
  }

  function OneNumberMessage(command: CommandType): string
  {
    "The '" + ConstantName(command) + "' command requires exactly one task number."
  }

  /** The commands after which `processCommand` calls `Storage.updateList`. */
  predicate Mutates(command: CommandType)
  {
    command == MARK || command == UNMARK || command == TODO || command == DEADLINE
    || command == EVENT || command == DELETE
  }

  /**
   * The switch of `processCommand` once the arguments have passed, for every command but FIND
   * (whose listing follows the order of a hash set): the reply and the task states after it.
   */
  function Dispatch(command: CommandType, userInput: string, recs: seq<TaskRecord>): (Outcome, seq<TaskRecord>)
    requires command != FIND
  {
    match command
    case LIST => (Done(ListCommand.ListText(recs)), recs)
    case MARK => Mark.Step(userInput, recs)
    case UNMARK => Unmark.Step(userInput, recs)
    case TODO => AddTask.AddStep(AddTask.ReadTodo(userInput), recs)
    case DEADLINE => AddTask.AddStep(AddTask.ReadDeadline(userInput), recs)
    case EVENT => AddTask.AddStep(AddTask.ReadEvent(userInput), recs)
    case DELETE => DeleteTask.Step(userInput, recs)
    case DAYPLAN => (DayPlan.Agenda(userInput, DayPlan.InfosOf(recs)), recs)
    case EXIT => (Done(GoodbyeMessage), recs)
    case UNKNOWN => (Error(NotUnderstoodMessage), recs)
  }

  /** `processCommand(userInput)` for every command but FIND: validation first, then the switch. */
  function Step(userInput: string, recs: seq<TaskRecord>): (Outcome, seq<TaskRecord>)
    requires CommandOf(userInput) != FIND
  {
    var command := CommandOf(userInput);
    match Refusal(command, Parts(userInput))
    case Some(m) => (Error(m), recs)
    case None => Dispatch(command, userInput, recs)
  }

  /** Whether the list is written back to the save file after this reply. */
  predicate Saves(userInput: string, o: Outcome)
  {
    Mutates(CommandOf(userInput)) && o.Done?
  }

  /** `getResponse`: a `PiggyException` becomes its message; an unchecked exception escapes. */
  function Shown(o: Outcome): (shown: Outcome)
    ensures shown.Done? || shown.Fault?
    ensures o.Error? ==> shown == Done(o.message)
    ensures !o.Error? ==> shown == o
  {
    match o
    case Error(m) => Done(m)
    case _ => o
  }

  /**
   * Validation refuses every word that selects no command, so the switch's own UNKNOWN case
   * never runs; and any refusal leaves the tasks alone.
   */
  lemma UnknownRefused(userInput: string, recs: seq<TaskRecord>)
    requires CommandOf(userInput) == UNKNOWN
    ensures Step(userInput, recs) == (Error(UnknownCommandMessage), recs)
  {
  }

  /** A refused input is answered with the refusal and changes no task. */
  lemma RefusalKeeps(userInput: string, recs: seq<TaskRecord>)
    requires CommandOf(userInput) != FIND && Refusal(CommandOf(userInput), Parts(userInput)).Some?
    ensures Step(userInput, recs) == (Error(Refusal(CommandOf(userInput), Parts(userInput)).value), recs)
  {
  }

  /** Only the six mutating commands can change a task; `list`, `agenda` and `bye` never do. */
  lemma ReadOnlyKeeps(userInput: string, recs: seq<TaskRecord>)
    requires CommandOf(userInput) != FIND && !Mutates(CommandOf(userInput))
    ensures Step(userInput, recs).1 == recs
  {
  }

  /** No command creates a duplicate in a list that had none. */
  lemma StepKeepsNoDuplicates(userInput: string, recs: seq<TaskRecord>)
    requires CommandOf(userInput) != FIND && NoDuplicates(recs)
    ensures NoDuplicates(Step(userInput, recs).1)
  {
    if Refusal(CommandOf(userInput), Parts(userInput)).None? {
      match CommandOf(userInput)
      case MARK => Mark.StepKeepsNoDuplicates(userInput, recs);
      case UNMARK => Unmark.StepKeepsNoDuplicates(userInput, recs);
      case TODO => AddTask.AddStepKeepsNoDuplicates(AddTask.ReadTodo(userInput), recs);
      case DEADLINE => AddTask.AddStepKeepsNoDuplicates(AddTask.ReadDeadline(userInput), recs);
      case EVENT => AddTask.AddStepKeepsNoDuplicates(AddTask.ReadEvent(userInput), recs);
      case DELETE => DeleteTask.StepKeepsNoDuplicates(userInput, recs);
      case _ =>
    }
  }

  /** The arguments of `find` pass validation exactly when the search has keywords to look for. */
  lemma FindValidation(userInput: string)
    requires CommandOf(userInput) == FIND
    ensures Refusal(FIND, Parts(userInput)).None? <==> Find.Keywords(userInput).Some?
    ensures Refusal(FIND, Parts(userInput)).Some? ==> Refusal(FIND, Parts(userInput)).value == Find.MissingKeywordsMessage
  {
  }

  /** `list` and `bye` are refused exactly when the trimmed input has anything after the word. */
  lemma BareCommandsTakeNoArguments(userInput: string, recs: seq<TaskRecord>)
    requires CommandOf(userInput) == LIST || CommandOf(userInput) == EXIT
    ensures Step(userInput, recs).0.Error? <==> Contains(Trim(userInput), " ")
    ensures Contains(Trim(userInput), " ") ==> Step(userInput, recs) == (Error(NoArgumentsMessage(CommandOf(userInput))), recs)
  {
  }

  /**
   * `mark`, `unmark` and `delete` without anything after the word are refused before the
   * command runs; with something after it they always pass validation.
   */
  lemma NumberCommandsNeedArgument(userInput: string, recs: seq<TaskRecord>)
    requires CommandOf(userInput) == MARK || CommandOf(userInput) == UNMARK || CommandOf(userInput) == DELETE
    ensures Refusal(CommandOf(userInput), Parts(userInput)).None? <==> Contains(Trim(userInput), " ")
    ensures !Contains(Trim(userInput), " ") ==> Step(userInput, recs) == (Error(OneNumberMessage(CommandOf(userInput))), recs)
  {
  }

  /** A single word without spaces or surrounding blanks is the whole command, with no arguments. */
  lemma WordAlone(word: string)
    requires |word| > 0 && Lacks(word, ' ') && !IsTrimmable(word[0]) && !IsTrimmable(word[|word| - 1])
    ensures Parts(word) == [word]
  {
    TrimOfTrimmed(word);
    NoSeparator(word, " ", 0);
  }

  /** `list` alone lists the tasks and changes nothing. */
  lemma ListInput(recs: seq<TaskRecord>)
    ensures CommandOf("list") == LIST
    ensures Step("list", recs) == (Done(ListCommand.ListText(recs)), recs)
  {
    LacksSpec("list", ' ');
    WordAlone("list");
    assert Lower("list") == "list";
  }

  /** `bye` alone says goodbye and changes nothing. */
  lemma ByeInput(recs: seq<TaskRecord>)
    ensures CommandOf("bye") == EXIT
    ensures Step("bye", recs) == (Done(GoodbyeMessage), recs)
  {
    LacksSpec("bye", ' ');
    WordAlone("bye");
    assert Lower("bye") == "bye";
  }

  /** `getResponse` never lets a `PiggyException` through. */
  lemma ShownNeverThrows(o: Outcome)
    ensures !Shown(o).Error?
    ensures Shown(o).Done? ==> Shown(o).text == (if o.Error? then o.message else o.text)
  {
  }

  /**
   * What `processCommand` replies to FIND over the listed tasks `items`: the refusal, or, once
   * its arguments pass, the search's reply.
   */
  ghost predicate FindReplied(items: seq<Task>, userInput: string, o: Outcome, order: seq<Task>)
    reads order
  {
    match Refusal(FIND, Parts(userInput))
    case Some(m) => o == Error(m)
    case None =>
      && o.Done? && Find.Keywords(userInput).Some?
      && Find.Answers(items, Find.Keywords(userInput).value, order, o.text)
  }

  /** The planner: the task list it loaded, and what the save file holds. */
  class PiggyPlanner {
    const taskList: TaskList
    var saved: seq<string>

    ghost predicate Valid()
      reads this, taskList.tasks
    {
      taskList.tasks.Distinct()
    }

    /** The states of the planner's tasks, in list order. */
    function Records(): seq<TaskRecord>
      reads taskList.tasks, taskList.tasks.items
    {
      taskList.tasks.Records()
    }

    /** The save file holds exactly the lines of the current tasks. */
    ghost predicate Synced()
      reads this, taskList.tasks, taskList.tasks.items
    {
      saved == Storage.FormatAll(Records())
    }

    /** `new PiggyPlanner()` once `loadList` has read the tasks of the file `stored`. */
    constructor (loaded: TaskArrayList, stored: seq<string>)
      requires loaded.Distinct()
      ensures taskList.tasks == loaded && saved == stored && Valid()
    {
      taskList := new TaskList.Wrap(loaded);
      saved := stored;
    }

    /**
     * A synced save file gives back the current tasks when it is loaded again, as long as every
     * task can be written to a line and read back.
     */
    lemma SyncedReloads()
      requires Synced()
      requires forall k :: 0 <= k < |Records()| ==> Storage.Storable(Records()[k])
      ensures !Storage.AnyAborted(saved) && Storage.Surviving(saved) == Records()
    {
      Storage.LoadFormatted(Records());
    }

    /** `Storage.updateList(taskList.getAllTasks())`: the file is rewritten from the current tasks. */
    method Save()
      modifies this
      ensures Synced() && Records() == old(Records())
    {
      saved := Storage.UpdateList(taskList.GetAllTasks());
    }

    /**
     * What `processCommand(userInput)` leaves for every command but FIND: the reply and the task
     * states are those of `Step` from the states `before`, and the save file was rewritten
     * exactly when a mutating command returned (it held `savedBefore` otherwise).
     */
    ghost predicate Processed(userInput: string, before: seq<TaskRecord>, savedBefore: seq<string>, o: Outcome)
      requires CommandOf(userInput) != FIND
      reads this, taskList.tasks, taskList.tasks.items
    {
      && (o, Records()) == Step(userInput, before)
      && (Saves(userInput, o) ==> Synced())
      && (!Saves(userInput, o) ==> saved == savedBefore)
    }

    /**
     * `processCommand(userInput)`: for every command but FIND as `Processed` says. FIND changes
     * nothing, saves nothing and, once its arguments pass, answers the search.
     */
    method ProcessCommand(userInput: string) returns (o: Outcome, ghost order: seq<Task>)
      requires Valid()
      modifies this, taskList.tasks, taskList.tasks.items
      ensures Valid()
      ensures CommandOf(userInput) != FIND ==> Processed(userInput, old(Records()), old(saved), o)
      ensures CommandOf(userInput) == FIND ==>
                && Records() == old(Records()) && saved == old(saved)
                && match Refusal(FIND, Parts(userInput))
                   case Some(m) => o == Error(m)
                   case None => o.Done? && Find.Answers(taskList.tasks.items, Find.Keywords(userInput).value, order, o.text)
    {
      order := [];
      var inputParts := Parts(userInput);
      var command := FromString(inputParts[0]);
      var refusal := Refusal(command, inputParts);
      if refusal.Some? {
        return Error(refusal.value), [];
      }
      if command == FIND {
        o, order := RunFind(userInput);
      } else if Mutates(command) {
        o := ProcessChange(userInput);
      } else {
        o := ProcessQuery(userInput);
      }
    }

    /** The mutating commands that passed validation: run, then saved if they returned. */
    method ProcessChange(userInput: string) returns (o: Outcome)
      requires Valid() && CommandOf(userInput) != FIND && Mutates(CommandOf(userInput))
      requires Refusal(CommandOf(userInput), Parts(userInput)).None?
      modifies this, taskList.tasks, taskList.tasks.items
      ensures Valid() && Processed(userInput, old(Records()), old(saved), o)
    {
      match CommandOf(userInput)
      case MARK => o := RunMark(userInput);
      case UNMARK => o := RunUnmark(userInput);
      case TODO => o := RunTodo(userInput);
      case DEADLINE => o := RunDeadline(userInput);
      case EVENT => o := RunEvent(userInput);
      case DELETE => o := RunDelete(userInput);
    }

    /** `list`, `agenda` and `bye` once they passed validation: they read the list and save nothing. */
    method ProcessQuery(userInput: string) returns (o: Outcome)
      requires CommandOf(userInput) != FIND && !Mutates(CommandOf(userInput))
      requires Refusal(CommandOf(userInput), Parts(userInput)).None?
      ensures Processed(userInput, Records(), saved, o)
    {
      var tasks := taskList.GetAllTasks();
      match CommandOf(userInput)
      case LIST =>
        var text := ListCommand.Execute(tasks);
        o := Done(text);
      case DAYPLAN =>
        o := DayPlan.Execute(userInput, tasks);
      case EXIT =>
        o := Done(GoodbyeMessage);
    }

    /** The save file after a mutating command: rewritten if it returned, untouched otherwise. */
    ghost predicate SavedAfter(o: Outcome, savedBefore: seq<string>)
      reads this, taskList.tasks, taskList.tasks.items
    {
      && (o.Done? ==> Synced())
      && (!o.Done? ==> saved == savedBefore)
    }

    /** The MARK branch of `processCommand`: the command, then a save if it returned. */
    method RunMark(userInput: string) returns (o: Outcome)
      requires Valid()
      modifies this, taskList.tasks, taskList.tasks.items
      ensures Valid() && (o, Records()) == Mark.Step(userInput, old(Records()))
      ensures SavedAfter(o, old(saved))
    {
      o := Mark.Execute(userInput, taskList.GetAllTasks());
      if o.Done? { Save(); }
    }

    /** The UNMARK branch of `processCommand`: the command, then a save if it returned. */
    method RunUnmark(userInput: string) returns (o: Outcome)
      requires Valid()
      modifies this, taskList.tasks, taskList.tasks.items
      ensures Valid() && (o, Records()) == Unmark.Step(userInput, old(Records()))
      ensures SavedAfter(o, old(saved))
    {
      o := Unmark.Execute(userInput, taskList.GetAllTasks());
      if o.Done? { Save(); }
    }

    /** The TODO branch of `processCommand`: the command, then a save if it returned. */
    method RunTodo(userInput: string) returns (o: Outcome)
      requires Valid()
      modifies this, taskList.tasks, taskList.tasks.items
      ensures Valid() && (o, Records()) == AddTask.AddStep(AddTask.ReadTodo(userInput), old(Records()))
      ensures SavedAfter(o, old(saved))
    {
      o := AddTask.Todo(userInput, taskList.GetAllTasks());
      if o.Done? { Save(); }
    }

    /** The DEADLINE branch of `processCommand`: the command, then a save if it returned. */
    method RunDeadline(userInput: string) returns (o: Outcome)
      requires Valid()
      modifies this, taskList.tasks, taskList.tasks.items
      ensures Valid() && (o, Records()) == AddTask.AddStep(AddTask.ReadDeadline(userInput), old(Records()))
      ensures SavedAfter(o, old(saved))
    {
      o := AddTask.Deadline(userInput, taskList.GetAllTasks());
      if o.Done? { Save(); }
    }

    /** The EVENT branch of `processCommand`: the command, then a save if it returned. */
    method RunEvent(userInput: string) returns (o: Outcome)
      requires Valid()
      modifies this, taskList.tasks, taskList.tasks.items
      ensures Valid() && (o, Records()) == AddTask.AddStep(AddTask.ReadEvent(userInput), old(Records()))
      ensures SavedAfter(o, old(saved))
    {
      o := AddTask.Event(userInput, taskList.GetAllTasks());
      if o.Done? { Save(); }
    }

    /** The DELETE branch of `processCommand`: the command, then a save if it returned. */
    method RunDelete(userInput: string) returns (o: Outcome)
      requires Valid()
      modifies this, taskList.tasks, taskList.tasks.items
      ensures Valid() && (o, Records()) == DeleteTask.Step(userInput, old(Records()))
      ensures SavedAfter(o, old(saved))
    {
      o := DeleteTask.Execute(userInput, taskList.GetAllTasks());
      if o.Done? { Save(); }
    }

    /** The FIND branch of `processCommand`: the search reads the list and changes nothing. */
    method RunFind(userInput: string) returns (o: Outcome, ghost order: seq<Task>)
      requires CommandOf(userInput) == FIND && Refusal(FIND, Parts(userInput)).None?
      ensures o.Done? && Find.Answers(taskList.tasks.items, Find.Keywords(userInput).value, order, o.text)
    {
      FindValidation(userInput);
      var text;
      text, order := Find.Execute(userInput, taskList.GetAllTasks());
      o := Done(text);
    }

    /** `getResponse(input)`: the reply of `processCommand`, with a refusal shown as its message. */
    method GetResponse(input: string) returns (shown: Outcome, ghost o: Outcome, ghost order: seq<Task>)
      requires Valid()
      modifies this, taskList.tasks, taskList.tasks.items
      ensures Valid()
      ensures shown == Shown(o)
      ensures CommandOf(input) != FIND ==> Processed(input, old(Records()), old(saved), o)
      ensures CommandOf(input) == FIND ==>
                Records() == old(Records()) && saved == old(saved) && FindReplied(taskList.tasks.items, input, o, order)
    {
      var processed;
      processed, order := ProcessCommand(input);
      if CommandOf(input) == FIND {
        FindValidation(input);
      }
      o := processed;
      shown := Shown(processed);
    }
  }

  /**
   * `new PiggyPlanner()`: the tasks of the save file `stored`, or the message of the exception
   * that a fatal line raises.
   */
  method Start(stored: seq<string>) returns (r: Result<PiggyPlanner, string>)
    ensures r.Success? <==> !Storage.AnyAborted(stored)
    ensures r.Success? ==> fresh(r.value) && r.value.Valid() && r.value.Records() == Storage.Surviving(stored)
                           && r.value.saved == stored
    ensures r.Failure? ==> r.error == Storage.LoadErrorPrefix
  {
    var loaded := Storage.LoadList(stored);
    if loaded.Failure? {
      return Failure(loaded.error);
    }
    var planner := new PiggyPlanner(loaded.value, stored);
    r := Success(planner);
  }
}
