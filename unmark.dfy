/** `Unmark.execute`: clears the done flag of the task at the given 1-based number, in place. */
module Unmark {
  import opened Results
  import opened Tasks
  import opened TaskLists
  import opened TaskIndex
  import Mark

  const OutOfRangeMessage := "You need to unmark something actually in the list, silly"
  const NotANumberMessage := "You need to pick an index number to unmark in the list. You can try again."
  const AlreadyUnmarkedMessage := "The task is already unmarked."

  /** The reply after unmarking: the task is shown in its new state. */
  function UnmarkedMessage(r: TaskRecord): string
  {
    "Oops, no problem.\nI've unmarked the task:\n  " + Render(r)
  }

  /** The reply of `execute` on `input`, and the task states it leaves, given the states before. */
  function Step(input: string, recs: seq<TaskRecord>): (Outcome, seq<TaskRecord>)
  {
    Apply(ReadIndex(input), recs)
  }

  /** `Step` once the index token has been read. */
  function Apply(read: IndexRead, recs: seq<TaskRecord>): (Outcome, seq<TaskRecord>)
  {
    match read
    case MissingToken => (Fault(MissingTokenFault), recs)
    case NotANumber => (Error(NotANumberMessage), recs)
    case Index(k) =>
      if k < 0 || k >= |recs| then (Error(OutOfRangeMessage), recs)
      else if !recs[k].done then (Done(AlreadyUnmarkedMessage), recs)
      else
        var unmarked := TaskRecord(recs[k].info, false);
        (Done(UnmarkedMessage(unmarked)), recs[k := unmarked])
  }

  /** Every reply but a successful one leaves all tasks as they were. */
  lemma StepRefusalKeeps(input: string, recs: seq<TaskRecord>)
    requires !Step(input, recs).0.Done?
    ensures Step(input, recs).1 == recs
    ensures Step(input, recs).0 in {Fault(MissingTokenFault), Error(NotANumberMessage), Error(OutOfRangeMessage)}
  {
  }

  /** An index outside the list is refused: the number must be between 1 and the size. */
  lemma StepOutOfRange(input: string, recs: seq<TaskRecord>)
    requires ReadIndex(input).Index?
    ensures Step(input, recs).0 == Error(OutOfRangeMessage)
            <==> !(0 <= ReadIndex(input).position < |recs|)
  {
  }

  /**
   * On an index inside the list, only that task may change: it is not done afterwards, with the
   * same kind, name and dates, and the list keeps its length. A task that was not done is
   * reported and left alone.
   */
  lemma StepUnmarksOnlyIndex(input: string, recs: seq<TaskRecord>, k: int)
    requires ReadIndex(input) == Index(k) && 0 <= k < |recs|
    ensures var (o, after) := Step(input, recs);
            && |after| == |recs|
            && after[k] == TaskRecord(recs[k].info, false)
            && (forall j :: 0 <= j < |recs| && j != k ==> after[j] == recs[j])
            && (o == Done(AlreadyUnmarkedMessage) <==> !recs[k].done)
            && (recs[k].done ==> o == Done(UnmarkedMessage(after[k])))
  {
  }

  /** Unmarking never makes two tasks equal: names and kinds are untouched. */
  lemma StepKeepsNoDuplicates(input: string, recs: seq<TaskRecord>)
    requires NoDuplicates(recs)
    ensures NoDuplicates(Step(input, recs).1)
  {
    var after := Step(input, recs).1;
    assert |after| == |recs| && forall j :: 0 <= j < |recs| ==> after[j].info == recs[j].info;
  }

  /**
   * Marking a task that is not done and then unmarking it by the same command text restores
   * every task, and the reply shows the task with an empty status box again.
   */
  lemma MarkThenUnmark(input: string, recs: seq<TaskRecord>, k: int)
    requires ReadIndex(input) == Index(k) && 0 <= k < |recs| && !recs[k].done
    ensures Step(input, Mark.Step(input, recs).1) == (Done(UnmarkedMessage(recs[k])), recs)
    ensures Render(Mark.Step(input, recs).1[k])[4] == 'X' && Render(recs[k])[4] == ' '
  {
    var marked := recs[k := TaskRecord(recs[k].info, true)];
    assert Mark.Step(input, recs).1 == marked;
    assert marked[k := TaskRecord(recs[k].info, false)] == recs;
    RenderStatusOnly(recs[k].info);
  }

  /** The task list after `currTask.unmark()` on the object at index `k`, no other object changed. */
  lemma UnmarkedRecords(items: seq<Task>, k: nat, before: seq<TaskRecord>)
    requires k < |items| && |before| == |items|
    requires forall j :: 0 <= j < |items| && j != k ==> before[j] == items[j].Record()
    requires items[k].info == before[k].info && !items[k].isDone
    ensures RecordsOf(items) == before[k := TaskRecord(before[k].info, false)]
  {
  }

  /**
   * `execute(index, taskList)`: the reply and the new task states are those of `Step`; the list
   * keeps the same task objects in the same slots.
   */
  method Execute(index: string, taskList: TaskArrayList) returns (o: Outcome)
    requires taskList.Distinct()
    modifies taskList.items
    ensures taskList.items == old(taskList.items)
    ensures (o, taskList.Records()) == Step(index, old(taskList.Records()))
  {
    match ReadIndex(index)
    case MissingToken =>
      return Fault(MissingTokenFault);
    case NotANumber =>
      return Error(NotANumberMessage);
    case Index(k) =>
      if k < 0 || k >= |taskList.items| {
        return Error(OutOfRangeMessage);
      }
      var currTask := taskList.items[k];
      if currTask.Status() == " " {
        return Done(AlreadyUnmarkedMessage);
      }
      ghost var before := taskList.Records();
      currTask.Unmark();
      UnmarkedRecords(taskList.items, k, before);
      o := Done(UnmarkedMessage(currTask.Record()));
  }
}
