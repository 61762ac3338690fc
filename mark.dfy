/** `Mark.execute`: marks the task at the given 1-based number as done, in place. */
module Mark {
  import opened Results
  import opened Tasks
  import opened TaskLists
  import opened TaskIndex

  const OutOfRangeMessage := "You need to mark something actually in the list, silly"
  const NotANumberMessage := "You need to pick an index number to mark in the list. You can try again."
  const AlreadyMarkedMessage := "The task is already marked."

  /** The reply after marking: the task is shown in its new state. */
  function MarkedMessage(r: TaskRecord): string
  {
    "Good work! Let's keep going.\nI've marked this task as done:\n  " + Render(r)
  }

  /** The reply of `execute` on `input`, and the task states it leaves, given the states before. */
  function Step(input: string, recs: seq<TaskRecord>): (Outcome, seq<TaskRecord>)
  {
    Apply(ReadIndex(input), recs)
  }

  /** `Step` once the index token has been read. */
  function Apply(read: IndexRead, recs: seq<TaskRecord>): (Outcome, seq<TaskRecord>)
  {
    match read
    case MissingToken => (Fault(MissingTokenFault), recs)
    case NotANumber => (Error(NotANumberMessage), recs)
    case Index(k) =>
      if k < 0 || k >= |recs| then (Error(OutOfRangeMessage), recs)
      else if recs[k].done then (Done(AlreadyMarkedMessage), recs)
      else
        var marked := TaskRecord(recs[k].info, true);
        (Done(MarkedMessage(marked)), recs[k := marked])
  }

  /** Every reply but a successful one leaves all tasks as they were. */
  lemma StepRefusalKeeps(input: string, recs: seq<TaskRecord>)
    requires !Step(input, recs).0.Done?
    ensures Step(input, recs).1 == recs
    ensures Step(input, recs).0 in {Fault(MissingTokenFault), Error(NotANumberMessage), Error(OutOfRangeMessage)}
  {
  }

  /**
   * An index outside the list is refused: the number typed must be between 1 and the size of
   * the list.
   */
  lemma StepOutOfRange(input: string, recs: seq<TaskRecord>)
    requires ReadIndex(input).Index?
    ensures Step(input, recs).0 == Error(OutOfRangeMessage)
            <==> !(0 <= ReadIndex(input).position < |recs|)
  {
  }

  /**
   * On an index inside the list, only that task may change: it is done afterwards, with the
   * same kind, name and dates, and the list keeps its length. A task that was already done is
   * reported and left alone.
   */
  lemma StepMarksOnlyIndex(input: string, recs: seq<TaskRecord>, k: int)
    requires ReadIndex(input) == Index(k) && 0 <= k < |recs|
    ensures var (o, after) := Step(input, recs);
            && |after| == |recs|
            && after[k] == TaskRecord(recs[k].info, true)
            && (forall j :: 0 <= j < |recs| && j != k ==> after[j] == recs[j])
            && (o == Done(AlreadyMarkedMessage) <==> recs[k].done)
            && (!recs[k].done ==> o == Done(MarkedMessage(after[k])))
  {
  }

  /**
   * Marking twice is marking once: the second call finds the task done, says so, and changes
   * nothing more.
   */
  lemma StepIdempotent(input: string, recs: seq<TaskRecord>)
    ensures Step(input, Step(input, recs).1).1 == Step(input, recs).1
    ensures Step(input, recs).0.Done? ==> Step(input, Step(input, recs).1).0 == Done(AlreadyMarkedMessage)
  {
  }

  /** Marking never makes two tasks equal: names and kinds are untouched. */
  lemma StepKeepsNoDuplicates(input: string, recs: seq<TaskRecord>)
    requires NoDuplicates(recs)
    ensures NoDuplicates(Step(input, recs).1)
  {
    var after := Step(input, recs).1;
    assert |after| == |recs| && forall j :: 0 <= j < |recs| ==> after[j].info == recs[j].info;
  }

  /** The success reply shows the task with an `X` in its status box. */
  lemma MarkedMessageShowsX(i: Info)
    ensures var m := MarkedMessage(TaskRecord(i, true)); |m| >= 69 && m[..69] == "Good work! Let's keep going.\nI've marked this task as done:\n  " + "[" + Kind(i) + "][X] "
  {
    var r := TaskRecord(i, true);
    RenderLayout(r);
    var head := "Good work! Let's keep going.\nI've marked this task as done:\n  ";
    assert |head| == 62;
    StartOfJoin(head, Render(r), 7);
  }

  /** The first `|head| + n` characters of `head + rest` are `head` and the first `n` of `rest`. */
  lemma StartOfJoin(head: string, rest: string, n: nat)
    requires n <= |rest|
    ensures (head + rest)[..|head| + n] == head + rest[..n]
  {
  }

  /** The task list after `currTask.mark()` on the object at index `k`, no other object changed. */
  lemma MarkedRecords(items: seq<Task>, k: nat, before: seq<TaskRecord>)
    requires k < |items| && |before| == |items|
    requires forall j :: 0 <= j < |items| && j != k ==> before[j] == items[j].Record()
    requires items[k].info == before[k].info && items[k].isDone
    ensures RecordsOf(items) == before[k := TaskRecord(before[k].info, true)]
  {
  }

  /**
   * `execute(index, taskList)`: the reply and the new task states are those of `Step`; the list
   * keeps the same task objects in the same slots.
   */
  method Execute(index: string, taskList: TaskArrayList) returns (o: Outcome)
    requires taskList.Distinct()
    modifies taskList.items
    ensures taskList.items == old(taskList.items)
    ensures (o, taskList.Records()) == Step(index, old(taskList.Records()))
  {
    match ReadIndex(index)
    case MissingToken =>
      return Fault(MissingTokenFault);
    case NotANumber =>
      return Error(NotANumberMessage);
    case Index(k) =>
      if k < 0 || k >= |taskList.items| {
        return Error(OutOfRangeMessage);
      }
      var currTask := taskList.items[k];
      if currTask.Status() == "X" {
        return Done(AlreadyMarkedMessage);
      }
      ghost var before := taskList.Records();
      currTask.Mark();
      MarkedRecords(taskList.items, k, before);
      o := Done(MarkedMessage(currTask.Record()));
  }
}
