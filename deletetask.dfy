/** `DeleteTask.execute`: removes the task at the given 1-based number from the shared list. */
module DeleteTask {
  import opened Results
  import opened JavaText
  import opened Tasks
  import opened TaskLists
  import opened TaskIndex

  const OutOfRangeMessage := "You need to pick a task to delete that is actually in the list, silly."
  const NotANumberMessage := "You need to pick a single index number to delete from the list. You can try again."

  /** How many tasks are left, in the words of the reply. */
  function RemainingText(n: nat): string
  {
    if n == 1 then "\nNow you only have 1 task to worry about."
    else "\nNow you have " + NatToString(n) + " tasks to worry about."
  }

  /** The reply after removing `r` with `n` tasks left. */
  function DeletedMessage(r: TaskRecord, n: nat): string
  {
    "Phew! We got rid of " + Render(r) + RemainingText(n)
  }

  /** The reply of `execute` on `input`, and the remaining task states, given the states before. */
  function Step(input: string, recs: seq<TaskRecord>): (Outcome, seq<TaskRecord>)
  {
    Apply(ReadIndex(input), recs)
  }

  /** `Step` once the index token has been read. */
  function Apply(read: IndexRead, recs: seq<TaskRecord>): (Outcome, seq<TaskRecord>)
  {
    match read
    case MissingToken => (Fault(MissingTokenFault), recs)
    case NotANumber => (Error(NotANumberMessage), recs)
    case Index(k) =>
      if k < 0 || k >= |recs| then (Error(OutOfRangeMessage), recs)
      else (Done(DeletedMessage(recs[k], |recs| - 1)), recs[..k] + recs[k + 1..])
  }

  /**
   * A refusal leaves the list as it was; in particular nothing can be deleted from an empty
   * list.
   */
  lemma StepRefusalKeeps(input: string, recs: seq<TaskRecord>)
    ensures !Step(input, recs).0.Done? ==> Step(input, recs).1 == recs
    ensures recs == [] ==> !Step(input, recs).0.Done?
  {
  }

  /**
   * A deletion removes exactly the task at the index: the list is one shorter, the tasks before
   * it stay where they are and the tasks after it move up by one; the reply names the removed
   * task and the number left.
   */
  lemma StepRemovesIndex(input: string, recs: seq<TaskRecord>, k: int)
    requires ReadIndex(input) == Index(k) && 0 <= k < |recs|
    ensures |Step(input, recs).1| == |recs| - 1
    ensures forall j :: 0 <= j < k ==> Step(input, recs).1[j] == recs[j]
    ensures forall j :: k <= j < |recs| - 1 ==> Step(input, recs).1[j] == recs[j + 1]
    ensures Step(input, recs).0 == Done(DeletedMessage(recs[k], |recs| - 1))
  {
    ApplyInRange(k, recs);
    assert Step(input, recs).1 == recs[..k] + recs[k + 1..];
    RemovedShifts(recs, k);
  }

  /** Taking slot `k` out keeps the slots before it and moves the ones after it up by one. */
  lemma RemovedShifts<T>(s: seq<T>, k: nat)
    requires k < |s|
    ensures |s[..k] + s[k + 1..]| == |s| - 1
    ensures forall j :: 0 <= j < k ==> (s[..k] + s[k + 1..])[j] == s[j]
    ensures forall j :: k < j < |s| ==> (s[..k] + s[k + 1..])[j - 1] == s[j]
  {
  }

  /** An index inside the list deletes its task. */
  lemma ApplyInRange(k: int, recs: seq<TaskRecord>)
    requires 0 <= k < |recs|
    ensures Apply(Index(k), recs) == (Done(DeletedMessage(recs[k], |recs| - 1)), recs[..k] + recs[k + 1..])
  {
  }

  /** The count of remaining tasks is singular for one task and plural for any other number, zero among them. */
  lemma RemainingTextCases(n: nat)
    ensures n == 1 ==> RemainingText(n) == "\nNow you only have 1 task to worry about."
    ensures n != 1 ==> RemainingText(n) == "\nNow you have " + NatToString(n) + " tasks to worry about."
    ensures RemainingText(0) == "\nNow you have 0 tasks to worry about."
  {
    assert NatToString(0) == "0";
  }

  /** Deleting never makes two tasks equal. */
  lemma StepKeepsNoDuplicates(input: string, recs: seq<TaskRecord>)
    requires NoDuplicates(recs)
    ensures NoDuplicates(Step(input, recs).1)
  {
    var read := ReadIndex(input);
    if read.Index? && 0 <= read.position < |recs| {
      RemovedNoDuplicates(recs, read.position);
    }
  }

  lemma RemovedNoDuplicates(recs: seq<TaskRecord>, k: nat)
    requires k < |recs| && NoDuplicates(recs)
    ensures NoDuplicates(recs[..k] + recs[k + 1..])
  {
    var after := recs[..k] + recs[k + 1..];
    forall i, j | 0 <= i < j < |after| ensures !SameTask(after[i].info, after[j].info) {
      var i', j' := if i < k then i else i + 1, if j < k then j else j + 1;
      assert after[i] == recs[i'] && after[j] == recs[j'];
    }
  }

  /** The states of the tasks left after taking slot `k` out of the list. */
  lemma RecordsOfRemoved(items: seq<Task>, k: nat)
    requires k < |items|
    ensures RecordsOf(items[..k] + items[k + 1..]) == RecordsOf(items)[..k] + RecordsOf(items)[k + 1..]
  {
  }

  /** Taking a slot out keeps the remaining task objects distinct. */
  lemma RemovedDistinct(items: seq<Task>, k: nat)
    requires k < |items|
    requires forall i, j :: 0 <= i < j < |items| ==> items[i] != items[j]
    ensures var rest := items[..k] + items[k + 1..]; forall i, j :: 0 <= i < j < |rest| ==> rest[i] != rest[j]
  {
    var rest := items[..k] + items[k + 1..];
    forall i, j | 0 <= i < j < |rest| ensures rest[i] != rest[j] {
      var i', j' := if i < k then i else i + 1, if j < k then j else j + 1;
      assert rest[i] == items[i'] && rest[j] == items[j'];
    }
  }

  /** `taskList.get` and `taskList.remove` at an index inside the list, and the reply. */
  method RemoveAt(k: int, taskList: TaskArrayList) returns (o: Outcome)
    requires taskList.Distinct() && 0 <= k < |taskList.items|
    modifies taskList
    ensures taskList.Distinct()
    ensures (o, taskList.Records()) == Apply(Index(k), old(taskList.Records()))
    ensures o.Done? && taskList.items == old(taskList.items[..k] + taskList.items[k + 1..])
  {
    ghost var before := taskList.Records();
    ApplyInRange(k, before);
    RecordsOfRemoved(taskList.items, k);
    RemovedDistinct(taskList.items, k);
    var currTask := taskList.Remove(k);
    assert currTask.Record() == before[k];
    assert taskList.Records() == before[..k] + before[k + 1..];
    o := Done(DeletedMessage(currTask.Record(), |taskList.items|));
  }

  /**
   * `execute(index, taskList)`: the reply and the remaining task states are those of `Step`,
   * and on success the task object at the index is taken out of the list.
   */
  method Execute(index: string, taskList: TaskArrayList) returns (o: Outcome)
    requires taskList.Distinct()
    modifies taskList
    ensures taskList.Distinct()
    ensures (o, taskList.Records()) == Step(index, old(taskList.Records()))
    ensures o.Done? ==> ReadIndex(index).Index? && 0 <= ReadIndex(index).position < |old(taskList.items)|
    ensures o.Done? ==> var k := ReadIndex(index).position;
                        taskList.items == old(taskList.items[..k] + taskList.items[k + 1..])
    ensures !o.Done? ==> taskList.items == old(taskList.items)
  {
    match ReadIndex(index)
    case MissingToken =>
      return Fault(MissingTokenFault);
    case NotANumber =>
      return Error(NotANumberMessage);
    case Index(k) =>
      if k < 0 || k >= |taskList.items| {
        return Error(OutOfRangeMessage);
      }
      o := RemoveAt(k, taskList);
  }
}
