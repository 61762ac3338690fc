/**
 * The shared `ArrayList<Task>` that every command edits in place, and the `TaskList` wrapper
 * that holds it by reference and answers duplicate queries.
 */
module TaskLists {
  import opened Tasks

  /** The states of the task objects of `ts`, in list order. */
  function RecordsOf(ts: seq<Task>): (rs: seq<TaskRecord>)
    reads ts
    ensures |rs| == |ts| && forall k :: 0 <= k < |ts| ==> rs[k] == ts[k].Record()
  {
    seq(|ts|, k reads ts requires 0 <= k < |ts| => ts[k].Record())
  }

  /** Appending a task object appends its state. */
  lemma RecordsSnoc(ts: seq<Task>, t: Task)
    ensures RecordsOf(ts + [t]) == RecordsOf(ts) + [t.Record()]
  {
  }

  /** Some task of `rs` `equals` a task with final part `i`. */
  predicate HasEqual(rs: seq<TaskRecord>, i: TaskInfo)
  {
    exists k :: 0 <= k < |rs| && SameTask(rs[k].info, i)
  }

  /** No two tasks of `rs` are `equals` to each other. */
  predicate NoDuplicates(rs: seq<TaskRecord>)
  {
    forall j, k :: 0 <= j < k < |rs| ==> !SameTask(rs[j].info, rs[k].info)
  }

  /** A `java.util.ArrayList<Task>`: a sequence of references to task objects. */
  class TaskArrayList {
    var items: seq<Task>

    /** `new ArrayList<>()`. */
    constructor ()
      ensures items == []
    {
      items := [];
    }

    /** No task object sits in two slots of the list (the program only ever adds fresh ones). */
    ghost predicate Distinct()
      reads this
    {
      forall j, k :: 0 <= j < k < |items| ==> items[j] != items[k]
    }

    /** The states of the listed tasks, in list order. */
    function Records(): seq<TaskRecord>
      reads this, items
    {
      RecordsOf(items)
    }

    /** `add(t)`: appends at the end. */
    method Add(t: Task)
      modifies this
      ensures items == old(items) + [t]
    {
      items := items + [t];
    }

    /** `remove(k)`: takes out the element at index `k`; the others keep their order. */
    method Remove(k: nat) returns (t: Task)
      requires k < |items|
      modifies this
      ensures t == old(items[k])
      ensures items == old(items[..k] + items[k + 1..])
    {
      t := items[k];
      items := items[..k] + items[k + 1..];
    }
  }

  /**
   * The loop of `isDuplicateTask` and of `AddTask.isDuplicate`: whether some listed task
   * `equals` `t`. It reads the list and changes nothing.
   */
  method ContainsEqual(items: seq<Task>, t: Task) returns (found: bool)
    ensures found <==> HasEqual(RecordsOf(items), t.info)
  {
    var k := 0;
    while k < |items|
      invariant 0 <= k <= |items|
      invariant forall j :: 0 <= j < k ==> !SameTask(items[j].info, t.info)
    {
      if items[k].Equals(t) {
        assert RecordsOf(items)[k].info == items[k].info;
        return true;
      }
      k := k + 1;
    }
    return false;
  }

  /** The planner's list of tasks, which wraps the shared `ArrayList` without copying it. */
  class TaskList {
    const tasks: TaskArrayList

    /** `new TaskList()`: a fresh, empty list. */
    constructor ()
      ensures fresh(tasks) && tasks.items == []
    {
      tasks := new TaskArrayList();
    }

    /** `new TaskList(tasks)`: keeps the given list itself, so later edits show through. */
    constructor Wrap(tasks: TaskArrayList)
      ensures this.tasks == tasks
    {
      this.tasks := tasks;
    }

    /** `getAllTasks()`: the very list this object holds, not a copy. */
    function GetAllTasks(): (l: TaskArrayList)
      ensures l == tasks
    {
      tasks
    }

    /** `isDuplicateTask(t)`: whether some stored task `equals` `t`; the list is not changed. */
    method IsDuplicateTask(t: Task) returns (found: bool)
      ensures found <==> HasEqual(tasks.Records(), t.info)
    {
      found := ContainsEqual(tasks.items, t);
    }
  }
}
