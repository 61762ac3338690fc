/** `ListCommand.execute`: the numbered listing of every task, in list order. */
module ListCommand {
  import opened JavaText
  import opened Tasks
  import opened TaskLists
  import opened Listing

  const EmptyMessage := "You have no tasks at the moment. Yay!."
  const Header := "Here is our to-do list:\n"

  /** What follows each number in the listing: a dot, a pin and a space. */
  const Mark := ". \U{1F4CC} "

  /** The reply of `execute` for a list whose tasks are in the states `recs`. */
  function ListText(recs: seq<TaskRecord>): string
  {
    if |recs| == 0 then EmptyMessage else Trim(Header + Lines(Rendered(recs), Mark))
  }

  /**
   * The task at index `k` is listed as number `k + 1` with its `toString`, right after the lines
   * of the tasks in front of it.
   */
  lemma EntryNumbered(recs: seq<TaskRecord>, k: nat)
    requires k < |recs|
    ensures StartsWith(Lines(Rendered(recs), Mark), Lines(Rendered(recs)[..k], Mark) + Line(k + 1, Mark, Render(recs[k])))
  {
    LineNumbered(Rendered(recs), Mark, k);
  }

  /**
   * A non-empty list is shown under its header with only the final line break trimmed, when the
   * last task's text does not end in a blank; the empty list has its own reply, which no
   * listing can be.
   */
  lemma ListTextShape(recs: seq<TaskRecord>)
    requires |recs| > 0
    requires var r := Render(recs[|recs| - 1]); !IsTrimmable(r[|r| - 1])
    ensures var e := Lines(Rendered(recs), Mark); |e| > 0 && ListText(recs) == Header + e[..|e| - 1]
    ensures ListText(recs) != EmptyMessage
  {
    RenderLayout(recs[|recs| - 1]);
    TrimListing(Header, Rendered(recs), Mark);
    assert ListText(recs)[0] == 'H' && EmptyMessage[0] == 'Y';
  }

  /** `execute(taskList)`: reads the list and changes nothing. */
  method Execute(taskList: TaskArrayList) returns (text: string)
    ensures text == ListText(taskList.Records())
  {
    if |taskList.items| == 0 {
      return EmptyMessage;
    }
    ghost var texts := Texts(taskList.items);
    var fullList := Header;
    var i := 0;
    while i < |taskList.items|
      invariant 0 <= i <= |taskList.items|
      invariant fullList == Header + Lines(texts[..i], Mark)
    {
      LinesSnoc(texts, Mark, i);
      AppendAssociative(Header, Lines(texts[..i], Mark), Line(i + 1, Mark, texts[i]));
      fullList := fullList + Line(i + 1, Mark, taskList.items[i].ToString());
      i := i + 1;
    }
    assert texts[..i] == texts;
    TextsOfRecords(taskList.items);
    return Trim(fullList);
  }
}
