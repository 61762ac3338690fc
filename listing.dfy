/**
 * Numbered listings, as `ListCommand` and `Find` build them: one line per task text, numbered
 * from 1, each number followed by a marker and the text and ended by a line break.
 */
module Listing {
  import opened JavaText
  import opened Tasks
  import opened TaskLists

  /** The `toString` of each task state, in order. */
  function Rendered(recs: seq<TaskRecord>): (texts: seq<string>)
    ensures |texts| == |recs| && forall k :: 0 <= k < |recs| ==> texts[k] == Render(recs[k])
  {
    seq(|recs|, k requires 0 <= k < |recs| => Render(recs[k]))
  }

  /** The `toString` of each task object, in order. */
  function Texts(items: seq<Task>): (texts: seq<string>)
    reads items
    ensures |texts| == |items|
  {
    seq(|items|, k reads items requires 0 <= k < |items| => items[k].ToString())
  }

  /** Appending an object appends its text. */
  lemma TextsSnoc(items: seq<Task>, t: Task)
    ensures Texts(items + [t]) == Texts(items) + [t.ToString()]
  {
    assert forall k :: 0 <= k < |items| ==> (items + [t])[k] == items[k];
  }

  /** The texts of the objects are the texts of their states. */
  lemma TextsOfRecords(items: seq<Task>)
    ensures Texts(items) == Rendered(RecordsOf(items))
  {
  }

  /** The line numbered `n`: the number, the marker, the text and a line break. */
  function Line(n: nat, mark: string, t: string): string
  {
    NatToString(n) + mark + t + "\n"
  }

  /** The lines for `texts`, numbered from 1 in order. */
  function Lines(texts: seq<string>, mark: string): string
  {
    if |texts| == 0 then "" else Lines(texts[..|texts| - 1], mark) + Line(|texts|, mark, texts[|texts| - 1])
  }

  /** Appending a text appends its line, numbered one past the lines before it. */
  lemma LinesAppend(texts: seq<string>, mark: string, t: string)
    ensures Lines(texts + [t], mark) == Lines(texts, mark) + Line(|texts| + 1, mark, t)
  {
    assert (texts + [t])[..|texts|] == texts;
  }

  /** The lines of a prefix of the texts are a prefix of the lines of all of them. */
  lemma {:induction false} LinesPrefix(texts: seq<string>, mark: string, k: nat)
    requires k <= |texts|
    ensures StartsWith(Lines(texts, mark), Lines(texts[..k], mark))
    decreases |texts|
  {
    if k < |texts| {
      var init := texts[..|texts| - 1];
      LinesPrefix(init, mark, k);
      assert init[..k] == texts[..k];
    } else {
      assert texts[..k] == texts;
    }
  }

  /** Appending a text appends its line, numbered one past the lines before it. */
  lemma LinesSnoc(texts: seq<string>, mark: string, i: nat)
    requires i < |texts|
    ensures Lines(texts[..i + 1], mark) == Lines(texts[..i], mark) + Line(i + 1, mark, texts[i])
  {
    assert texts[..i + 1][..i] == texts[..i];
  }

  /** The text at index `k` is on the line numbered `k + 1`, right after the lines in front of it. */
  lemma LineNumbered(texts: seq<string>, mark: string, k: nat)
    requires k < |texts|
    ensures StartsWith(Lines(texts, mark), Lines(texts[..k], mark) + Line(k + 1, mark, texts[k]))
  {
    LinesPrefix(texts, mark, k + 1);
    LinesSnoc(texts, mark, k);
  }

  /** The lines end with the last character of the last text and a line break. */
  lemma LinesEnd(texts: seq<string>, mark: string)
    requires |texts| > 0 && |texts[|texts| - 1]| > 0
    ensures var e, t := Lines(texts, mark), texts[|texts| - 1];
            && |e| >= 2 && e[|e| - 1] == '\n' && e[|e| - 2] == t[|t| - 1]
  {
    var t := texts[|texts| - 1];
    var head := Lines(texts[..|texts| - 1], mark) + NatToString(|texts|) + mark;
    assert Lines(texts, mark) == (head + t) + "\n";
  }

  /**
   * A header followed by a non-empty listing whose last text does not end in a blank: the trim
   * only takes off the final line break.
   */
  lemma TrimListing(header: string, texts: seq<string>, mark: string)
    requires |header| > 0 && !IsTrimmable(header[0])
    requires |texts| > 0 && var t := texts[|texts| - 1]; |t| > 0 && !IsTrimmable(t[|t| - 1])
    ensures var e := Lines(texts, mark); |e| > 0 && Trim(header + e) == header + e[..|e| - 1]
  {
    var e := Lines(texts, mark);
    LinesEnd(texts, mark);
    var body := header + e[..|e| - 1];
    assert e == e[..|e| - 1] + "\n";
    AppendAssociative(header, e[..|e| - 1], "\n");
    TrimBlankAfter(body, '\n');
  }
}
