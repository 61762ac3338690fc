/**
 * `Find`: the tasks whose names contain, ignoring case, at least one of the keywords typed after
 * `find`. The matches are collected in a `HashSet` and listed with consecutive numbers in the
 * order the set hands them out; the list is only read.
 */
module Find {
  import opened Results
  import opened JavaText
  import opened Tasks
  import opened TaskLists
  import opened Listing

  const MissingKeywordsMessage := "You forgot to tell me what keyword(s) to look for. Try again!"

  /** What follows each number in the listing of matches. */
  const Mark := ". "

  /** The words that are not empty, in their order. */
  function NonEmpty(words: seq<string>): (r: seq<string>)
    ensures |r| <= |words|
    ensures forall w :: w in r <==> w in words && |w| > 0
  {
    if |words| == 0 then []
    else
      var w := words[|words| - 1];
      NonEmpty(words[..|words| - 1]) + (if |w| > 0 then [w] else [])
  }

  /** Filtering one more word keeps it exactly when it is not empty. */
  lemma NonEmptySnoc(words: seq<string>, i: nat)
    requires i < |words|
    ensures NonEmpty(words[..i + 1]) == NonEmpty(words[..i]) + (if |words[i]| > 0 then [words[i]] else [])
  {
    assert words[..i + 1][..i] == words[..i];
  }

  /**
   * The keywords of `execute(userInput, …)`: none when nothing but blanks follows the command
   * word, otherwise the non-empty pieces of the trimmed argument split at single spaces.
   */
  function Keywords(userInput: string): Option<seq<string>>
  {
    var inputParts := SplitOnce(Trim(userInput), " ");
    if |inputParts| < 2 || IsBlank(inputParts[1]) then None
    else Some(NonEmpty(Split(Trim(inputParts[1]), " ")))
  }

  /** The lowercased `name` contains some lowercased keyword. */
  predicate Matches(name: string, keywords: seq<string>)
  {
    exists k :: 0 <= k < |keywords| && Contains(Lower(name), Lower(keywords[k]))
  }

  /** The task objects of `items` that match. */
  ghost function Matching(items: seq<Task>, keywords: seq<string>): set<Task>
  {
    set t | t in items && Matches(t.info.name, keywords)
  }

  // Each lead is written in two pieces: the verifier reads the first character of a short
  // literal more readily than that of a long one.
  const NoMatchLead := "I couldn't find any tasks" + " related to the keywords: \""
  const FoundLead := "Here are the tasks I found" + " related to the keywords: "

  /** The reply when no task matches: every keyword, quoted. */
  function NoMatchText(keywords: seq<string>): string
  {
    NoMatchLead + Join(keywords, "\", \"")
    + "\".\nTry different ones!"
  }

  /** The first line of the reply listing the matches. */
  function FoundHeader(keywords: seq<string>): string
  {
    FoundLead + Join(keywords, ", ") + ":\n"
  }

  /** The reply of `processKeywords` when the matching tasks, in the order listed, read `texts`. */
  function FoundText(keywords: seq<string>, texts: seq<string>): string
  {
    if |texts| == 0 then NoMatchText(keywords) else Trim(FoundHeader(keywords) + Lines(texts, Mark))
  }

  /** The task objects that `order` lists. */
  ghost function Listed(order: seq<Task>): set<Task>
  {
    set t | t in order
  }

  /**
   * `order` lists each task of `items` that matches exactly once and nothing else, and `text` is
   * the reply that lists them in that order.
   */
  ghost predicate Answers(items: seq<Task>, keywords: seq<string>, order: seq<Task>, text: string)
    reads order
  {
    && Listed(order) == Matching(items, keywords)
    && (forall a, b :: 0 <= a < b < |order| ==> order[a] != order[b])
    && text == FoundText(keywords, Texts(order))
  }

  /** Only the task names are compared, and their case does not matter. */
  lemma MatchesIgnoresCase(name: string, keywords: seq<string>)
    ensures Matches(Lower(name), keywords) <==> Matches(name, keywords)
  {
    LowerIdempotent(name);
  }

  /** Every keyword is a non-empty piece without a space. */
  lemma KeywordsAreWords(userInput: string)
    requires Keywords(userInput).Some?
    ensures forall w :: w in Keywords(userInput).value ==> |w| > 0 && !Contains(w, " ")
  {
    var t := Trim(SplitOnce(Trim(userInput), " ")[1]);
    var raw := Split(t, " ");
    if IndexOf(t, " ") != -1 {
      SplitAllJoin(t, " ");
      var all := SplitAll(t, " ");
      assert forall w :: w in raw ==> w in all by {
        forall w | w in raw ensures w in all {
          var k :| 0 <= k < |raw| && raw[k] == w;
          assert all[k] == w;
        }
      }
    }
  }

  /** Some text that is not blank follows the command word, so there is at least one keyword. */
  lemma KeywordsPresent(userInput: string)
    requires Keywords(userInput).Some?
    ensures |Keywords(userInput).value| > 0
  {
    var arg := SplitOnce(Trim(userInput), " ")[1];
    TrimShape(arg);
    PiecesPresent(Trim(arg));
  }

  /** A text that does not start with a space has a non-empty first piece. */
  lemma PiecesPresent(t: string)
    requires |t| > 0 && t[0] != ' '
    ensures |NonEmpty(Split(t, " "))| > 0
  {
    var raw := Split(t, " ");
    if IndexOf(t, " ") == -1 {
      assert t in raw;
    } else {
      var i := IndexOf(t, " ");
      assert t[i..i + 1] == " ";
      var all := SplitAll(t, " ");
      assert all[0] == t[..i];
      DropTrailingKeeps(all, 0);
      assert raw[0] in raw;
    }
  }

  lemma FirstOfAppend(a: string, b: string)
    requires |a| > 0
    ensures |a + b| > 0 && (a + b)[0] == a[0]
  {
  }

  /** The header starts with the letter `H`. */
  lemma FoundHeaderFirst(keywords: seq<string>)
    ensures |FoundHeader(keywords)| > 0 && FoundHeader(keywords)[0] == 'H'
  {
    var h := FoundLead;
    assert h[0] == 'H';
    FirstOfAppend(h, Join(keywords, ", "));
    FirstOfAppend(h + Join(keywords, ", "), ":\n");
  }

  /** The no-match reply starts with the letter `I`. */
  lemma NoMatchFirst(keywords: seq<string>)
    ensures |NoMatchText(keywords)| > 0 && NoMatchText(keywords)[0] == 'I'
  {
    var h := NoMatchLead;
    assert h[0] == 'I';
    FirstOfAppend(h, Join(keywords, "\", \""));
    FirstOfAppend(h + Join(keywords, "\", \""), "\".\nTry different ones!");
  }

  /** The no-match reply is given exactly when nothing is listed. */
  lemma NoMatchExactlyWhenEmpty(keywords: seq<string>, texts: seq<string>)
    ensures FoundText(keywords, texts) == NoMatchText(keywords) <==> |texts| == 0
  {
    if |texts| > 0 {
      var s := FoundHeader(keywords) + Lines(texts, Mark);
      FoundHeaderFirst(keywords);
      FirstOfAppend(FoundHeader(keywords), Lines(texts, Mark));
      TrimKeepsFirst(s);
      NoMatchFirst(keywords);
    }
  }

  /**
   * With at least one match, the reply is the header followed by the numbered lines of the
   * matches, without the final line break, when the last task's text does not end in a blank.
   */
  lemma FoundTextShape(keywords: seq<string>, recs: seq<TaskRecord>)
    requires |recs| > 0
    requires var r := Render(recs[|recs| - 1]); !IsTrimmable(r[|r| - 1])
    ensures var e := Lines(Rendered(recs), Mark);
            |e| > 0 && FoundText(keywords, Rendered(recs)) == FoundHeader(keywords) + e[..|e| - 1]
  {
    RenderLayout(recs[|recs| - 1]);
    FoundHeaderFirst(keywords);
    TrimListing(FoundHeader(keywords), Rendered(recs), Mark);
  }

  /**
   * What a reply of `processKeywords` says: a task is listed exactly when it matches, and the
   * no-match reply comes exactly when no task matches.
   */
  lemma AnswersMeaning(items: seq<Task>, keywords: seq<string>, order: seq<Task>, text: string)
    requires Answers(items, keywords, order, text)
    ensures forall k :: 0 <= k < |items| ==> (items[k] in order <==> Matches(items[k].info.name, keywords))
    ensures forall a :: 0 <= a < |order| ==> order[a] in items && Matches(order[a].info.name, keywords)
    ensures text == NoMatchText(keywords) <==> forall k :: 0 <= k < |items| ==> !Matches(items[k].info.name, keywords)
  {
    forall k | 0 <= k < |items|
      ensures items[k] in order <==> Matches(items[k].info.name, keywords)
    {
      assert items[k] in order <==> items[k] in Listed(order);
    }
    forall a | 0 <= a < |order|
      ensures order[a] in items && Matches(order[a].info.name, keywords)
    {
      assert order[a] in Listed(order);
    }
    NoMatchExactlyWhenEmpty(keywords, Texts(order));
    if |order| > 0 {
      assert order[0] in Listed(order);
    }
  }

  /** The matches of a longer prefix: the task at index `i` joins them exactly when it matches. */
  lemma MatchingSnoc(items: seq<Task>, i: nat, keywords: seq<string>)
    requires i < |items|
    ensures Matching(items[..i + 1], keywords)
            == Matching(items[..i], keywords) + (if Matches(items[i].info.name, keywords) then {items[i]} else {})
  {
    assert items[..i + 1] == items[..i] + [items[i]];
  }

  /**
   * The first loop of `processKeywords`: every task whose name contains some keyword goes into
   * the set, the search over the keywords stopping at the first that matches.
   */
  method CollectMatches(tasks: seq<Task>, keywords: seq<string>) returns (matchingTasks: set<Task>)
    ensures matchingTasks == Matching(tasks, keywords)
  {
    matchingTasks := {};
    var i := 0;
    while i < |tasks|
      invariant 0 <= i <= |tasks|
      invariant matchingTasks == Matching(tasks[..i], keywords)
    {
      var task := tasks[i];
      var taskNameLower := Lower(task.info.name);
      MatchingSnoc(tasks, i, keywords);
      var j := 0;
      while j < |keywords|
        invariant 0 <= j <= |keywords|
        invariant matchingTasks == Matching(tasks[..i], keywords)
        invariant forall k :: 0 <= k < j ==> !Contains(taskNameLower, Lower(keywords[k]))
      {
        if Contains(taskNameLower, Lower(keywords[j])) {
          matchingTasks := matchingTasks + {task};
          break;
        }
        j := j + 1;
      }
      i := i + 1;
    }
    assert tasks[..i] == tasks;
  }

  /**
   * The second loop of `processKeywords`: the tasks of a non-empty set, numbered from 1 in the
   * order the set hands them out, under the header; `order` is that order.
   */
  method ListMatches(matchingTasks: set<Task>, keywords: seq<string>) returns (text: string, ghost order: seq<Task>)
    requires matchingTasks != {}
    ensures Listed(order) == matchingTasks
    ensures forall a, b :: 0 <= a < b < |order| ==> order[a] != order[b]
    ensures |order| > 0 && text == Trim(FoundHeader(keywords) + Lines(Texts(order), Mark))
  {
    var result := FoundHeader(keywords);
    var count := 1;
    var remaining := matchingTasks;
    order := [];
    while remaining != {}
      invariant Listed(order) + remaining == matchingTasks && Listed(order) !! remaining
      invariant forall a, b :: 0 <= a < b < |order| ==> order[a] != order[b]
      invariant count == |order| + 1
      invariant result == FoundHeader(keywords) + Lines(Texts(order), Mark)
      decreases |remaining|
    {
      var task :| task in remaining;
      ListedStep(order, remaining, matchingTasks, task);
      TextsSnoc(order, task);
      LinesAppend(Texts(order), Mark, task.ToString());
      AppendAssociative(FoundHeader(keywords), Lines(Texts(order), Mark), Line(count, Mark, task.ToString()));
      result := result + Line(count, Mark, task.ToString());
      count := count + 1;
      order := order + [task];
      remaining := remaining - {task};
    }
    assert |order| > 0 by {
      var t :| t in matchingTasks;
      assert t in Listed(order);
    }
    text := Trim(result);
  }

  /** One step of the traversal: a task taken from the rest joins the listed ones, once. */
  lemma ListedStep(order: seq<Task>, remaining: set<Task>, matchingTasks: set<Task>, task: Task)
    requires Listed(order) + remaining == matchingTasks && Listed(order) !! remaining
    requires forall a, b :: 0 <= a < b < |order| ==> order[a] != order[b]
    requires task in remaining
    ensures var order', remaining' := order + [task], remaining - {task};
            && Listed(order') + remaining' == matchingTasks && Listed(order') !! remaining'
            && (forall a, b :: 0 <= a < b < |order'| ==> order'[a] != order'[b])
            && |remaining'| < |remaining|
  {
    var order' := order + [task];
    assert Listed(order') == Listed(order) + {task};
    forall a, b | 0 <= a < b < |order'| ensures order'[a] != order'[b] {
      assert order'[a] == order[a] && order[a] in Listed(order);
    }
  }

  /**
   * `processKeywords(tasks, keywords)`: the reply lists every matching task once, in the order
   * in which the set of matches is traversed, or says that nothing matched; the list is only
   * read.
   */
  method ProcessKeywords(tasks: seq<Task>, keywords: seq<string>) returns (text: string, ghost order: seq<Task>)
    ensures Answers(tasks, keywords, order, text)
  {
    var matchingTasks := CollectMatches(tasks, keywords);
    if matchingTasks == {} {
      order := [];
      assert Listed(order) == {};
      return NoMatchText(keywords), order;
    }
    text, order := ListMatches(matchingTasks, keywords);
  }

  /** The loop of `execute` that keeps the raw keywords that are not empty. */
  method KeepNonEmpty(rawKeywords: seq<string>) returns (keywordList: seq<string>)
    ensures keywordList == NonEmpty(rawKeywords)
  {
    keywordList := [];
    for i := 0 to |rawKeywords|
      invariant keywordList == NonEmpty(rawKeywords[..i])
    {
      NonEmptySnoc(rawKeywords, i);
      if |rawKeywords[i]| > 0 {
        keywordList := keywordList + [rawKeywords[i]];
      }
    }
    assert rawKeywords[..|rawKeywords|] == rawKeywords;
  }

  /**
   * `execute(userInput, tasks)`: without keywords, a reminder (returned, not thrown); otherwise
   * the reply of `processKeywords` on the keywords.
   */
  method Execute(userInput: string, tasks: TaskArrayList) returns (text: string, ghost order: seq<Task>)
    ensures Keywords(userInput).None? ==> text == MissingKeywordsMessage
    ensures Keywords(userInput).Some? ==> Answers(tasks.items, Keywords(userInput).value, order, text)
  {
    var inputParts := SplitOnce(Trim(userInput), " ");
    if |inputParts| < 2 || IsBlank(inputParts[1]) {
      return MissingKeywordsMessage, [];
    }
    var rawKeywords := Split(Trim(inputParts[1]), " ");
    var keywordList := KeepNonEmpty(rawKeywords);
    text, order := ProcessKeywords(tasks.items, keywordList);
  }
}
