/** The command words the planner understands, and how the first word of an input is classified. */
module CommandTypes {
  import opened JavaText

  /** The constants of `CommandType`, with the `FIND` constant that the dispatcher relies on. */
  datatype CommandType = LIST | MARK | UNMARK | TODO | DEADLINE | EVENT | DELETE | FIND | DAYPLAN | EXIT | UNKNOWN

  /** The word that selects each command; `agenda` selects DAYPLAN and `bye` selects EXIT. */
  function Word(c: CommandType): string
  {
    match c
    case LIST => "list"
    case MARK => "mark"
    case UNMARK => "unmark"
    case TODO => "todo"
    case DEADLINE => "deadline"
    case EVENT => "event"
    case DELETE => "delete"
    case FIND => "find"
    case DAYPLAN => "agenda"
    case EXIT => "bye"
    case UNKNOWN => ""
  }

  /** `command.toString().toLowerCase()`: the constant's own name in lower case. */
  function ConstantName(c: CommandType): string
  {
    match c
    case LIST => "list"
    case MARK => "mark"
    case UNMARK => "unmark"
    case TODO => "todo"
    case DEADLINE => "deadline"
    case EVENT => "event"
    case DELETE => "delete"
    case FIND => "find"
    case DAYPLAN => "dayplan"
    case EXIT => "exit"
    case UNKNOWN => "unknown"
  }

  /** The switch of `fromString` on an already lowered word. */
  function Classify(w: string): CommandType
  {
    if w == "list" then LIST
    else if w == "mark" then MARK
    else if w == "unmark" then UNMARK
    else if w == "todo" then TODO
    else if w == "deadline" then DEADLINE
    else if w == "event" then EVENT
    else if w == "delete" then DELETE
    else if w == "find" then FIND
    else if w == "agenda" then DAYPLAN
    else if w == "bye" then EXIT
    else UNKNOWN
  }

  /** `CommandType.fromString(input)`: the switch on `input.toLowerCase()`. */
  function FromString(input: string): CommandType
  {
    Classify(Lower(input))
  }

  /**
   * Classification picks out exactly the commands whose word the lowered input is, and every
   * other input is UNKNOWN.
   */
  lemma ClassifySpec(w: string)
    ensures Classify(w) != UNKNOWN ==> Word(Classify(w)) == w
    ensures forall c :: c != UNKNOWN && Word(c) == w ==> Classify(w) == c
  {
  }

  /** `fromString` ignores case: an input and its lower-case form are classified alike. */
  lemma FromStringIgnoresCase(input: string)
    ensures FromString(input) == FromString(Lower(input))
  {
    LowerIdempotent(input);
  }

  /** Every command word, in any mix of cases, selects its own command. */
  lemma FromStringWord(c: CommandType, input: string)
    requires c != UNKNOWN && Lower(input) == Word(c)
    ensures FromString(input) == c
  {
    ClassifySpec(Word(c));
  }

  /**
   * The switch of `fromString` as it is written, with no `find` case: the word `find` falls
   * through to UNKNOWN.
   */
  function FromStringAsWritten(input: string): CommandType
  {
    var w := Lower(input);
    if w == "list" then LIST
    else if w == "mark" then MARK
    else if w == "unmark" then UNMARK
    else if w == "todo" then TODO
    else if w == "deadline" then DEADLINE
    else if w == "event" then EVENT
    else if w == "delete" then DELETE
    else if w == "agenda" then DAYPLAN
    else if w == "bye" then EXIT
    else UNKNOWN
  }

  /** As written, `find` is not recognised. */
  lemma FindUnknownAsWritten()
    ensures FromStringAsWritten("find") == UNKNOWN
  {
    assert Lower("find") == "find";
  }

  /** The switch as written and the corrected one disagree on the word `find` and nowhere else. */
  lemma AsWrittenDiffersOnlyOnFind(input: string)
    ensures FromStringAsWritten(input) != FromString(input) <==> Lower(input) == "find"
    ensures FromStringAsWritten(input) != FIND
  {
  }

  /** With the FIND constant, `find` (in any case) selects the search. */
  lemma FindRecognised(input: string)
    requires Lower(input) == "find"
    ensures FromString(input) == FIND && FromStringAsWritten(input) == UNKNOWN
  {
  }
}
