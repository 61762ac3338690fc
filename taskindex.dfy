/**
 * The task number that `mark`, `unmark` and `delete` read: the second space-separated token of
 * the raw input, parsed as a Java `int` and turned into a 0-based index.
 */
module TaskIndex {
  import opened Results
  import opened JavaText

  /** `input.split(" ")[1]` is missing when the input has a single token. */
  const MissingTokenFault := "ArrayIndexOutOfBoundsException"

  /** What `Integer.parseInt(input.split(" ")[1]) - 1` gives: an index, a NumberFormatException,
      or an ArrayIndexOutOfBoundsException. */
  datatype IndexRead = Index(position: int) | NotANumber | MissingToken

  function ReadIndex(input: string): IndexRead
  {
    var parts := Split(input, " ");
    if |parts| < 2 then MissingToken
    else
      match ParseInt(parts[1])
      case None => NotANumber
      case Some(v) => Index(v - 1)
  }

  /** A string of decimal digits has no space in it. */
  lemma DigitsLackSpace(s: string)
    requires AllDigits(s)
    ensures Lacks(s, ' ')
  {
    LacksSpec(s, ' ');
  }

  /**
   * A command word followed by one space and the decimal number `n` reads as the 0-based index
   * `n - 1`: the number the user types is 1-based.
   */
  lemma ReadIndexOf(word: string, n: nat)
    requires Lacks(word, ' ') && n <= 0x7fff_ffff
    ensures ReadIndex(word + " " + NatToString(n)) == Index(n - 1)
  {
    DigitsLackSpace(NatToString(n));
    SplitPair(word, " ", NatToString(n), 0);
    ParseIntOfNatToString(n);
  }

  /** An input with no space at all has no second token. */
  lemma ReadIndexOfWord(word: string)
    requires Lacks(word, ' ')
    ensures ReadIndex(word) == MissingToken
  {
    NoSeparator(word, " ", 0);
  }

  /** A second token that is not a number is reported as such, whatever the rest. */
  lemma ReadIndexNotANumber(word: string, token: string)
    requires Lacks(word, ' ') && Lacks(token, ' ') && |token| > 0 && ParseInt(token).None?
    ensures ReadIndex(word + " " + token) == NotANumber
  {
    SplitPair(word, " ", token, 0);
  }
}
