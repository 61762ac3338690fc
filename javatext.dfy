/**
 * The operations of java.lang.String that the task tracker uses: trim, indexOf/contains,
 * startsWith, substring, split, toLowerCase, String.join, Integer.toString and
 * Integer.parseInt. Strings are sequences of characters; case mapping is ASCII only.
 */
module JavaText {
  import opened Results

  // ---------------------------------------------------------------- trim

  /** The characters `String.trim` removes: every code point up to and including U+0020. */
  predicate IsTrimmable(c: char) { c <= ' ' }

  /** `s` without its leading trimmable characters: a suffix of `s`. */
  function TrimStart(s: string): (r: string)
    ensures |r| <= |s|
    decreases |s|
  {
    if s != [] && IsTrimmable(s[0]) then TrimStart(s[1..]) else s
  }

  /** What `TrimStart` keeps is a suffix of `s` that does not start with a trimmable character. */
  lemma {:induction false} TrimStartShape(s: string)
    ensures TrimStart(s) == s[|s| - |TrimStart(s)|..]
    ensures TrimStart(s) == [] || !IsTrimmable(TrimStart(s)[0])
    decreases |s|
  {
    if s != [] && IsTrimmable(s[0]) {
      TrimStartShape(s[1..]);
    }
  }

  /** Everything `TrimStart` drops is trimmable. */
  lemma {:induction false} TrimStartDrops(s: string)
    ensures forall i :: 0 <= i < |s| - |TrimStart(s)| ==> IsTrimmable(s[i])
    decreases |s|
  {
    if s != [] && IsTrimmable(s[0]) {
      TrimStartDrops(s[1..]);
      forall i | 1 <= i < |s| - |TrimStart(s)| ensures IsTrimmable(s[i]) {
        assert s[i] == s[1..][i - 1];
      }
    }
  }

  /** `s` without its trailing trimmable characters: a prefix of `s`. */
  function TrimEnd(s: string): (r: string)
    ensures |r| <= |s|
    decreases |s|
  {
    if s != [] && IsTrimmable(s[|s| - 1]) then TrimEnd(s[..|s| - 1]) else s
  }

  /** What `TrimEnd` keeps is a prefix of `s` that does not end with a trimmable character. */
  lemma {:induction false} TrimEndShape(s: string)
    ensures TrimEnd(s) == s[..|TrimEnd(s)|]
    ensures TrimEnd(s) == [] || !IsTrimmable(TrimEnd(s)[|TrimEnd(s)| - 1])
    decreases |s|
  {
    if s != [] && IsTrimmable(s[|s| - 1]) {
      TrimEndShape(s[..|s| - 1]);
    }
  }

  /** Everything `TrimEnd` drops is trimmable. */
  lemma {:induction false} TrimEndDrops(s: string)
    ensures forall i :: |TrimEnd(s)| <= i < |s| ==> IsTrimmable(s[i])
    decreases |s|
  {
    if s != [] && IsTrimmable(s[|s| - 1]) {
      TrimEndDrops(s[..|s| - 1]);
      forall i | |TrimEnd(s)| <= i < |s| - 1 ensures IsTrimmable(s[i]) {
        assert s[i] == s[..|s| - 1][i];
      }
    }
  }

  /** `s.trim()`: `s` without its leading and trailing trimmable characters. */
  function Trim(s: string): string
  {
    TrimEnd(TrimStart(s))
  }

  /** A string that starts with a character that is not trimmable keeps that character first. */
  lemma TrimKeepsFirst(s: string)
    requires |s| > 0 && !IsTrimmable(s[0])
    ensures |Trim(s)| > 0 && Trim(s)[0] == s[0]
  {
    assert TrimStart(s) == s;
    TrimEndShape(s);
    TrimEndDrops(s);
  }

  /** The trim is no longer than `s`, and neither of its ends is trimmable. */
  lemma TrimShape(s: string)
    ensures |Trim(s)| <= |s|
    ensures Trim(s) == [] || (!IsTrimmable(Trim(s)[0]) && !IsTrimmable(Trim(s)[|Trim(s)| - 1]))
  {
    var t := TrimStart(s);
    TrimStartShape(s);
    TrimEndShape(t);
    if Trim(s) != [] {
      assert Trim(s)[0] == t[0];
    }
  }

  /** The trim is empty exactly when every character of `s` is trimmable. */
  lemma TrimSpec(s: string)
    ensures Trim(s) == [] <==> forall i :: 0 <= i < |s| ==> IsTrimmable(s[i])
  {
    var t := TrimStart(s);
    TrimStartDrops(s);
    TrimEndDrops(t);
    TrimStartShape(s);
    TrimEndShape(t);
    if Trim(s) == [] {
      assert t == [];
    }
  }

  /** `s.trim().isEmpty()`. */
  predicate IsBlank(s: string) { Trim(s) == [] }

  /** A string that starts and ends with a non-trimmable character is its own trim. */
  lemma TrimOfTrimmed(s: string)
    requires s == [] || (!IsTrimmable(s[0]) && !IsTrimmable(s[|s| - 1]))
    ensures Trim(s) == s
  {
  }

  /** Trimmable characters in front of a string do not change where its leading trim ends. */
  lemma {:induction false} TrimStartSkipsLeading(w: string, s: string)
    requires forall i :: 0 <= i < |w| ==> IsTrimmable(w[i])
    ensures TrimStart(w + s) == TrimStart(s)
    decreases |w|
  {
    if w != [] {
      assert (w + s)[0] == w[0];
      assert (w + s)[1..] == w[1..] + s;
      TrimStartSkipsLeading(w[1..], s);
    } else {
      assert w + s == s;
    }
  }

  /** Trimmable characters in front of a string do not change its trim. */
  lemma TrimSkipsLeading(w: string, s: string)
    requires forall i :: 0 <= i < |w| ==> IsTrimmable(w[i])
    ensures Trim(w + s) == Trim(s)
  {
    TrimStartSkipsLeading(w, s);
  }

  /** A space in front of a string that is its own trim is trimmed away. */
  lemma TrimSpaceBefore(s: string)
    requires |s| > 0 && !IsTrimmable(s[0]) && !IsTrimmable(s[|s| - 1])
    ensures Trim(" " + s) == s
  {
    assert (" " + s)[1..] == s;
    assert TrimStart(s) == s;
    assert TrimEnd(s) == s;
  }

  /** A blank (a space, a line break) after a string that is its own trim is trimmed away. */
  lemma TrimBlankAfter(s: string, c: char)
    requires |s| > 0 && !IsTrimmable(s[0]) && !IsTrimmable(s[|s| - 1]) && IsTrimmable(c)
    ensures Trim(s + [c]) == s
  {
    assert TrimStart(s + [c]) == s + [c];
    assert (s + [c])[..|s|] == s;
    assert TrimEnd(s) == s;
  }

  /** Spaces on both sides of a string that is its own trim are trimmed away. */
  lemma TrimSpacesAround(s: string)
    requires |s| > 0 && !IsTrimmable(s[0]) && !IsTrimmable(s[|s| - 1])
    ensures Trim(" " + s + " ") == s
  {
    assert (" " + s + " ")[1..] == s + " ";
    TrimBlankAfter(s, ' ');
  }

  /** `trim` is idempotent. */
  lemma TrimIdempotent(s: string)
    ensures Trim(Trim(s)) == Trim(s)
  {
    TrimShape(s);
    TrimOfTrimmed(Trim(s));
  }

  // ---------------------------------------------------------------- search

  /** `pat` occurs in `s` starting at index `i`. */
  predicate OccursAt(s: string, pat: string, i: int)
  {
    0 <= i && i + |pat| <= |s| && s[i..i + |pat|] == pat
  }

  /** `s.indexOf(pat, from)`: the first occurrence of `pat` at or after `from`, or -1. */
  function IndexOfFrom(s: string, pat: string, from: nat): (r: int)
    requires from <= |s|
    ensures r == -1 || (from <= r && OccursAt(s, pat, r))
    decreases |s| - from
  {
    if from + |pat| > |s| then -1
    else if s[from..from + |pat|] == pat then from
    else IndexOfFrom(s, pat, from + 1)
  }

  /** `IndexOfFrom` misses no occurrence: there is none between `from` and its answer. */
  lemma {:induction false} IndexOfFromFirst(s: string, pat: string, from: nat)
    requires from <= |s|
    ensures forall i :: from <= i && (IndexOfFrom(s, pat, from) == -1 || i < IndexOfFrom(s, pat, from))
                        ==> !OccursAt(s, pat, i)
    decreases |s| - from
  {
    if from + |pat| <= |s| && s[from..from + |pat|] != pat {
      IndexOfFromFirst(s, pat, from + 1);
    }
  }

  /** `s.indexOf(pat)`: where `pat` occurs, or -1. */
  function IndexOf(s: string, pat: string): (r: int)
    ensures r == -1 || OccursAt(s, pat, r)
  {
    IndexOfFrom(s, pat, 0)
  }

  /** `indexOf` gives the first occurrence, and -1 exactly when there is none. */
  lemma IndexOfSpec(s: string, pat: string)
    ensures IndexOf(s, pat) == -1 <==> forall i :: !OccursAt(s, pat, i)
    ensures IndexOf(s, pat) != -1 ==> forall i :: 0 <= i < IndexOf(s, pat) ==> !OccursAt(s, pat, i)
  {
    IndexOfFromFirst(s, pat, 0);
  }

  /** `s.contains(pat)`. */
  predicate Contains(s: string, pat: string) { IndexOf(s, pat) != -1 }

  /** `contains` holds exactly when the pattern occurs somewhere. */
  lemma ContainsSpec(s: string, pat: string)
    ensures Contains(s, pat) <==> exists i :: OccursAt(s, pat, i)
  {
    IndexOfSpec(s, pat);
  }

  /** `s.startsWith(p)`. */
  predicate StartsWith(s: string, p: string) { |p| <= |s| && s[..|p|] == p }

  /** `s` has no occurrence of the character `c`. */
  predicate Lacks(s: string, c: char)
    decreases |s|
  {
    s == [] || (s[0] != c && Lacks(s[1..], c))
  }

  /** `Lacks` holds exactly when no index of `s` holds `c`. */
  lemma {:induction false} LacksSpec(s: string, c: char)
    ensures Lacks(s, c) <==> forall k :: 0 <= k < |s| ==> s[k] != c
    decreases |s|
  {
    if s != [] {
      LacksSpec(s[1..], c);
      if Lacks(s, c) {
        forall k | 1 <= k < |s| ensures s[k] != c {
          assert s[k] == s[1..][k - 1];
        }
      }
      if forall k :: 0 <= k < |s| ==> s[k] != c {
        forall k | 0 <= k < |s| - 1 ensures s[1..][k] != c {
          assert s[1..][k] == s[k + 1];
        }
      }
    }
  }

  /** Two strings that lack `c` make a string that lacks `c`. */
  lemma {:induction false} LacksJoin(a: string, b: string, c: char)
    requires Lacks(a, c) && Lacks(b, c)
    ensures Lacks(a + b, c)
    decreases |a|
  {
    if a == [] {
      assert a + b == b;
    } else {
      assert (a + b)[0] == a[0];
      assert (a + b)[1..] == a[1..] + b;
      LacksJoin(a[1..], b, c);
    }
  }

  /**
   * If the character `sep[p]` occurs nowhere else in `sep` and not at all in `a`, the first
   * occurrence of `sep` in `a + sep + b` is the one right after `a`.
   */
  lemma FirstSeparator(a: string, sep: string, b: string, p: nat)
    requires p < |sep|
    requires forall k :: 0 <= k < |sep| && k != p ==> sep[k] != sep[p]
    requires Lacks(a, sep[p])
    ensures IndexOf(a + sep + b, sep) == |a|
  {
    LacksSpec(a, sep[p]);
    var s := a + sep + b;
    assert s[|a|..|a| + |sep|] == sep;
    assert OccursAt(s, sep, |a|);
    IndexOfSpec(s, sep);
    forall i | 0 <= i < |a|
      ensures !OccursAt(s, sep, i)
    {
      if i + |sep| <= |s| {
        assert s[i..i + |sep|][p] == s[i + p];
        if i + p < |a| {
          assert s[i + p] == a[i + p];
        } else {
          assert s[i + p] == sep[i + p - |a|];
        }
      }
    }
  }

  /** A string that lacks one of the characters of `sep` does not contain `sep`. */
  lemma NoSeparator(b: string, sep: string, p: nat)
    requires p < |sep|
    requires Lacks(b, sep[p])
    ensures IndexOf(b, sep) == -1
  {
    LacksSpec(b, sep[p]);
    IndexOfSpec(b, sep);
    forall i
      ensures !OccursAt(b, sep, i)
    {
      if 0 <= i && i + |sep| <= |b| {
        assert b[i..i + |sep|][p] == b[i + p];
      }
    }
  }

  /** No `x` in `s` is directly followed by `y`. */
  predicate NeverFollowedBy(s: string, x: char, y: char)
  {
    forall i :: 0 <= i < |s| - 1 && s[i] == x ==> s[i + 1] != y
  }

  /** A string without `x` never has `x` followed by anything. */
  lemma LacksNeverFollowed(s: string, x: char, y: char)
    requires Lacks(s, x)
    ensures NeverFollowedBy(s, x, y)
  {
    LacksSpec(s, x);
  }

  /** Two such strings stay so when joined, unless the join itself puts `y` right after `x`. */
  lemma NeverFollowedByJoin(a: string, b: string, x: char, y: char)
    requires NeverFollowedBy(a, x, y) && NeverFollowedBy(b, x, y)
    requires a == [] || b == [] || a[|a| - 1] != x || b[0] != y
    ensures NeverFollowedBy(a + b, x, y)
  {
    var s := a + b;
    forall i | 0 <= i < |s| - 1 && s[i] == x ensures s[i + 1] != y {
      if i + 1 < |a| {
        assert s[i] == a[i] && s[i + 1] == a[i + 1];
      } else if i + 1 == |a| {
        assert s[i] == a[|a| - 1] && s[i + 1] == b[0];
      } else {
        assert s[i] == b[i - |a|] && s[i + 1] == b[i + 1 - |a|];
      }
    }
  }

  /**
   * If the first character of `sep` is never followed in `a` by the second, the first
   * occurrence of `sep` in `a + sep + b` is the one right after `a`.
   */
  lemma FirstSeparatorAfter(a: string, sep: string, b: string)
    requires |sep| >= 2 && sep[0] != sep[1] && NeverFollowedBy(a, sep[0], sep[1])
    ensures IndexOf(a + sep + b, sep) == |a|
  {
    var s := a + sep + b;
    assert s[|a|..|a| + |sep|] == sep;
    assert OccursAt(s, sep, |a|);
    IndexOfSpec(s, sep);
    assert forall i :: 0 <= i < |a| ==> !OccursAt(s, sep, i);
  }

  /** `s.substring(b, e)`, or `None` where Java throws StringIndexOutOfBoundsException. */
  function Substring(s: string, b: int, e: int): (r: Option<string>)
    ensures r.Some? <==> 0 <= b <= e <= |s|
  {
    if 0 <= b <= e <= |s| then Some(s[b..e]) else None
  }

  /** A substring has the length of its range and sits between the parts before and after it. */
  lemma SubstringSpec(s: string, b: int, e: int)
    requires 0 <= b <= e <= |s|
    ensures |Substring(s, b, e).value| == e - b
    ensures s == s[..b] + Substring(s, b, e).value + s[e..]
  {
    assert s == s[..b] + s[b..e] + s[e..];
  }

  // ---------------------------------------------------------------- split and join

  /** The pieces of `s` between successive, non-overlapping occurrences of `sep`, left to right. */
  function SplitAll(s: string, sep: string): (parts: seq<string>)
    requires sep != []
    ensures parts != []
    decreases |s|
  {
    var i := IndexOf(s, sep);
    if i == -1 then [s] else [s[..i]] + SplitAll(s[i + |sep|..], sep)
  }

  /** `String.join(sep, parts)`. */
  function Join(parts: seq<string>, sep: string): string
  {
    if parts == [] then [] else if |parts| == 1 then parts[0] else parts[0] + sep + Join(parts[1..], sep)
  }

  /** Splitting loses nothing: joining the pieces with the separator gives the string back,
      and no piece contains the separator. */
  lemma {:induction false} SplitAllJoin(s: string, sep: string)
    requires sep != []
    ensures Join(SplitAll(s, sep), sep) == s
    ensures forall k :: 0 <= k < |SplitAll(s, sep)| ==> IndexOf(SplitAll(s, sep)[k], sep) == -1
    decreases |s|
  {
    var i := IndexOf(s, sep);
    IndexOfSpec(s, sep);
    if i != -1 {
      var rest := s[i + |sep|..];
      SplitAllJoin(rest, sep);
      assert s == s[..i] + sep + rest by { assert s[i..i + |sep|] == sep; }
      forall j
        ensures !OccursAt(s[..i], sep, j)
      {
        if 0 <= j && j + |sep| <= i {
          assert s[..i][j..j + |sep|] == s[j..j + |sep|];
          assert !OccursAt(s, sep, j);
        }
      }
    }
  }

  /**
   * Splitting at a separator whose marker character `sep[p]` is missing from the first piece:
   * the first piece comes off whole.
   */
  lemma SplitAllCons(a: string, sep: string, b: string, p: nat)
    requires p < |sep|
    requires forall k :: 0 <= k < |sep| && k != p ==> sep[k] != sep[p]
    requires Lacks(a, sep[p])
    ensures SplitAll(a + sep + b, sep) == [a] + SplitAll(b, sep)
  {
    FirstSeparator(a, sep, b, p);
    var s := a + sep + b;
    assert s[..|a|] == a;
    assert s[|a| + |sep|..] == b;
  }

  /** A string without the marker character of `sep` splits into itself. */
  lemma SplitAllSingle(b: string, sep: string, p: nat)
    requires p < |sep| && Lacks(b, sep[p])
    ensures SplitAll(b, sep) == [b]
  {
    NoSeparator(b, sep, p);
  }

  /** The pieces without the empty ones at the end: a prefix that ends in a non-empty piece. */
  function DropTrailingEmpty(parts: seq<string>): (r: seq<string>)
    ensures |r| <= |parts| && r == parts[..|r|]
    ensures r == [] || r[|r| - 1] != []
  {
    if parts != [] && parts[|parts| - 1] == [] then DropTrailingEmpty(parts[..|parts| - 1]) else parts
  }

  /** A non-empty piece is never among the trailing empty ones, so it is kept. */
  lemma {:induction false} DropTrailingKeeps(parts: seq<string>, k: nat)
    requires k < |parts| && |parts[k]| > 0
    ensures k < |DropTrailingEmpty(parts)|
    decreases |parts|
  {
    if parts[|parts| - 1] == [] {
      DropTrailingKeeps(parts[..|parts| - 1], k);
    }
  }

  /** `s.split(sep)` for a literal separator: all pieces, with trailing empty pieces dropped,
      except that a string without the separator splits into itself. */
  function Split(s: string, sep: string): seq<string>
    requires sep != []
  {
    if IndexOf(s, sep) == -1 then [s] else DropTrailingEmpty(SplitAll(s, sep))
  }

  /** When the separator occurs and the last piece is not empty, `split` keeps every piece. */
  lemma SplitKeepsPieces(s: string, sep: string)
    requires sep != [] && |SplitAll(s, sep)| >= 2 && SplitAll(s, sep)[|SplitAll(s, sep)| - 1] != []
    ensures Split(s, sep) == SplitAll(s, sep) && Contains(s, sep)
  {
  }

  /** Two pieces that lack the marker character of `sep`, the second non-empty, joined by `sep`,
      split back into the two. */
  lemma SplitPair(x: string, sep: string, b: string, p: nat)
    requires p < |sep|
    requires forall k :: 0 <= k < |sep| && k != p ==> sep[k] != sep[p]
    requires Lacks(x, sep[p]) && Lacks(b, sep[p]) && |b| > 0
    ensures Split(x + sep + b, sep) == [x, b] && Contains(x + sep + b, sep)
  {
    SplitAllCons(x, sep, b, p);
    SplitAllSingle(b, sep, p);
    SplitKeepsPieces(x + sep + b, sep);
  }

  /** The same for three pieces. */
  lemma SplitTriple(x: string, sep: string, y: string, b: string, p: nat)
    requires p < |sep|
    requires forall k :: 0 <= k < |sep| && k != p ==> sep[k] != sep[p]
    requires Lacks(x, sep[p]) && Lacks(y, sep[p]) && Lacks(b, sep[p]) && |b| > 0
    ensures Split(x + sep + (y + sep + b), sep) == [x, y, b]
  {
    SplitAllThree(x, sep, y, b, p);
    SplitKeepsPieces(x + sep + (y + sep + b), sep);
  }

  lemma SplitAllThree(x: string, sep: string, y: string, b: string, p: nat)
    requires p < |sep|
    requires forall k :: 0 <= k < |sep| && k != p ==> sep[k] != sep[p]
    requires Lacks(x, sep[p]) && Lacks(y, sep[p]) && Lacks(b, sep[p])
    ensures SplitAll(x + sep + (y + sep + b), sep) == [x, y, b]
  {
    SplitAllCons(y, sep, b, p);
    SplitAllSingle(b, sep, p);
    SplitAllCons(x, sep, y + sep + b, p);
  }

  /** `s.split(sep, 2)` for a literal separator: the piece before the first occurrence and
      everything after it, or `s` alone. */
  function SplitOnce(s: string, sep: string): (parts: seq<string>)
    requires sep != []
    ensures 1 <= |parts| <= 2
    ensures |parts| == 1 <==> !Contains(s, sep)
    ensures |parts| == 1 ==> parts[0] == s
    ensures |parts| == 2 ==> s == parts[0] + sep + parts[1] && !Contains(parts[0], sep)
  {
    var i := IndexOf(s, sep);
    if i == -1 then [s]
    else
      IndexOfSpec(s, sep);
      IndexOfSpec(s[..i], sep);
      assert s == s[..i] + sep + s[i + |sep|..] by { assert s[i..i + |sep|] == sep; }
      assert forall j :: OccursAt(s[..i], sep, j) ==> OccursAt(s, sep, j) by {
        forall j | OccursAt(s[..i], sep, j) ensures OccursAt(s, sep, j) {
          assert s[..i][j..j + |sep|] == s[j..j + |sep|];
        }
      }
      [s[..i], s[i + |sep|..]]
  }

  /** Concatenation is associative; the solver needs this spelled out next to string literals. */
  lemma AppendAssociative(a: string, b: string, c: string)
    ensures (a + b) + c == a + (b + c)
  {
  }

  /** The concatenation of all pieces. */
  function Concat(parts: seq<string>): string
  {
    if parts == [] then [] else Concat(parts[..|parts| - 1]) + parts[|parts| - 1]
  }

  // ---------------------------------------------------------------- case

  function LowerChar(c: char): char
  {
    if 'A' <= c <= 'Z' then (c as int + 32) as char else c
  }

  /** `s.toLowerCase()`, restricted to the ASCII letters. */
  function Lower(s: string): (r: string)
    ensures |r| == |s| && forall i :: 0 <= i < |s| ==> r[i] == LowerChar(s[i])
  {
    seq(|s|, i requires 0 <= i < |s| => LowerChar(s[i]))
  }

  /** Lowering twice is lowering once. */
  lemma LowerIdempotent(s: string)
    ensures Lower(Lower(s)) == Lower(s)
  {
  }

  /** Lowering distributes over concatenation. */
  lemma LowerConcat(a: string, b: string)
    ensures Lower(a + b) == Lower(a) + Lower(b)
  {
  }

  // ---------------------------------------------------------------- numbers

  predicate IsDigit(c: char) { '0' <= c <= '9' }

  predicate AllDigits(s: string) { forall i :: 0 <= i < |s| ==> IsDigit(s[i]) }

  function DigitChar(d: nat): (c: char)
    requires d < 10
    ensures IsDigit(c) && c as int - '0' as int == d
  {
    ('0' as int + d) as char
  }

  /** The number that a string of decimal digits denotes. */
  function DigitsValue(s: string): nat
    requires AllDigits(s)
    decreases |s|
  {
    if s == [] then 0 else DigitsValue(s[..|s| - 1]) * 10 + (s[|s| - 1] as int - '0' as int)
  }

  /** `Integer.toString(n)` for a non-negative `n`: decimal digits without leading zeros. */
  function NatToString(n: nat): (s: string)
    ensures s != [] && AllDigits(s)
    ensures n < 10 <==> |s| == 1
    ensures n < 100 ==> |s| <= 2
    ensures n < 10000 ==> |s| <= 4
    decreases n
  {
    if n < 10 then [DigitChar(n)] else NatToString(n / 10) + [DigitChar(n % 10)]
  }

  /** Reading back the digits that `NatToString` writes gives the number. */
  lemma {:induction false} NatToStringValue(n: nat)
    ensures DigitsValue(NatToString(n)) == n
    decreases n
  {
    if n >= 10 {
      var s := NatToString(n);
      assert s[..|s| - 1] == NatToString(n / 10);
      NatToStringValue(n / 10);
    }
  }

  function Zeros(k: nat): (z: string)
    ensures |z| == k && AllDigits(z)
  {
    seq(k, _ => '0')
  }

  /** `n` in decimal, padded on the left with zeros to `width` characters (a `%0wd`-style field). */
  function ZeroPad(n: nat, width: nat): (s: string)
    ensures AllDigits(s)
    ensures |NatToString(n)| <= width ==> |s| == width
  {
    var d := NatToString(n);
    (if |d| < width then Zeros(width - |d|) else []) + d
  }

  /** Leading zeros do not change the value of a digit string. */
  lemma {:induction false} LeadingZerosValue(k: nat, s: string)
    requires AllDigits(s)
    ensures DigitsValue(Zeros(k) + s) == DigitsValue(s)
    decreases |s|
  {
    var z := Zeros(k) + s;
    if s == [] {
      assert z == Zeros(k);
      ZerosValue(k);
    } else {
      assert z[..|z| - 1] == Zeros(k) + s[..|s| - 1];
      LeadingZerosValue(k, s[..|s| - 1]);
    }
  }

  lemma {:induction false} ZerosValue(k: nat)
    ensures DigitsValue(Zeros(k)) == 0
  {
    if k > 0 {
      assert Zeros(k)[..k - 1] == Zeros(k - 1);
      ZerosValue(k - 1);
    }
  }

  /** Reading back a zero-padded field gives the number. */
  lemma ZeroPadValue(n: nat, width: nat)
    ensures DigitsValue(ZeroPad(n, width)) == n
  {
    var d := NatToString(n);
    NatToStringValue(n);
    if |d| < width {
      LeadingZerosValue(width - |d|, d);
    } else {
      assert ZeroPad(n, width) == d;
    }
  }

  /**
   * `Integer.parseInt(s)` on ASCII digits: an optional sign followed by one or more ASCII decimal
   * digits whose value fits in 32 bits. Java also reads other Unicode decimal digits, which this
   * model refuses.
   */
  function ParseInt(s: string): (r: Option<int>)
    ensures r.Some? ==> -0x8000_0000 <= r.value <= 0x7fff_ffff
    ensures r.Some? ==> s != [] && (AllDigits(s) || AllDigits(s[1..]))
  {
    if s == [] then None
    else
      var signed := s[0] == '-' || s[0] == '+';
      var digits := if signed then s[1..] else s;
      if digits == [] || !AllDigits(digits) then None
      else
        var v: int := if s[0] == '-' then 0 - DigitsValue(digits) as int else DigitsValue(digits);
        if -0x8000_0000 <= v <= 0x7fff_ffff then Some(v) else None
  }

  /** `Integer.parseInt` reads back what `Integer.toString` writes. */
  lemma ParseIntOfNatToString(n: nat)
    requires n <= 0x7fff_ffff
    ensures ParseInt(NatToString(n)) == Some(n)
  {
    NatToStringValue(n);
  }
}
