/**
 * One crontab line (CrontabCommand.php): the five-field timing grammar,
 * the command's four fields, and the conversion between a command and its
 * line of text.
 */
module Commands {
  import opened Php

  // ---------------------------------------------------------------------
  // The timing grammar

  /** The five fields of a timing expression, in line order. */
  datatype Field = Minute | Hour | DayOfMonth | Month | DayOfWeek

  /**
   * \s: space, tab, line feed, vertical tab, form feed, carriage return.
   * No field's character class contains any of these.
   */
  predicate IsSpace(c: char)
  {
    c == ' ' || c == '\t' || c == '\n' || c == '\U{000B}' || c == '\U{000C}' || c == '\r'
  }

  /** \d: an ASCII digit. */
  predicate IsDigit(c: char)
  {
    '0' <= c <= '9'
  }

  /**
   * The character class of each field. The month and weekday names sit
   * inside the brackets of a character class, so each of their letters, and
   * the parentheses and bars around them, is accepted on its own.
   */
  predicate InField(f: Field, c: char)
  {
    IsDigit(c) || c == '/' || c == '-' || c == '*' || c == ',' ||
    match f
    case Minute => false
    case Hour => false
    case DayOfMonth => c == '?' || c == 'L' || c == 'W'
    case Month => IsMonthNameChar(c)
    case DayOfWeek => c == '?' || c == 'L' || c == '#' || IsDayNameChar(c)
  }

  /**
   * The characters of "(jan|feb|mar|apr|may|jun|jul|aug|sep|oct|nov|dec)":
   * the brackets, the bar, and the letters a-g, j, l-p, r-v and y.
   */
  predicate IsMonthNameChar(c: char)
  {
    c == '(' || c == '|' || c == ')' ||
    ('a' <= c <= 'g') || c == 'j' || ('l' <= c <= 'p') || ('r' <= c <= 'v') || c == 'y'
  }

  /**
   * The characters of "(mon|tue|wed|thu|fre|sat|sun)": the brackets, the
   * bar, and the letters a, d-f, h, m-o, r-u and w.
   */
  predicate IsDayNameChar(c: char)
  {
    c == '(' || c == '|' || c == ')' ||
    c == 'a' || ('d' <= c <= 'f') || c == 'h' || ('m' <= c <= 'o') || ('r' <= c <= 'u') || c == 'w'
  }

  lemma SpaceEndsField(f: Field, c: char)
    requires IsSpace(c)
    ensures !InField(f, c)
  {
  }

  lemma FieldCharKept(f: Field, c: char)
    requires InField(f, c)
    ensures !IsTrimmable(c)
    ensures f == Minute ==> c != '#'
  {
  }

  /** Every character of w belongs to field f's class. */
  predicate InClass(w: string, f: Field)
    decreases |w|
  {
    w == [] || (InField(f, w[0]) && InClass(w[1..], f))
  }

  /** A run of a class is exactly a string all of whose characters are in the class. */
  lemma {:induction false} InClassIff(w: string, f: Field)
    ensures InClass(w, f) <==> forall k :: 0 <= k < |w| ==> InField(f, w[k])
    decreases |w|
  {
    if w != [] {
      InClassIff(w[1..], f);
      assert forall k :: 1 <= k < |w| ==> w[k] == w[1..][k - 1];
    }
  }

  lemma InClassAt(w: string, f: Field, k: nat)
    requires InClass(w, f) && k < |w|
    ensures InField(f, w[k])
  {
    InClassIff(w, f);
  }

  lemma {:induction false} InClassAppend(v: string, w: string, f: Field)
    requires InClass(v, f) && InClass(w, f)
    ensures InClass(v + w, f)
    decreases |v|
  {
    if v == [] {
      assert v + w == w;
    } else {
      assert (v + w)[0] == v[0];
      assert (v + w)[1..] == v[1..] + w;
      InClassAppend(v[1..], w, f);
    }
  }

  /**
   * s[..n] is five non-empty fields separated by single whitespace
   * characters at positions a, b, c and d.
   */
  predicate Splits(s: string, n: int, a: int, b: int, c: int, d: int)
  {
    0 < a && a + 1 < b && b + 1 < c && c + 1 < d && d + 1 < n <= |s| &&
    InClass(s[..a], Minute) && IsSpace(s[a]) &&
    InClass(s[a + 1..b], Hour) && IsSpace(s[b]) &&
    InClass(s[b + 1..c], DayOfMonth) && IsSpace(s[c]) &&
    InClass(s[c + 1..d], Month) && IsSpace(s[d]) &&
    InClass(s[d + 1..n], DayOfWeek)
  }

  /** The prefix s[..n] is a timing expression. */
  ghost predicate PrefixMatches(s: string, n: int)
  {
    exists a, b, c, d :: Splits(s, n, a, b, c, d)
  }

  /** The whole of t is a timing expression. */
  ghost predicate IsExpression(t: string)
  {
    PrefixMatches(t, |t|)
  }

  /** Two strings that agree up to n agree on every slice below n. */
  lemma SliceOfPrefix(s: string, t: string, n: int, i: int, j: int)
    requires 0 <= i <= j <= n <= |s| && n <= |t| && s[..n] == t[..n]
    ensures s[i..j] == t[i..j]
  {
    forall k | i <= k < j
      ensures s[k] == t[k]
    {
      assert s[k] == s[..n][k] && t[k] == t[..n][k];
    }
  }

  /** Whether s[..n] splits at given positions depends on s[..n] only. */
  lemma SplitsPrefix(s: string, t: string, n: int, a: int, b: int, c: int, d: int)
    requires Splits(s, n, a, b, c, d)
    requires n <= |t| && s[..n] == t[..n]
    ensures Splits(t, n, a, b, c, d)
  {
    SliceOfPrefix(s, t, n, 0, a);
    assert s[..a] == s[0..a] && t[..a] == t[0..a];
    SliceOfPrefix(s, t, n, a + 1, b);
    SliceOfPrefix(s, t, n, b + 1, c);
    SliceOfPrefix(s, t, n, c + 1, d);
    SliceOfPrefix(s, t, n, d + 1, n);
    SliceOfPrefix(s, t, n, a, d + 1);
    assert s[a] == s[a..d + 1][0] && t[a] == t[a..d + 1][0];
    assert s[b] == s[a..d + 1][b - a] && t[b] == t[a..d + 1][b - a];
    assert s[c] == s[a..d + 1][c - a] && t[c] == t[a..d + 1][c - a];
    assert s[d] == s[a..d + 1][d - a] && t[d] == t[a..d + 1][d - a];
  }

  // ---------------------------------------------------------------------
  // The scanner

  /** A run of field f that reaches position j cannot be extended past it. */
  predicate Stops(s: string, j: nat, f: Field)
  {
    j == |s| || (j < |s| && !InField(f, s[j]))
  }

  /** The end of the longest run of field-f characters starting at i. */
  function RunEnd(s: string, i: nat, f: Field): (j: nat)
    requires i <= |s|
    ensures i <= j <= |s|
    ensures InClass(s[i..j], f)
    ensures Stops(s, j, f)
    decreases |s| - i
  {
    if i < |s| && InField(f, s[i]) then
      var j := RunEnd(s, i + 1, f);
      assert s[i..j][1..] == s[i + 1..j];
      j
    else i
  }

  /** The field that follows f on the line. */
  function Next(f: Field): Field
    requires f != DayOfWeek
  {
    match f
    case Minute => Hour
    case Hour => DayOfMonth
    case DayOfMonth => Month
    case Month => DayOfWeek
  }

  /**
   * Match fields f, ..., DayOfWeek starting at position i. No field's class
   * holds whitespace, so every field but the last is the longest run of its
   * class and must be followed by a whitespace character, and the last is
   * the longest run of its class.
   */
  function ScanFrom(s: string, i: nat, f: Field): (r: Option<nat>)
    requires i <= |s|
    ensures r.Some? ==> i < r.value <= |s|
    decreases |s| - i
  {
    var j := RunEnd(s, i, f);
    if j == i then None
    else if f == DayOfWeek then Some(j)
    else if j == |s| || !IsSpace(s[j]) then None
    else ScanFrom(s, j + 1, Next(f))
  }

  /**
   * The anchored match of the timing grammar against s: the length of the
   * prefix it captures, or None when preg_match finds nothing.
   */
  function Scan(s: string): (r: Option<nat>)
    ensures r.Some? ==> 0 < r.value <= |s|
  {
    ScanFrom(s, 0, Minute)
  }

  /** A field other than the last is matched, then a whitespace character, then the rest. */
  lemma ScanFromStep(s: string, i: nat, f: Field) returns (j: nat)
    requires i <= |s| && f != DayOfWeek && ScanFrom(s, i, f).Some?
    ensures j == RunEnd(s, i, f) && i < j < |s|
    ensures InClass(s[i..j], f) && IsSpace(s[j])
    ensures ScanFrom(s, i, f) == ScanFrom(s, j + 1, Next(f))
  {
    j := RunEnd(s, i, f);
  }

  /** The last field is the run of weekday characters. */
  lemma ScanFromLast(s: string, i: nat)
    requires i <= |s| && ScanFrom(s, i, DayOfWeek).Some?
    ensures ScanFrom(s, i, DayOfWeek) == Some(RunEnd(s, i, DayOfWeek))
  {
  }

  /** The first two fields of a successful scan. */
  lemma ScanHead(s: string) returns (a: nat, b: nat)
    requires Scan(s).Some?
    ensures 0 < a && a + 1 < b < |s|
    ensures InClass(s[..a], Minute) && IsSpace(s[a])
    ensures InClass(s[a + 1..b], Hour) && IsSpace(s[b])
    ensures Scan(s) == ScanFrom(s, b + 1, DayOfMonth)
  {
    a := ScanFromStep(s, 0, Minute);
    assert s[..a] == s[0..a];
    b := ScanFromStep(s, a + 1, Hour);
  }

  /** The third and fourth fields of a successful scan from position i. */
  lemma ScanMiddle(s: string, i: nat) returns (c: nat, d: nat)
    requires i <= |s| && ScanFrom(s, i, DayOfMonth).Some?
    ensures i < c && c + 1 < d < |s|
    ensures InClass(s[i..c], DayOfMonth) && IsSpace(s[c])
    ensures InClass(s[c + 1..d], Month) && IsSpace(s[d])
    ensures ScanFrom(s, i, DayOfMonth) == ScanFrom(s, d + 1, DayOfWeek)
  {
    c := ScanFromStep(s, i, DayOfMonth);
    d := ScanFromStep(s, c + 1, Month);
  }

  /** What Scan captures is a timing expression that the next character cannot extend. */
  lemma ScanSound(s: string)
    requires Scan(s).Some?
    ensures Scan(s).value <= |s| && PrefixMatches(s, Scan(s).value)
    ensures Scan(s).value == |s| || !InField(DayOfWeek, s[Scan(s).value])
  {
    var a, b := ScanHead(s);
    var c, d := ScanMiddle(s, b + 1);
    assert Scan(s) == ScanFrom(s, d + 1, DayOfWeek);
    ScanFromLast(s, d + 1);
    var n := RunEnd(s, d + 1, DayOfWeek);
    assert Scan(s) == Some(n);
    assert Splits(s, n, a, b, c, d);
  }

  /** A run that ends where its class ends is the run RunEnd finds. */
  lemma {:induction false} RunEndIs(s: string, i: nat, j: nat, f: Field)
    requires i <= j <= |s| && InClass(s[i..j], f)
    requires Stops(s, j, f)
    ensures RunEnd(s, i, f) == j
    decreases j - i
  {
    if i < j {
      assert s[i..j][0] == s[i];
      assert s[i..j][1..] == s[i + 1..j];
      RunEndIs(s, i + 1, j, f);
    }
  }

  /** A whole run of field f followed by whitespace hands the scan on to the next field. */
  lemma ScanFromAt(s: string, i: nat, j: nat, f: Field)
    requires f != DayOfWeek && i < j < |s|
    requires InClass(s[i..j], f) && IsSpace(s[j])
    ensures ScanFrom(s, i, f) == ScanFrom(s, j + 1, Next(f))
  {
    SpaceEndsField(f, s[j]);
    RunEndIs(s, i, j, f);
  }

  /** A whole run of weekday characters ends the scan. */
  lemma ScanFromAtLast(s: string, i: nat, n: nat)
    requires i < n <= |s| && InClass(s[i..n], DayOfWeek)
    requires Stops(s, n, DayOfWeek)
    ensures ScanFrom(s, i, DayOfWeek) == Some(n)
  {
    RunEndIs(s, i, n, DayOfWeek);
  }

  /** The last three fields, each a whole run, end the scan where the weekday run ends. */
  lemma ScanFindsTail(s: string, i: nat, c: nat, d: nat, n: nat)
    requires i < c && c + 1 < d && d + 1 < n <= |s|
    requires InClass(s[i..c], DayOfMonth) && IsSpace(s[c])
    requires InClass(s[c + 1..d], Month) && IsSpace(s[d])
    requires InClass(s[d + 1..n], DayOfWeek)
    requires Stops(s, n, DayOfWeek)
    ensures ScanFrom(s, i, DayOfMonth) == Some(n)
  {
    ScanFromAtLast(s, d + 1, n);
    ScanFromAt(s, c + 1, d, Month);
    assert ScanFrom(s, c + 1, Month) == Some(n);
    ScanFromAt(s, i, c, DayOfMonth);
  }

  /** A grammar prefix that cannot be extended is the one Scan finds. */
  lemma ScanFinds(s: string, n: int, a: int, b: int, c: int, d: int)
    requires Splits(s, n, a, b, c, d)
    requires Stops(s, n, DayOfWeek)
    ensures Scan(s) == Some(n)
  {
    ScanFindsTail(s, b + 1, c, d, n);
    ScanFromAt(s, a + 1, b, Hour);
    assert ScanFrom(s, a + 1, Hour) == Some(n);
    assert s[..a] == s[0..a];
    ScanFromAt(s, 0, a, Minute);
  }

  lemma SliceJoin(s: string, i: nat, j: nat, k: nat)
    requires i <= j <= k <= |s|
    ensures s[i..j] + s[j..k] == s[i..k]
  {
  }

  /** Scan finds a match whenever any prefix matches, and no shorter one than that prefix. */
  lemma ScanComplete(s: string, n: int)
    requires PrefixMatches(s, n)
    ensures Scan(s).Some? && n <= Scan(s).value
  {
    var a, b, c, d :| Splits(s, n, a, b, c, d);
    var m := RunEnd(s, n, DayOfWeek);
    InClassAppend(s[d + 1..n], s[n..m], DayOfWeek);
    SliceJoin(s, d + 1, n, m);
    assert Splits(s, m, a, b, c, d);
    ScanFinds(s, m, a, b, c, d);
  }

  /**
   * The anchored match succeeds exactly when some prefix of s is a timing
   * expression, and the prefix it captures is the longest such prefix.
   */
  lemma ScanIsLongestMatch(s: string)
    ensures Scan(s).Some? <==> exists n :: 0 <= n <= |s| && PrefixMatches(s, n)
    ensures Scan(s).Some? ==> forall n :: Scan(s).value < n <= |s| ==> !PrefixMatches(s, n)
  {
    if Scan(s).Some? {
      ScanSound(s);
      forall n | Scan(s).value < n <= |s| && PrefixMatches(s, n)
        ensures false
      {
        ScanComplete(s, n);
      }
    } else {
      forall n | 0 <= n <= |s| && PrefixMatches(s, n)
        ensures false
      {
        ScanComplete(s, n);
      }
    }
  }

  /** The prefix a match captures is a timing expression on its own. */
  lemma PrefixIsExpression(s: string, n: int)
    requires 0 <= n <= |s| && PrefixMatches(s, n)
    ensures IsExpression(s[..n])
  {
    var a, b, c, d :| Splits(s, n, a, b, c, d);
    assert s[..n][..n] == s[..n];
    SplitsPrefix(s, s[..n], n, a, b, c, d);
  }

  /** A timing expression followed by a character outside the weekday class matches exactly itself. */
  lemma ScanExpressionThen(e: string, rest: string)
    requires IsExpression(e)
    requires rest == [] || !InField(DayOfWeek, rest[0])
    ensures Scan(e + rest) == Some(|e|)
  {
    var s := e + rest;
    var a, b, c, d :| Splits(e, |e|, a, b, c, d);
    assert s[..|e|] == e == e[..|e|];
    SplitsPrefix(e, s, |e|, a, b, c, d);
    if rest != [] {
      assert s[|e|] == rest[0];
    }
    ScanFinds(s, |e|, a, b, c, d);
  }

  /** Five non-empty fields and four separators: a timing expression is at least nine characters long. */
  lemma ExpressionLength(t: string)
    requires IsExpression(t)
    ensures |t| >= 9
  {
    var a, b, c, d :| Splits(t, |t|, a, b, c, d);
  }

  /** A timing expression neither starts nor ends with a character trim() strips, nor starts with '#'. */
  lemma ExpressionEnds(s: string, n: int)
    requires 0 <= n <= |s| && PrefixMatches(s, n)
    ensures 0 < n && !IsTrimmable(s[0]) && !IsTrimmable(s[n - 1]) && s[0] != '#'
  {
    var a, b, c, d :| Splits(s, n, a, b, c, d);
    InClassAt(s[..a], Minute, 0);
    InClassAt(s[d + 1..n], DayOfWeek, n - 1 - (d + 1));
    FieldCharKept(Minute, s[0]);
    FieldCharKept(DayOfWeek, s[n - 1]);
  }

  /**
   * Trimming a string that has a grammar prefix keeps the same match: the
   * value setExpression stores still starts with a timing expression.
   */
  lemma ScanTrim(s: string)
    requires Scan(s).Some?
    ensures Scan(Trim(s)) == Scan(s)
  {
    ScanSound(s);
    var n := Scan(s).value;
    var a, b, c, d :| Splits(s, n, a, b, c, d);
    ExpressionEnds(s, n);
    TrimKeepsPrefix(s, n);
    var t := Trim(s);
    SplitsPrefix(s, t, n, a, b, c, d);
    if n < |t| {
      assert t[n] == s[n];
    }
    ScanFinds(t, n, a, b, c, d);
  }

  // ---------------------------------------------------------------------
  // A command as a value

  /** The four fields of a CrontabCommand. */
  datatype Entry = Entry(expression: string, environment: string, command: string, isComment: bool)

  /** A freshly constructed command: every string empty, not a comment. */
  const Blank := Entry("", "", "", false)

  /** The expression field holds nothing or a string that starts with a timing expression. */
  predicate ValidEntry(e: Entry)
  {
    e.expression == "" || Scan(e.expression).Some?
  }

  /**
   * serialize(): expression, environment and command joined by single spaces.
   * The line starts with the expression and ends with the command, and the
   * two spaces sit right after the expression and right before the command.
   */
  function Serialized(e: Entry): (r: string)
    ensures |r| == |e.expression| + |e.environment| + |e.command| + 2
    ensures r[..|e.expression|] == e.expression && r[|e.expression|] == ' '
    ensures r[|r| - |e.command|..] == e.command && r[|r| - |e.command| - 1] == ' '
  {
    e.expression + " " + e.environment + " " + e.command
  }

  /** strpos(line, '#') === 0 */
  predicate IsCommentLine(t: string)
  {
    |t| > 0 && t[0] == '#'
  }

  /**
   * The new fields after unserialize() has trimmed its line to t: the
   * environment is never touched, the comment flag says whether t starts
   * with '#', and a valid expression field stays valid.
   */
  function Decomposed(e: Entry, t: string): (r: Entry)
    ensures r.environment == e.environment
    ensures r.isComment <==> IsCommentLine(t)
    ensures ValidEntry(e) ==> ValidEntry(r)
  {
    if IsCommentLine(t) then e.(isComment := true)
    else
      match Scan(t)
      case None => e.(isComment := false)
      case Some(n) =>
        CapturedMatchesItself(t);
        Entry(t[..n], e.environment, Trim(Substr(t, n + 1)), false)
  }

  /**
   * The new fields after unserialize(line) on a command whose fields were e:
   * the environment is kept and the comment flag says whether the trimmed
   * line starts with '#', and a valid expression field stays valid.
   */
  function Unserialized(e: Entry, line: string): (r: Entry)
    ensures r.environment == e.environment
    ensures r.isComment <==> IsCommentLine(Trim(line))
    ensures ValidEntry(e) ==> ValidEntry(r)
  {
    Decomposed(e, Trim(line))
  }

  /** The captured prefix is matched again, whole, by setExpression. */
  lemma CapturedMatchesItself(t: string)
    requires Scan(t).Some?
    ensures Scan(t[..Scan(t).value]) == Scan(t)
  {
    ScanSound(t);
    var n := Scan(t).value;
    PrefixIsExpression(t, n);
    ScanExpressionThen(t[..n], []);
    assert t[..n] + [] == t[..n];
  }

  /** The captured prefix passes setExpression's check and is stored as it is. */
  lemma CapturedIsTrimmedExpression(t: string)
    requires Scan(t).Some?
    ensures Scan(t[..Scan(t).value]).Some?
    ensures Trim(t[..Scan(t).value]) == t[..Scan(t).value]
  {
    CapturedMatchesItself(t);
    var n := Scan(t).value;
    ScanSound(t);
    ExpressionEnds(t, n);
    TrimOfTrimmed(t[..n]);
  }

  /** A line is taken as a comment exactly when it starts with '#' once trimmed; comments leave the strings alone. */
  lemma UnserializeComment(e: Entry, line: string)
    ensures Unserialized(e, line).isComment <==> IsCommentLine(Trim(line))
    ensures IsCommentLine(Trim(line)) ==> Unserialized(e, line) == e.(isComment := true)
  {
  }

  /** A non-comment line with no grammar prefix changes nothing but the comment flag. */
  lemma UnserializeNoMatch(e: Entry, line: string)
    requires !IsCommentLine(Trim(line))
    requires forall n :: 0 <= n <= |Trim(line)| ==> !PrefixMatches(Trim(line), n)
    ensures Unserialized(e, line) == e.(isComment := false)
  {
    ScanIsLongestMatch(Trim(line));
  }

  /**
   * On a non-comment line with a grammar prefix, the expression becomes the
   * longest timing expression at the front of the trimmed line, the command
   * becomes the trimmed rest after one more character, and the environment
   * is left as it was.
   */
  lemma DecomposeMatch(e: Entry, t: string, n: nat)
    requires !IsCommentLine(t)
    requires n <= |t| && PrefixMatches(t, n)
    ensures !Decomposed(e, t).isComment
    ensures Decomposed(e, t).environment == e.environment
    ensures IsExpression(Decomposed(e, t).expression)
    ensures n <= |Decomposed(e, t).expression| <= |t|
    ensures Decomposed(e, t).expression == t[..|Decomposed(e, t).expression|]
    ensures forall m :: |Decomposed(e, t).expression| < m <= |t| ==> !PrefixMatches(t, m)
    ensures Decomposed(e, t).command == Trim(Substr(t, |Decomposed(e, t).expression| + 1))
  {
    ScanComplete(t, n);
    DecomposeScanned(e, t);
    assert IsExpression(Decomposed(e, t).expression) by {
      ScanSound(t);
      PrefixIsExpression(t, Scan(t).value);
    }
    assert forall m :: |Decomposed(e, t).expression| < m <= |t| ==> !PrefixMatches(t, m) by {
      ScanIsLongestMatch(t);
    }
    assert Decomposed(e, t).command == Trim(Substr(t, |Decomposed(e, t).expression| + 1)) by {
      assert Substr(t, |Decomposed(e, t).expression| + 1) == Substr(t, Scan(t).value + 1);
    }
  }

  /** unserialize() on a non-comment line whose trimmed text has a grammar prefix. */
  lemma UnserializedMatch(e: Entry, line: string)
    requires !IsCommentLine(Trim(line)) && Scan(Trim(line)).Some?
    ensures Unserialized(e, line) ==
      Entry(Trim(line)[..Scan(Trim(line)).value], e.environment, Trim(Substr(Trim(line), Scan(Trim(line)).value + 1)), false)
  {
    DecomposeScanned(e, Trim(line));
  }

  /** Decomposing a non-comment line at the end of its match. */
  lemma DecomposeScanned(e: Entry, t: string)
    requires !IsCommentLine(t) && Scan(t).Some?
    ensures Decomposed(e, t) == Entry(t[..Scan(t).value], e.environment, Trim(Substr(t, Scan(t).value + 1)), false)
    ensures |Decomposed(e, t).expression| == Scan(t).value
  {
  }

  /** A timing expression followed by nothing or by a space is decomposed at its end. */
  lemma DecomposeExpressionThen(e: Entry, E: string, rest: string)
    requires IsExpression(E)
    requires rest == [] || rest[0] == ' '
    ensures Decomposed(e, E + rest) == Entry(E, e.environment, Trim(Substr(rest, 1)), false)
  {
    ExpressionEnds(E, |E|);
    ScanExpressionThen(E, rest);
    DecomposeAt(e, E, rest);
  }

  /** Decomposing a line whose match ends where the line's first part E ends. */
  lemma DecomposeAt(e: Entry, E: string, rest: string)
    requires E != [] && E[0] != '#'
    requires Scan(E + rest) == Some(|E|)
    ensures Decomposed(e, E + rest) == Entry(E, e.environment, Trim(Substr(rest, 1)), false)
  {
    var t := E + rest;
    assert t[0] == E[0];
    assert t[..|E|] == E;
    SubstrPastPrefix(E, rest);
    var r := Trim(Substr(t, |E| + 1));
    assert Decomposed(e, t) == Entry(E, e.environment, r, false);
  }

  /** A whole timing expression is decomposed into itself and an empty command. */
  lemma DecomposeExpression(e: Entry, E: string)
    requires IsExpression(E)
    ensures Decomposed(e, E) == Entry(E, e.environment, "", false)
  {
    DecomposeExpressionThen(e, E, []);
    assert E + [] == E;
  }

  /** The serialized line of a command with no environment and no command text, trimmed. */
  lemma SerializedTrimmedBare(E: string)
    requires E != [] && !IsTrimmable(E[0]) && !IsTrimmable(E[|E| - 1])
    ensures Trim(E + " " + "" + " " + "") == E
  {
    assert E + " " + "" + " " + "" == E + "  ";
    assert forall k :: 0 <= k < |"  "| ==> IsTrimmable("  "[k]);
    TrimDropsTrailing(E, "  ");
    TrimOfTrimmed(E);
  }

  /** The serialized line of a command with no environment, trimmed. */
  lemma SerializedTrimmed(E: string, C: string)
    requires E != [] && !IsTrimmable(E[0]) && !IsTrimmable(E[|E| - 1])
    requires C != [] && !IsTrimmable(C[|C| - 1])
    ensures Trim(E + " " + "" + " " + C) == E + ([' '] + ([' '] + C))
  {
    var line := E + " " + "" + " " + C;
    assert line == E + ([' '] + ([' '] + C));
    assert line[0] == E[0] && line[|line| - 1] == C[|C| - 1];
    TrimOfTrimmed(line);
  }

  /**
   * Round trip: a command with no environment, a whole timing expression and
   * a trimmed command text comes back unchanged from its serialized line.
   */
  lemma UnserializeSerialized(e: Entry, x: Entry)
    requires e.environment == "" && x.environment == ""
    requires IsExpression(x.expression) && Trim(x.command) == x.command
    ensures Unserialized(e, Serialized(x)) == x.(isComment := false)
  {
    var E, C := x.expression, x.command;
    ExpressionEnds(E, |E|);
    if C == [] {
      SerializedTrimmedBare(E);
      DecomposeExpression(e, E);
    } else {
      SerializedTrimmed(E, C);
      DecomposeExpressionThen(e, E, [' '] + ([' '] + C));
      TrimAfterSpaces(C);
    }
  }

  /** Three strings joined by single spaces, regrouped from the right. */
  lemma SpacedRegroup(a: string, b: string, c: string)
    ensures a + " " + b + " " + c == a + ([' '] + (b + " " + c))
  {
    assert a + " " + b + " " + c == a + (" " + b + " " + c);
    assert " " + b + " " + c == [' '] + (b + " " + c);
  }

  /** The serialized line of a command with an environment, trimmed. */
  lemma SerializedTrimmedEnvironment(E: string, V: string, C: string)
    requires E != [] && !IsTrimmable(E[0]) && !IsTrimmable(E[|E| - 1])
    requires V != [] && !IsTrimmable(V[0]) && !IsTrimmable(V[|V| - 1])
    requires C == [] || !IsTrimmable(C[|C| - 1])
    ensures Trim(E + " " + V + " " + C) == E + ([' '] + Trim(V + " " + C))
  {
    if C == [] {
      SerializedTrimmedEnvironmentBare(E, V);
    } else {
      SerializedTrimmedEnvironmentFull(E, V, C);
    }
  }

  lemma SerializedTrimmedEnvironmentFull(E: string, V: string, C: string)
    requires E != [] && !IsTrimmable(E[0]) && !IsTrimmable(E[|E| - 1])
    requires V != [] && !IsTrimmable(V[0])
    requires C != [] && !IsTrimmable(C[|C| - 1])
    ensures Trim(E + " " + V + " " + C) == E + ([' '] + Trim(V + " " + C))
  {
    var w := V + " " + C;
    assert w[0] == V[0] && w[|w| - 1] == C[|C| - 1];
    TrimOfTrimmed(w);
    var line := E + " " + V + " " + C;
    SpacedRegroup(E, V, C);
    assert line[0] == E[0] && line[|line| - 1] == C[|C| - 1];
    TrimOfTrimmed(line);
  }

  lemma SerializedTrimmedEnvironmentBare(E: string, V: string)
    requires E != [] && !IsTrimmable(E[0]) && !IsTrimmable(E[|E| - 1])
    requires V != [] && !IsTrimmable(V[0]) && !IsTrimmable(V[|V| - 1])
    ensures Trim(E + " " + V + " " + "") == E + ([' '] + Trim(V + " " + ""))
  {
    assert forall k :: 0 <= k < |" "| ==> IsTrimmable(" "[k]);
    assert V + " " + "" == V + " ";
    TrimDropsTrailing(V, " ");
    TrimOfTrimmed(V);
    var u := E + ([' '] + V);
    assert E + " " + V + " " + "" == u + " ";
    TrimDropsTrailing(u, " ");
    assert u[0] == E[0] && u[|u| - 1] == V[|V| - 1];
    TrimOfTrimmed(u);
  }

  /**
   * The environment does not survive a round trip: it is read back as the
   * start of the command text.
   */
  lemma UnserializeSerializedEnvironment(x: Entry)
    requires IsExpression(x.expression)
    requires x.environment != "" && Trim(x.environment) == x.environment
    requires Trim(x.command) == x.command
    ensures Unserialized(Blank, Serialized(x)) ==
      Entry(x.expression, "", Trim(x.environment + " " + x.command), false)
  {
    var E, V, C := x.expression, x.environment, x.command;
    ExpressionEnds(E, |E|);
    SerializedTrimmedEnvironment(E, V, C);
    DecomposeExpressionThen(Blank, E, [' '] + Trim(V + " " + C));
    TrimAfterSpace(V + " " + C);
  }

  /** A trimmed expression, one space and a trimmed command, trimmed. */
  lemma SpacedTrimmed(E: string, C: string)
    requires E != [] && !IsTrimmable(E[0]) && !IsTrimmable(E[|E| - 1])
    requires C != [] && !IsTrimmable(C[|C| - 1])
    ensures Trim(E + " " + C) == E + ([' '] + C)
  {
    var line := E + " " + C;
    assert line == E + ([' '] + C);
    assert line[0] == E[0] && line[|line| - 1] == C[|C| - 1];
    TrimOfTrimmed(line);
  }

  /** A trimmed expression and one space, trimmed. */
  lemma SpacedTrimmedBare(E: string)
    requires E != [] && !IsTrimmable(E[0]) && !IsTrimmable(E[|E| - 1])
    ensures Trim(E + " " + "") == E
  {
    assert E + " " + "" == E + " ";
    assert forall k :: 0 <= k < |" "| ==> IsTrimmable(" "[k]);
    TrimDropsTrailing(E, " ");
    TrimOfTrimmed(E);
  }

  /** Parsing "E C" for a whole timing expression E and a trimmed command C splits it into E and C. */
  lemma UnserializeSpaced(E: string, C: string)
    requires IsExpression(E) && Trim(C) == C
    ensures Unserialized(Blank, E + " " + C) == Entry(E, "", C, false)
  {
    ExpressionEnds(E, |E|);
    if C == [] {
      SpacedTrimmedBare(E);
      DecomposeExpression(Blank, E);
    } else {
      SpacedTrimmed(E, C);
      DecomposeExpressionThen(Blank, E, [' '] + C);
      assert ([' '] + C)[1..] == C;
    }
  }

  /**
   * Parsing "E C", then serializing, gives "E  C": the empty environment
   * leaves a double space.
   */
  lemma SerializeUnserialized(E: string, C: string)
    requires IsExpression(E) && Trim(C) == C
    ensures Serialized(Unserialized(Blank, E + " " + C)) == E + "  " + C
  {
    UnserializeSpaced(E, C);
    DoubleSpace(E, C);
  }

  /** Joining around an empty middle by single spaces leaves a double space. */
  lemma DoubleSpace(a: string, c: string)
    ensures a + " " + "" + " " + c == a + "  " + c
  {
    assert a + " " + "" == a + " ";
    assert (a + " ") + " " == a + "  ";
  }

  // "23 */2 * * *" is a timing expression.
  lemma ExampleExpression(E: string)
    requires E == "23 */2 * * *"
    ensures IsExpression(E)
  {
    var L := "23 */2 * * *";
    assert L[..2] == "23";
    assert L[3..6] == "*/2";
    assert L[7..8] == "*" && L[9..10] == "*" && L[11..12] == "*";
    assert InClass("*/2", Hour) && InClass("*", DayOfWeek);
    assert Splits(L, 12, 2, 6, 8, 10);
  }

  // The command text of the repository's example line is already trimmed.
  lemma ExampleCommand(C: string)
    requires C == "echo \"Running at 0:23, 2:23, 4:23 etc.\""
    ensures Trim(C) == C
  {
    TrimOfTrimmed(C);
  }

  // The repository's example line is read as its timing expression and its command text.
  lemma UnserializeExample(line: string)
    requires line == "23 */2 * * *" + " " + "echo \"Running at 0:23, 2:23, 4:23 etc.\""
    ensures Unserialized(Blank, line) == Entry("23 */2 * * *", "", "echo \"Running at 0:23, 2:23, 4:23 etc.\"", false)
  {
    var E, C := "23 */2 * * *", "echo \"Running at 0:23, 2:23, 4:23 etc.\"";
    ExampleExpression(E);
    ExampleCommand(C);
    UnserializeSpaced(E, C);
  }

  // ---------------------------------------------------------------------
  // The object

  /** A crontab command object whose setters and unserialize() update its fields in place. */
  class CrontabCommand {
    var expression: string
    var environment: string
    var command: string
    var isComment: bool

    /** The stored expression is empty or starts with a timing expression. */
    ghost predicate Valid()
      reads this
    {
      ValidEntry(Value())
    }

    function Value(): Entry
      reads this
    {
      Entry(expression, environment, command, isComment)
    }

    constructor ()
      ensures Valid() && Value() == Blank
    {
      expression, environment, command, isComment := "", "", "", false;
    }

    /**
     * setExpression(): accepts a string whose front matches the grammar and
     * stores it trimmed; otherwise throws InvalidArgumentException and
     * keeps the old value.
     */
    method SetExpression(s: string) returns (outcome: Outcome)
      requires Valid()
      modifies this
      ensures Valid()
      ensures outcome == (if Scan(s).Some? then Normal else Threw(InvalidArgumentException))
      ensures expression == (if Scan(s).Some? then Trim(s) else old(expression))
      ensures environment == old(environment) && command == old(command) && isComment == old(isComment)
    {
      if Scan(s).Some? {
        ScanTrim(s);
        expression := Trim(s);
        outcome := Normal;
      } else {
        outcome := Threw(InvalidArgumentException);
      }
    }

    /** setEnvironment(): stores the trimmed argument. */
    method SetEnvironment(s: string)
      requires Valid()
      modifies this
      ensures Valid()
      ensures Value() == old(Value()).(environment := Trim(s))
    {
      environment := Trim(s);
    }

    /** setCommand(): stores the trimmed argument. */
    method SetCommand(s: string)
      requires Valid()
      modifies this
      ensures Valid()
      ensures Value() == old(Value()).(command := Trim(s))
    {
      command := Trim(s);
    }

    /** serialize() and __toString(). */
    function Serialize(): (r: string)
      reads this
      ensures r == Serialized(Value())
    {
      expression + " " + environment + " " + command
    }

    /** unserialize(): decomposes a line through the setters; it never throws. */
    method Unserialize(line: string)
      requires Valid()
      modifies this
      ensures Valid()
      ensures Value() == Unserialized(old(Value()), line)
    {
      ghost var before := Value();
      var t := Trim(line);
      isComment := IsCommentLine(t);
      if !isComment {
        var found := Scan(t);
        if found.Some? {
          SetFields(t, found.value);
          UnserializedMatch(before, line);
        }
      }
    }

    /** The two setter calls unserialize() makes on a line whose trimmed text t matches up to n. */
    method SetFields(t: string, n: nat)
      requires Valid() && Scan(t) == Some(n)
      modifies this
      ensures Valid()
      ensures Value() == old(Value()).(expression := t[..n], command := Trim(Substr(t, n + 1)))
    {
      CapturedIsTrimmedExpression(t);
      var outcome := SetExpression(t[..n]);
      assert outcome == Normal;
      assert expression == t[..n] && |expression| == n;
      var rest := Substr(t, |expression| + 1);
      assert rest == Substr(t, n + 1);
      SetCommand(rest);
    }
  }
}
