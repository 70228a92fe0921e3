/**
 * A crontab (Crontab.php): an ordered list of commands read from the text
 * of a crontab, edited by pattern and written back as text.
 *
 * The text a crontab is loaded from (the output of `crontab -l` or the
 * contents of a file) is a parameter, and saving yields a description of
 * the external call instead of running it.
 */
module Crontabs {
  import opened Php
  import opened Sequences
  import opened Commands

  // ---------------------------------------------------------------------
  // Patterns

  /**
   * A preg pattern tested against a command. Quoted(x) is "!" + preg_quote(x)
   * + "!", which matches exactly the strings containing x; any other pattern
   * a caller passes is taken as the set of strings it matches.
   */
  datatype Pattern = Quoted(text: string) | Regex(matches: string -> bool)

  predicate Matches(p: Pattern, s: string)
  {
    match p
    case Quoted(x) => Contains(s, x)
    case Regex(m) => m(s)
  }

  /**
   * The string delete() and get() test: environment and command joined by a
   * space, so the environment comes first and the command text last.
   */
  function Subject(e: Entry): (r: string)
    ensures |r| == |e.environment| + 1 + |e.command|
    ensures r[..|e.environment|] == e.environment && r[|e.environment|] == ' '
    ensures r[|e.environment| + 1..] == e.command
  {
    e.environment + " " + e.command
  }

  predicate Hit(p: Pattern, e: Entry)
  {
    Matches(p, Subject(e))
  }

  /** The test get() filters by. */
  function Hits(p: Pattern): Entry -> bool
  {
    e => Hit(p, e)
  }

  /** The test delete() filters by. */
  function Misses(p: Pattern): Entry -> bool
  {
    e => !Hit(p, e)
  }

  /** get(p) and delete(p) split a list between them: every command goes to exactly one side. */
  lemma GetDeletePartition(xs: seq<Entry>, p: Pattern)
    ensures |Filter(xs, Hits(p))| + |Filter(xs, Misses(p))| == |xs|
    ensures multiset(Filter(xs, Hits(p))) + multiset(Filter(xs, Misses(p))) == multiset(xs)
  {
    FilterPartition(xs, Hits(p), Misses(p));
  }

  /** Deleting by the same pattern twice is deleting once. */
  lemma DeleteIdempotent(xs: seq<Entry>, p: Pattern)
    ensures Filter(Filter(xs, Misses(p)), Misses(p)) == Filter(xs, Misses(p))
  {
    FilterIdempotent(xs, Misses(p));
  }

  // ---------------------------------------------------------------------
  // Parsing crontab text

  /** A line parse() keeps: one that is not empty() once trimmed. */
  predicate HasContent(line: string)
  {
    !IsEmpty(Trim(line))
  }

  /**
   * What parse() appends for one line: nothing for a line that is empty()
   * once trimmed, otherwise one fresh command unserialized from the trimmed
   * line, which never has an environment.
   */
  function ParseLine(line: string): (r: seq<Entry>)
    ensures |r| == (if HasContent(line) then 1 else 0)
    ensures forall k :: 0 <= k < |r| ==> r[k].environment == ""
  {
    var t := Trim(line);
    if IsEmpty(t) then [] else [Unserialized(Blank, t)]
  }

  /**
   * The commands parse() reads from a crontab text: one per line that has
   * content, none of them with an environment.
   */
  function Parsed(text: string): (r: seq<Entry>)
    ensures |r| == |Filter(Explode(text), HasContent)|
    ensures forall k :: 0 <= k < |r| ==> r[k].environment == ""
  {
    ParsedLines(Explode(text));
    FlatMap(Explode(text), ParseLine)
  }

  /**
   * empty() is true of "0", so a line holding only a zero (around blanks)
   * is skipped like a blank one; any other single character is kept.
   */
  lemma ZeroLineSkipped(line: string)
    requires |Trim(line)| == 1
    ensures ParseLine(line) == [] <==> Trim(line) == "0"
  {
  }

  /** The command parse() makes of a line that has content. */
  function Decoded(line: string): Entry
  {
    Unserialized(Blank, Trim(line))
  }

  /**
   * parse() yields one command per line that has content, in the order of
   * the lines, each unserialized from its trimmed line.
   */
  lemma ParsedLines(lines: seq<string>)
    ensures |FlatMap(lines, ParseLine)| == |Filter(lines, HasContent)|
    ensures forall k :: 0 <= k < |FlatMap(lines, ParseLine)| ==>
      FlatMap(lines, ParseLine)[k] == Decoded(Filter(lines, HasContent)[k])
  {
    FlatMapSingles(lines, ParseLine, HasContent, Decoded);
  }

  /** A text of one line with content is read as one command. */
  lemma ParsedOneLine(line: string)
    requires '\n' !in line && HasContent(line)
    ensures Parsed(line) == [Decoded(line)]
  {
    ExplodeJoin([line]);
    ParsedLines([line]);
    assert Filter([line], HasContent) == [line];
  }

  // ---------------------------------------------------------------------
  // Rendering crontab text

  /**
   * The text save() and saveTo() write: each command serialized and followed
   * by "\n". It is empty exactly for the empty list, and otherwise ends with
   * a newline.
   */
  function Rendered(xs: seq<Entry>): (r: string)
    ensures r == "" <==> xs == []
    ensures xs != [] ==> r[|r| - 1] == '\n'
  {
    if xs == [] then "" else Serialized(xs[0]) + "\n" + Rendered(xs[1..])
  }

  /** A single command is written as its serialized line and a newline. */
  lemma RenderedOne(x: Entry)
    ensures Rendered([x]) == Serialized(x) + "\n"
  {
    assert [x][1..] == [];
  }

  /** The serialized commands, one per line. */
  function Lines(xs: seq<Entry>): (r: seq<string>)
    ensures |r| == |xs|
    ensures forall k :: 0 <= k < |xs| ==> r[k] == Serialized(xs[k])
  {
    if xs == [] then [] else [Serialized(xs[0])] + Lines(xs[1..])
  }

  /** Splitting the rendered text on newlines gives one line per command, then an empty last piece. */
  lemma {:induction false} RenderedLines(xs: seq<Entry>)
    requires forall k :: 0 <= k < |xs| ==> '\n' !in Serialized(xs[k])
    ensures Explode(Rendered(xs)) == Lines(xs) + [""]
    decreases |xs|
  {
    if xs != [] {
      RenderedLines(xs[1..]);
      ExplodeLine(Serialized(xs[0]), Rendered(xs[1..]));
    }
  }

  /**
   * A command that survives a trip through crontab text: no environment, a
   * whole timing expression, a trimmed command, no line break, and not a
   * comment.
   */
  ghost predicate Canonical(x: Entry)
  {
    x.environment == "" && IsExpression(x.expression) &&
    Trim(x.command) == x.command && '\n' !in x.expression && '\n' !in x.command &&
    !x.isComment
  }

  /** A command whose fields hold no line break serializes to a single line. */
  lemma SerializedOneLine(x: Entry)
    requires '\n' !in x.expression && '\n' !in x.environment && '\n' !in x.command
    ensures '\n' !in Serialized(x)
  {
    var line := Serialized(x);
    assert line == x.expression + ([' '] + (x.environment + ([' '] + x.command)));
  }

  /** parse() reads a canonical command back from its own line. */
  lemma ParseSerialized(x: Entry)
    requires Canonical(x)
    ensures ParseLine(Serialized(x)) == [x]
  {
    var t := Trim(Serialized(x));
    UnserializeSerialized(Blank, x);
    ExpressionLength(x.expression);
    TrimIdempotent(Serialized(x));
  }

  /** The empty piece after the last newline adds no command. */
  lemma ParseBlankLine()
    ensures ParseLine("") == []
  {
    assert Trim("") == "";
  }

  /** Round trip: parsing the text written for canonical commands gives the same commands back. */
  lemma ParseRendered(xs: seq<Entry>)
    requires forall k :: 0 <= k < |xs| ==> Canonical(xs[k])
    ensures Parsed(Rendered(xs)) == xs
  {
    var lines := Lines(xs);
    forall k | 0 <= k < |xs|
      ensures '\n' !in Serialized(xs[k]) && ParseLine(lines[k]) == [xs[k]]
    {
      SerializedOneLine(xs[k]);
      ParseSerialized(xs[k]);
    }
    RenderedLines(xs);
    ParseBlankLine();
    FlatMapOnes(lines, "", xs, ParseLine);
  }

  // ---------------------------------------------------------------------
  // Where a crontab is read from and written to

  /** A crontab source or destination: the invoking user's, a named user's, or a file. */
  datatype Target = CurrentUser | User(name: string) | File(name: string)

  /** The crontab of the (trimmed) user name: the invoking user's when the name is empty(). */
  function UserTarget(user: string): Target
  {
    if IsEmpty(user) then CurrentUser else User(user)
  }

  /** load(): a file when its name is not empty(), otherwise the user's crontab. */
  function LoadTarget(user: string, fileName: string): Target
  {
    if IsEmpty(fileName) then UserTarget(user) else File(fileName)
  }

  /** The external call save() makes. */
  datatype SchedulerCall =
    | Install(target: Target, text: string)  // `crontab [-u user] -` fed the text through a pipe
    | PipeFailed(target: Target)             // popen() failed: nothing is written
    | Remove(target: Target)                 // `crontab [-u user] -r`

  /**
   * The call save() makes for a user and a list of commands: always on the
   * user's crontab; a removal exactly for the empty list; an install exactly
   * when the list is not empty and the pipe opens.
   */
  function SaveCall(user: string, xs: seq<Entry>, pipeOpens: bool): (r: SchedulerCall)
    ensures r.target == UserTarget(user)
    ensures r.Remove? <==> xs == []
    ensures r.Install? <==> xs != [] && pipeOpens
    ensures r.Install? ==> r.text == Rendered(xs)
  {
    if xs == [] then Remove(UserTarget(user))
    else if pipeOpens then Install(UserTarget(user), Rendered(xs))
    else PipeFailed(UserTarget(user))
  }

  /** What saveTo() leaves in the file system. */
  datatype FileEffect = Wrote(name: string, text: string) | Untouched

  // ---------------------------------------------------------------------
  // The object

  /** A crontab whose command list add(), delete(), clear() and parse() update in place. */
  class Crontab {
    var user: string
    var crontab: string
    var commands: seq<Entry>
    ghost var loadedFrom: Target

    /**
     * new Crontab(user, fileName): trims the user name and loads the crontab
     * that LoadTarget names; text is what that source holds.
     */
    constructor (user: string, fileName: string, text: string)
      ensures this.user == Trim(user)
      ensures loadedFrom == LoadTarget(Trim(user), fileName)
      ensures crontab == text && commands == Parsed(text)
    {
      this.user := Trim(user);
      crontab := "";
      commands := [];
      loadedFrom := CurrentUser;
      new;
      Load(fileName, text);
    }

    /** load(): keeps the text of the source and parses it. */
    method Load(fileName: string, text: string)
      modifies this
      ensures user == old(user)
      ensures loadedFrom == LoadTarget(user, fileName)
      ensures crontab == text && commands == old(commands) + Parsed(text)
    {
      loadedFrom := LoadTarget(user, fileName);
      crontab := text;
      Parse();
    }

    /** parse(): appends a command for every line of the text that has content. */
    method Parse()
      modifies this
      ensures user == old(user) && crontab == old(crontab) && loadedFrom == old(loadedFrom)
      ensures commands == old(commands) + Parsed(crontab)
    {
      var lines := Explode(crontab);
      for i := 0 to |lines|
        invariant user == old(user) && crontab == old(crontab) && loadedFrom == old(loadedFrom)
        invariant commands == old(commands) + FlatMap(lines[..i], ParseLine)
      {
        var t := Trim(lines[i]);
        if !IsEmpty(t) {
          var c := new CrontabCommand();
          c.Unserialize(t);
          commands := commands + [c.Value()];
        }
        FlatMapPrefix(lines, i, ParseLine);
      }
      assert lines[..|lines|] == lines;
    }

    /** add(): appends one command at the end. */
    method Add(c: Entry)
      modifies this
      ensures user == old(user) && crontab == old(crontab) && loadedFrom == old(loadedFrom)
      ensures commands == old(commands) + [c]
    {
      commands := commands + [c];
    }

    /** delete(p): keeps the commands p does not match, in their order. */
    method Delete(p: Pattern)
      modifies this
      ensures user == old(user) && crontab == old(crontab) && loadedFrom == old(loadedFrom)
      ensures commands == Filter(old(commands), Misses(p))
    {
      commands := Filter(commands, Misses(p));
    }

    /** get(p): the commands p matches; the list is left alone. */
    function Get(p: Pattern): (r: seq<Entry>)
      reads this
      ensures forall e :: e in r <==> e in commands && Hit(p, e)
      ensures |r| + |Filter(commands, Misses(p))| == |commands|
    {
      GetDeletePartition(commands, p);
      assert forall i :: 0 <= i < |commands| && Hit(p, commands[i]) ==> Hits(p)(commands[i]);
      Filter(commands, Hits(p))
    }

    /** getAll(): the whole list. */
    function GetAll(): seq<Entry>
      reads this
    {
      commands
    }

    /** clear(): empties the list. */
    method Clear()
      modifies this
      ensures user == old(user) && crontab == old(crontab) && loadedFrom == old(loadedFrom)
      ensures commands == []
    {
      commands := [];
    }

    /** The foreach loop of save() and saveTo(): one serialized line per command. */
    method WriteAll() returns (text: string)
      ensures text == Rendered(commands)
    {
      text := "";
      assert commands[0..] == commands;
      for i := 0 to |commands|
        invariant text + Rendered(commands[i..]) == Rendered(commands)
      {
        var line := commands[i].expression + " " + commands[i].environment + " " + commands[i].command + "\n";
        assert commands[i..][1..] == commands[i + 1..];
        assert line + Rendered(commands[i + 1..]) == Rendered(commands[i..]);
        text := text + line;
      }
      assert Rendered(commands[|commands|..]) == "";
    }

    /**
     * save(): pipes the rendered list to `crontab -` for the user when the
     * list is not empty (pipeOpens is whether popen() succeeded); removes
     * the user's crontab when it is.
     */
    method Save(pipeOpens: bool) returns (call: SchedulerCall)
      ensures call == SaveCall(user, commands, pipeOpens)
      ensures call.Remove? <==> commands == []
    {
      var target := UserTarget(user);
      if commands != [] {
        if pipeOpens {
          var text := WriteAll();
          call := Install(target, text);
        } else {
          call := PipeFailed(target);
        }
      } else {
        call := Remove(target);
      }
    }

    /**
     * saveTo(fileName): writes the rendered list to the file under an
     * exclusive lock. opens is whether fopen() succeeded and locks whether
     * flock() did. fopen() in "w" mode has already emptied the file when the
     * lock is refused. An empty list writes an empty file.
     */
    method SaveTo(fileName: string, opens: bool, locks: bool) returns (outcome: Outcome, effect: FileEffect)
      ensures outcome.Threw? <==> commands != [] && opens && !locks
      ensures outcome.Threw? ==> outcome.exception == LogicException("file " + fileName + " already locked")
      ensures effect == if commands == [] then Wrote(fileName, "")
        else if !opens then Untouched
        else if locks then Wrote(fileName, Rendered(commands))
        else Wrote(fileName, "")
    {
      if commands != [] {
        if opens {
          if locks {
            var text := WriteAll();
            effect := Wrote(fileName, text);
            outcome := Normal;
          } else {
            effect := Wrote(fileName, "");
            outcome := Threw(LogicException("file " + fileName + " already locked"));
          }
        } else {
          effect := Untouched;
          outcome := Normal;
        }
      } else {
        effect := Wrote(fileName, "");
        outcome := Normal;
      }
    }
  }
}
