/**
 * The few pieces of PHP's runtime that the crontab toolkit relies on:
 * trim(), explode("\n", ...), empty() on strings, substr() past the end,
 * literal substring search (what a preg_quote'd pattern matches) and the
 * exceptions the toolkit throws.
 */
module Php {

  datatype Option<+T> = None | Some(value: T)

  /** The exceptions the toolkit throws, with the message it passes. */
  datatype Exception =
    | InvalidArgumentException
    | LogicException(message: string)
    | RuntimeException(message: string)

  /** How a call ended: normally, or by throwing. */
  datatype Outcome = Normal | Threw(exception: Exception)

  // ---------------------------------------------------------------------
  // trim()

  /** The characters trim() strips by default: space, \t, \n, \r, \0 and \x0B. */
  predicate IsTrimmable(c: char)
  {
    c == ' ' || c == '\t' || c == '\n' || c == '\r' || c == '\0' || c == '\U{000B}'
  }

  /** trim(): strip trimmable characters from both ends of s. */
  function Trim(s: string): (r: string)
    ensures |r| <= |s|
    ensures r == [] || (!IsTrimmable(r[0]) && !IsTrimmable(r[|r| - 1]))
    decreases |s|
  {
    if |s| == 0 then s
    else if IsTrimmable(s[0]) then Trim(s[1..])
    else if IsTrimmable(s[|s| - 1]) then Trim(s[..|s| - 1])
    else s
  }

  /** A string that neither starts nor ends with a trimmable character is its own trim. */
  lemma TrimOfTrimmed(s: string)
    requires s == [] || (!IsTrimmable(s[0]) && !IsTrimmable(s[|s| - 1]))
    ensures Trim(s) == s
  {
  }

  /** trim() is idempotent. */
  lemma TrimIdempotent(s: string)
    ensures Trim(Trim(s)) == Trim(s)
  {
    TrimOfTrimmed(Trim(s));
  }

  /** trim() yields the empty string exactly for strings made of trimmable characters only. */
  lemma {:induction false} TrimEmpty(s: string)
    ensures Trim(s) == [] <==> forall k :: 0 <= k < |s| ==> IsTrimmable(s[k])
    decreases |s|
  {
    if |s| > 0 {
      if IsTrimmable(s[0]) {
        TrimEmpty(s[1..]);
        assert forall k :: 1 <= k < |s| ==> s[k] == s[1..][k - 1];
      } else if IsTrimmable(s[|s| - 1]) {
        TrimEmpty(s[..|s| - 1]);
        assert s[..|s| - 1][0] == s[0];
      }
    }
  }

  /**
   * Trimming a string that starts with a kept character only cuts its tail,
   * and never cuts into a prefix that ends with a kept character.
   */
  lemma {:induction false} TrimKeepsPrefix(s: string, n: nat)
    requires 0 < n <= |s|
    requires !IsTrimmable(s[0]) && !IsTrimmable(s[n - 1])
    ensures n <= |Trim(s)| && Trim(s) == s[..|Trim(s)|]
    decreases |s|
  {
    if IsTrimmable(s[|s| - 1]) {
      var u := s[..|s| - 1];
      assert u[0] == s[0] && u[n - 1] == s[n - 1];
      TrimKeepsPrefix(u, n);
      assert u[..|Trim(u)|] == s[..|Trim(u)|];
    }
  }

  /** trim() of a string whose first character is a trimmable one. */
  lemma TrimDropsLeading(c: char, s: string)
    requires IsTrimmable(c)
    ensures Trim([c] + s) == Trim(s)
  {
    assert ([c] + s)[0] == c;
    assert ([c] + s)[1..] == s;
  }

  /** trim() of a string followed by one more trimmable character. */
  lemma {:induction false} TrimDropsLast(u: string, c: char)
    requires IsTrimmable(c)
    ensures Trim(u + [c]) == Trim(u)
    decreases |u|
  {
    var s := u + [c];
    if u == [] {
      assert s[1..] == [];
    } else if IsTrimmable(u[0]) {
      assert s[0] == u[0];
      assert s[1..] == u[1..] + [c];
      TrimDropsLast(u[1..], c);
    } else {
      assert s[0] == u[0] && s[|s| - 1] == c;
      assert s[..|s| - 1] == u;
    }
  }

  /** trim() of a string followed by trimmable characters only. */
  lemma {:induction false} TrimDropsTrailing(s: string, tail: string)
    requires forall k :: 0 <= k < |tail| ==> IsTrimmable(tail[k])
    ensures Trim(s + tail) == Trim(s)
    decreases |tail|
  {
    if tail == [] {
      assert s + tail == s;
    } else {
      var u := s + tail[..|tail| - 1];
      assert s + tail == u + [tail[|tail| - 1]];
      TrimDropsTrailing(s, tail[..|tail| - 1]);
      TrimDropsLast(u, tail[|tail| - 1]);
    }
  }

  // ---------------------------------------------------------------------
  // empty() and substr()

  /** empty() on a string: true for "" and for "0". */
  predicate IsEmpty(s: string)
  {
    s == "" || s == "0"
  }

  /** substr(s, start) for a start at or past the end yields the empty string. */
  function Substr(s: string, start: nat): (r: string)
    ensures start <= |s| ==> r == s[start..]
    ensures start >= |s| ==> r == []
  {
    if start <= |s| then s[start..] else []
  }

  /** Cutting one character past a prefix is cutting one character into the rest. */
  lemma SubstrPastPrefix(prefix: string, rest: string)
    ensures Substr(prefix + rest, |prefix| + 1) == Substr(rest, 1)
  {
    if rest != [] {
      assert (prefix + rest)[|prefix| + 1..] == rest[1..];
    }
  }

  /** Cutting a leading space off a trimmed string and trimming again gives it back. */
  lemma TrimAfterSpace(s: string)
    ensures Trim(Substr([' '] + Trim(s), 1)) == Trim(s)
  {
    assert ([' '] + Trim(s))[1..] == Trim(s);
    TrimIdempotent(s);
  }

  /** Cutting one of two leading spaces off a string and trimming leaves its trim. */
  lemma TrimAfterSpaces(s: string)
    ensures Trim(Substr([' '] + ([' '] + s), 1)) == Trim(s)
  {
    assert ([' '] + ([' '] + s))[1..] == [' '] + s;
    TrimDropsLeading(' ', s);
  }

  // ---------------------------------------------------------------------
  // Literal substring search (a pattern built by preg_quote)

  predicate OccursAt(s: string, t: string, i: nat)
  {
    i + |t| <= |s| && s[i..i + |t|] == t
  }

  /** t occurs in s, searched from the front. */
  predicate Contains(s: string, t: string)
    decreases |s|
  {
    (|t| <= |s| && s[..|t|] == t) || (|s| > 0 && Contains(s[1..], t))
  }

  /** The search finds exactly the strings that occur somewhere in s. */
  lemma {:induction false} ContainsIffOccurs(s: string, t: string)
    ensures Contains(s, t) <==> exists i: nat :: OccursAt(s, t, i)
    decreases |s|
  {
    if |t| <= |s| && s[..|t|] == t {
      assert OccursAt(s, t, 0);
    } else if |s| > 0 {
      ContainsIffOccurs(s[1..], t);
      if Contains(s[1..], t) {
        var i: nat :| OccursAt(s[1..], t, i);
        assert s[i + 1..i + 1 + |t|] == s[1..][i..i + |t|];
        assert OccursAt(s, t, i + 1);
      } else {
        forall i: nat | OccursAt(s, t, i)
          ensures false
        {
          assert i != 0;
          assert s[1..][i - 1..i - 1 + |t|] == s[i..i + |t|];
          assert OccursAt(s[1..], t, i - 1);
        }
      }
    }
  }

  /** The empty string occurs in every string. */
  lemma ContainsEmpty(s: string)
    ensures Contains(s, "")
  {
    assert s[..0] == "";
  }

  // ---------------------------------------------------------------------
  // explode("\n", ...)

  /** The inverse of explode: the pieces joined with "\n". */
  function Join(pieces: seq<string>): string
    requires |pieces| >= 1
  {
    if |pieces| == 1 then pieces[0] else pieces[0] + "\n" + Join(pieces[1..])
  }

  /** explode("\n", s): the pieces between newlines, never fewer than one. */
  function Explode(s: string): (r: seq<string>)
    ensures |r| >= 1
    ensures forall k :: 0 <= k < |r| ==> '\n' !in r[k]
    ensures Join(r) == s
    decreases |s|
  {
    if |s| == 0 then [""]
    else
      var rest := Explode(s[1..]);
      if s[0] == '\n' then
        assert ([""] + rest)[1..] == rest;
        [""] + rest
      else
        var r := [[s[0]] + rest[0]] + rest[1..];
        assert r[1..] == rest[1..];
        assert [s[0]] + s[1..] == s;
        r
  }

  /** Splitting on newlines is the unique way to cut a string into newline-free pieces. */
  lemma {:induction false} ExplodeJoin(pieces: seq<string>)
    requires |pieces| >= 1
    requires forall k :: 0 <= k < |pieces| ==> '\n' !in pieces[k]
    ensures Explode(Join(pieces)) == pieces
    decreases |Join(pieces)|
  {
    var s := Join(pieces);
    if |pieces| == 1 {
      if |s| > 0 {
        var p := pieces[0];
        assert s == p && p[0] != '\n';
        ExplodeJoin([p[1..]]);
        assert Join([p[1..]]) == s[1..];
        assert [p[0]] + p[1..] == p;
      }
    } else {
      var p := pieces[0];
      assert s == p + "\n" + Join(pieces[1..]);
      if |p| == 0 {
        assert s[0] == '\n';
        assert s[1..] == Join(pieces[1..]);
        ExplodeJoin(pieces[1..]);
        assert [""] + pieces[1..] == pieces;
      } else {
        var q := [p[1..]] + pieces[1..];
        assert q[1..] == pieces[1..];
        assert Join(q) == p[1..] + "\n" + Join(pieces[1..]);
        assert s[1..] == Join(q);
        assert p[0] != '\n';
        ExplodeJoin(q);
        assert [p[0]] + p[1..] == p;
        assert [p] + pieces[1..] == pieces;
      }
    }
  }

  /** A newline-free first line comes off the front of explode's result. */
  lemma ExplodeLine(line: string, rest: string)
    requires '\n' !in line
    ensures Explode(line + "\n" + rest) == [line] + Explode(rest)
  {
    var pieces := [line] + Explode(rest);
    assert pieces[1..] == Explode(rest);
    assert Join(pieces) == line + "\n" + rest;
    ExplodeJoin(pieces);
  }
}
