/**
 * The cron manager (CronManager.php): a registry of managers keyed by user
 * name, the pending batch of commands, and update(), which merges the batch
 * into the live crontab under an external lock.
 */
module Managers {
  import opened Php
  import opened Sequences
  import opened Commands
  import opened Crontabs

  // ---------------------------------------------------------------------
  // The merge update() performs

  /** The pattern update() deletes by before adding c: c's command text, quoted. */
  function Supersedes(c: Entry): Pattern
  {
    Quoted(c.command)
  }

  /**
   * One turn of update()'s loop: delete what c's command supersedes, then
   * append c. The list grows by at most one, and c ends it.
   */
  function MergeStep(xs: seq<Entry>, c: Entry): (r: seq<Entry>)
    ensures 0 < |r| <= |xs| + 1 && r[|r| - 1] == c
  {
    Filter(xs, Misses(Supersedes(c))) + [c]
  }

  /**
   * The working list after update()'s loop has merged batch into base, in
   * batch order. It is never longer than the baseline and the batch
   * together, and the last pending command ends it.
   */
  function Merged(base: seq<Entry>, batch: seq<Entry>): (r: seq<Entry>)
    ensures |r| <= |base| + |batch|
    ensures batch != [] ==> |r| > 0 && r[|r| - 1] == batch[|batch| - 1]
  {
    if batch == [] then base
    else MergeStep(Merged(base, batch[..|batch| - 1]), batch[|batch| - 1])
  }

  /** e is deleted by none of the commands of batch. */
  predicate Survives(e: Entry, batch: seq<Entry>)
  {
    if batch == [] then true
    else Survives(e, batch[..|batch| - 1]) && !Hit(Supersedes(batch[|batch| - 1]), e)
  }

  /** An entry survives a batch exactly when no command text of the batch occurs in its subject. */
  lemma {:induction false} SurvivesIff(e: Entry, batch: seq<Entry>)
    ensures Survives(e, batch) <==> forall k :: 0 <= k < |batch| ==> !Contains(Subject(e), batch[k].command)
    decreases |batch|
  {
    if batch != [] {
      var init := batch[..|batch| - 1];
      SurvivesIff(e, init);
      assert forall k :: 0 <= k < |init| ==> init[k] == batch[k];
    }
  }

  /** The survivors of a batch. */
  function Surviving(batch: seq<Entry>): Entry -> bool
  {
    e => Survives(e, batch)
  }

  /** The merge invents nothing: every entry of the result comes from the baseline or the batch. */
  lemma {:induction false} MergedOrigin(base: seq<Entry>, batch: seq<Entry>)
    ensures forall e :: e in Merged(base, batch) ==> e in base || e in batch
    decreases |batch|
  {
    if batch != [] {
      var init, c := batch[..|batch| - 1], batch[|batch| - 1];
      MergedOrigin(base, init);
      var prior := Merged(base, init);
      forall e | e in Merged(base, batch)
        ensures e in base || e in batch
      {
        var kept := Filter(prior, Misses(Supersedes(c)));
        assert Merged(base, batch) == kept + [c];
        if e != c {
          assert e in kept;
          var k :| 0 <= k < |kept| && kept[k] == e;
          assert e in prior;
          if e in init {
            var i :| 0 <= i < |init| && init[i] == e;
            assert batch[i] == e;
          }
        }
      }
    }
  }

  /** Deleting from two lists one after the other is deleting from each. */
  lemma MergeStepAppend(a: seq<Entry>, b: seq<Entry>, c: Entry)
    ensures MergeStep(a + b, c) == Filter(a, Misses(Supersedes(c))) + MergeStep(b, c)
  {
    FilterAppend(a, b, Misses(Supersedes(c)));
  }

  /**
   * The merged list is the baseline entries no pending command supersedes,
   * in their original order, followed by what the batch alone merges to.
   */
  lemma {:induction false} MergedSplit(base: seq<Entry>, batch: seq<Entry>)
    ensures Merged(base, batch) == Filter(base, Surviving(batch)) + Merged([], batch)
    decreases |batch|
  {
    if batch == [] {
      assert forall e :: Surviving(batch)(e);
      FilterAll(base, Surviving(batch));
      assert base + [] == base;
    } else {
      var init, c := batch[..|batch| - 1], batch[|batch| - 1];
      MergedSplit(base, init);
      var kept, rest := Filter(base, Surviving(init)), Merged([], init);
      MergeStepAppend(kept, rest, c);
      FilterFilter(base, Surviving(init), Misses(Supersedes(c)), Surviving(batch));
      assert MergeStep(kept + rest, c) == Filter(base, Surviving(batch)) + MergeStep(rest, c);
    }
  }

  /** One more pending command is one more turn of the loop. */
  lemma MergedSnoc(base: seq<Entry>, init: seq<Entry>, c: Entry)
    ensures Merged(base, init + [c]) == MergeStep(Merged(base, init), c)
  {
    var batch := init + [c];
    assert batch[..|batch| - 1] == init && batch[|batch| - 1] == c;
  }

  /** Merging a batch in two parts is merging the first part, then the second. */
  lemma {:induction false} MergedConcat(base: seq<Entry>, a: seq<Entry>, b: seq<Entry>)
    ensures Merged(base, a + b) == Merged(Merged(base, a), b)
    decreases |b|
  {
    if b == [] {
      assert a + b == a;
    } else {
      var init, c := b[..|b| - 1], b[|b| - 1];
      assert b == init + [c];
      assert a + b == (a + init) + [c];
      MergedConcat(base, a, init);
      MergedSnoc(base, a + init, c);
      MergedSnoc(Merged(base, a), init, c);
    }
  }

  /** Every subject contains the empty text, so a pending command with an empty command deletes everything before it. */
  lemma MergeStepEmptyCommand(xs: seq<Entry>, c: Entry)
    requires c.command == ""
    ensures MergeStep(xs, c) == [c]
  {
    var kept := Filter(xs, Misses(Supersedes(c)));
    if kept != [] {
      ContainsEmpty(Subject(kept[0]));
      assert false;
    }
  }

  /** After a pending command with empty command text, only that command and later pending ones' merge remain. */
  lemma MergedEmptyCommand(base: seq<Entry>, batch: seq<Entry>, j: nat)
    requires j < |batch| && batch[j].command == ""
    ensures Merged(base, batch) == Merged([batch[j]], batch[j + 1..])
  {
    var init, c, rest := batch[..j], batch[j], batch[j + 1..];
    assert batch == (init + [c]) + rest;
    MergedConcat(base, init + [c], rest);
    MergedSnoc(base, init, c);
    MergeStepEmptyCommand(Merged(base, init), c);
  }

  /**
   * A comment line, or a line the grammar does not match, read into the
   * batch has empty command text: merging it deletes every entry before it,
   * and it is written back as a line of two spaces.
   */
  lemma MergedUnparsedLine(base: seq<Entry>, line: string)
    requires IsCommentLine(Trim(line)) || Scan(Trim(line)).None?
    ensures Unserialized(Blank, line).command == ""
    ensures Merged(base, [Unserialized(Blank, line)]) == [Unserialized(Blank, line)]
    ensures Serialized(Unserialized(Blank, line)) == "  "
  {
    var x := Unserialized(Blank, line);
    assert x.expression == "" && x.command == "";
    MergedEmptyCommand(base, [x], 0);
    assert [x][1..] == [];
  }

  /**
   * A comment, a VAR=value line or any other line of the live crontab that
   * the grammar does not match is read as a command with three empty
   * strings. Unless a pending command's text is "" or " ", it survives the
   * merge and is written back as a line of two spaces.
   */
  lemma LiveUnparsedLine(line: string, batch: seq<Entry>)
    requires '\n' !in line && HasContent(line)
    requires IsCommentLine(Trim(line)) || Scan(Trim(line)).None?
    requires forall k :: 0 <= k < |batch| ==> batch[k].command != "" && batch[k].command != " "
    ensures Parsed(line) == [Decoded(line)]
    ensures Merged(Parsed(line), batch) == [Decoded(line)] + Merged([], batch)
    ensures Rendered([Decoded(line)]) == "  \n"
  {
    DecodedUnparsed(line);
    ParsedOneLine(line);
    BlankSurvives(Decoded(line), batch);
  }

  /**
   * A line the grammar does not read is decoded to three empty strings,
   * and written back as two spaces and a newline.
   */
  lemma DecodedUnparsed(line: string)
    requires IsCommentLine(Trim(line)) || Scan(Trim(line)).None?
    ensures Decoded(line).expression == "" && Decoded(line).environment == "" && Decoded(line).command == ""
    ensures Rendered([Decoded(line)]) == "  \n"
  {
    TrimIdempotent(line);
    RenderedOne(Decoded(line));
  }

  /** Only "" and " " occur in " ". */
  lemma InSpace(w: string)
    requires Contains(" ", w)
    ensures w == "" || w == " "
  {
    assert " "[1..] == "";
  }

  /** A command with empty strings survives every pending command whose text is neither "" nor " ". */
  lemma BlankSurvives(x: Entry, batch: seq<Entry>)
    requires x.environment == "" && x.command == ""
    requires forall k :: 0 <= k < |batch| ==> batch[k].command != "" && batch[k].command != " "
    ensures Merged([x], batch) == [x] + Merged([], batch)
  {
    assert Subject(x) == " ";
    forall k | 0 <= k < |batch|
      ensures !Contains(Subject(x), batch[k].command)
    {
      if Contains(" ", batch[k].command) {
        InSpace(batch[k].command);
      }
    }
    SurvivesIff(x, batch);
    MergedSplit([x], batch);
    assert Filter([x], Surviving(batch)) == [x];
  }

  // ---------------------------------------------------------------------
  // The external locker

  /**
   * A locker: lock() answers whether the lock was acquired; unlock()
   * releases it. grants is the answer the next lock() gives, decided
   * outside the program; held records whether the lock is taken.
   */
  class Locker {
    var grants: bool
    ghost var held: bool

    constructor (grants: bool)
      ensures this.grants == grants && !held
    {
      this.grants := grants;
      held := false;
    }

    method Lock() returns (acquired: bool)
      modifies this
      ensures acquired == old(grants) && grants == old(grants)
      ensures held == (old(held) || acquired)
    {
      acquired := grants;
      held := held || acquired;
    }

    method Unlock()
      modifies this
      ensures grants == old(grants) && !held
    {
      held := false;
    }
  }

  /** The calls update() makes outside the program, in order. */
  datatype Effect = LockCalled(acquired: bool) | SaveCalled(call: SchedulerCall) | UnlockCalled

  // ---------------------------------------------------------------------
  // The manager

  /** A manager for one user name, holding a pending batch of commands. */
  class CronManager {
    const userName: string
    var currentCrontab: Crontab?
    var locker: Locker?
    var commands: seq<Entry>
    ghost var journal: seq<Effect>

    constructor (userName: string)
      ensures this.userName == userName
      ensures currentCrontab == null && locker == null && commands == [] && journal == []
    {
      this.userName := userName;
      currentCrontab := null;
      locker := null;
      commands := [];
      journal := [];
    }

    /** setLocker() */
    method SetLocker(l: Locker)
      modifies this
      ensures locker == l
      ensures currentCrontab == old(currentCrontab) && commands == old(commands) && journal == old(journal)
    {
      locker := l;
    }

    /** getLocker() */
    function GetLocker(): (l: Locker?)
      reads this
    {
      locker
    }

    /** addCommands(cs): the batch becomes cs, whatever it was before. */
    method AddCommands(cs: seq<Entry>)
      modifies this
      ensures commands == cs
      ensures currentCrontab == old(currentCrontab) && locker == old(locker) && journal == old(journal)
    {
      commands := cs;
    }

    /**
     * add(fileName): the batch becomes the commands parsed from the crontab
     * new Crontab('', fileName) loads; text is what that source holds: the
     * file's contents, or, when fileName is empty() ("" or "0"), the
     * invoking user's live crontab as `crontab -l` prints it; from names
     * which of the two it is.
     */
    method Add(fileName: string, text: string) returns (ghost from: Target)
      modifies this
      ensures commands == Parsed(text)
      ensures from == LoadTarget("", fileName)
      ensures from == (if IsEmpty(fileName) then CurrentUser else File(fileName))
      ensures currentCrontab == old(currentCrontab) && locker == old(locker) && journal == old(journal)
    {
      TrimEmpty("");
      var crontab := new Crontab("", fileName, text);
      commands := crontab.GetAll();
      from := crontab.loadedFrom;
    }

    /**
     * update(): under the lock, loads the invoking user's live crontab
     * (its text is live), merges the batch into it and saves it through
     * `crontab -` (pipeOpens is whether popen() succeeded), then unlocks.
     * A refused lock throws and leaves everything but the journal as it was.
     */
    method Update(live: string, pipeOpens: bool) returns (outcome: Outcome)
      modifies this, locker
      ensures commands == old(commands) && locker == old(locker)
      ensures locker != null ==> locker.grants == old(locker.grants)
      ensures outcome.Normal? <==> locker == null || old(locker.grants)
      ensures outcome.Threw? ==>
        && outcome.exception == RuntimeException("could not acquire update lock")
        && currentCrontab == old(currentCrontab)
        && journal == old(journal) + [LockCalled(false)]
        && locker.held == old(locker.held)
      ensures outcome.Normal? ==>
        && currentCrontab != null && fresh(currentCrontab)
        && currentCrontab.user == "" && currentCrontab.loadedFrom == CurrentUser && currentCrontab.crontab == live
        && currentCrontab.commands == Merged(Parsed(live), commands)
        && (locker == null ==> journal == old(journal) + [SaveCalled(SaveCall("", currentCrontab.commands, pipeOpens))])
        && (locker != null ==>
              journal == old(journal) + [LockCalled(true)] + [SaveCalled(SaveCall("", currentCrontab.commands, pipeOpens))] + [UnlockCalled])
        && (locker != null ==> !locker.held)
    {
      var acquired := true;
      if locker != null {
        acquired := locker.Lock();
        journal := journal + [LockCalled(acquired)];
      }
      if acquired {
        var crontab, call := Rewrite(live, commands, pipeOpens);
        currentCrontab := crontab;
        journal := journal + [SaveCalled(call)];
        if locker != null {
          locker.Unlock();
          journal := journal + [UnlockCalled];
        }
        outcome := Normal;
      } else {
        outcome := Threw(RuntimeException("could not acquire update lock"));
      }
    }
  }

  /**
   * The part of update() between lock() and unlock(): a new Crontab() for
   * the invoking user, the batch merged into it, and save().
   */
  method Rewrite(live: string, batch: seq<Entry>, pipeOpens: bool) returns (crontab: Crontab, call: SchedulerCall)
    ensures fresh(crontab)
    ensures crontab.user == "" && crontab.loadedFrom == CurrentUser && crontab.crontab == live
    ensures crontab.commands == Merged(Parsed(live), batch)
    ensures call == SaveCall("", crontab.commands, pipeOpens)
  {
    crontab := new Crontab("", "", live);
    MergeInto(crontab, batch);
    call := crontab.Save(pipeOpens);
  }

  /** update()'s loop: for each pending command, delete what it supersedes and append it. */
  method MergeInto(crontab: Crontab, batch: seq<Entry>)
    modifies crontab
    ensures crontab.user == old(crontab.user) && crontab.crontab == old(crontab.crontab)
    ensures crontab.loadedFrom == old(crontab.loadedFrom)
    ensures crontab.commands == Merged(old(crontab.commands), batch)
  {
    for i := 0 to |batch|
      invariant crontab.user == old(crontab.user) && crontab.crontab == old(crontab.crontab)
      invariant crontab.loadedFrom == old(crontab.loadedFrom)
      invariant crontab.commands == Merged(old(crontab.commands), batch[..i])
    {
      crontab.Delete(Supersedes(batch[i]));
      crontab.Add(batch[i]);
      assert batch[..i + 1][..i] == batch[..i];
    }
    assert batch[..|batch|] == batch;
  }

  /** The static instance map of getInstance(): one manager per user name. */
  class Registry {
    var instances: map<string, CronManager>

    /** Every manager is registered under its own user name. */
    ghost predicate Valid()
      reads this
    {
      forall u :: u in instances ==> instances[u].userName == u
    }

    constructor ()
      ensures Valid() && instances == map[]
    {
      instances := map[];
    }

    /** getInstance(userName): the manager made on the first call for a user name, on every call for it. */
    method GetInstance(userName: string) returns (m: CronManager)
      requires Valid()
      modifies this
      ensures Valid() && m.userName == userName
      ensures userName in old(instances) ==> m == old(instances)[userName] && instances == old(instances)
      ensures userName !in old(instances) ==>
        && fresh(m) && m.userName == userName
        && m.currentCrontab == null && m.locker == null && m.commands == []
        && instances == old(instances)[userName := m]
      ensures userName in instances && instances[userName] == m
    {
      if userName !in instances {
        var created := new CronManager(userName);
        instances := instances[userName := created];
      }
      m := instances[userName];
    }

    /** Different user names are served by different managers. */
    lemma Distinct(u1: string, u2: string)
      requires Valid() && u1 in instances && u2 in instances && u1 != u2
      ensures instances[u1] != instances[u2]
    {
      assert instances[u1].userName == u1 && instances[u2].userName == u2;
    }
  }
}
