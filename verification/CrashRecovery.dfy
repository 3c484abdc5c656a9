/** The crash recovery theorem. */
module CrashRecovery {
  import opened Common
  import opened Keys
  import opened IdFormats
  import opened Store
  import opened Agreement
  import opened Tables
  import opened Journals
  import opened Recovery
  import opened SnapshotLoading
  import opened LogTails

  // ---------- runs ----------

  /** What the journal was when the last snapshot was taken, and what has been logged since. */
  datatype Mark = Mark(base: Table, cut: nat, tail: Stretch)

  const EMPTY_MARK := Mark(EMPTY_TABLE, 0, Empty)

  function NextMark(fm: Formats, s: System, m: Mark, c: Command): Mark {
    match c
    case TakeSnapshot(_, _) => Mark(s.table, s.journal.sequence, Empty)
    case Call(op, now, disk) =>
      if Writes(fm, s.table, op, now) && disk
      then m.(tail := Then(m.tail, s.journal.sequence + 1, EntryFor(op, now)))
      else m
  }

  function MarkOf(fm: Formats, commands: seq<Command>): Mark {
    if commands == [] then EMPTY_MARK
    else
      var front := commands[..|commands| - 1];
      NextMark(fm, Run(fm, front), MarkOf(fm, front), commands[|commands| - 1])
  }

  /** What every command keeps: snapshot and tail are in the journal, and no more is stored than was ever logged. */
  ghost predicate Balanced(fm: Formats, s: System, m: Mark) {
    && m.cut <= s.journal.sequence
    && JournalHolds(fm, s.journal, m.base, m.cut, m.tail)
    && Replayable(fm, s.table)
    && Size(s.table) <= s.journal.sequence
  }

  /** What every command keeps besides while none loses anything: the journal gives the store. */
  ghost predicate Tracked(fm: Formats, s: System, m: Mark) {
    IdsDiffer(s.table) && TailGives(fm, m.base, OpsIn(m.tail), s.table)
  }

  /** Replaying the tail on base gives t, whatever the clock reads. */
  ghost predicate TailGives(fm: Formats, base: Table, tail: seq<Op>, t: Table) {
    forall moments: seq<Moment> {:trigger GivesAt(fm, base, tail, t, moments)} :: |moments| == |tail| ==>
        GivesAt(fm, base, tail, t, moments)
  }

  ghost predicate GivesAt(fm: Formats, base: Table, tail: seq<Op>, t: Table, moments: seq<Moment>)
    requires |moments| == |tail|
  {
    Same(ReplayAll(fm, base, tail, moments), t)
  }

  lemma SilentLeaves(fm: Formats, t: Table, op: Op, now: int)
    requires !Writes(fm, t, op, now)
    ensures Perform(fm, t, op, now).0 == t
  {
    if op.OpTruncateType? && op.typ in t.definitions {
      assert forall key :: key in t.entities ==> !OfType(t.entities, key, op.typ);
      assert TruncateType(t, op.typ).0.entities == t.entities;
    }
  }

  /** One call adds at most one definition or entity. */
  lemma CallGrowsByOne(fm: Formats, t: Table, op: Op, now: int)
    ensures Size(Perform(fm, t, op, now).0) <= Size(t) + 1
  {
    var t' := Perform(fm, t, op, now).0;
    if op.OpRegister? {
      assert t'.definitions.Keys <= t.definitions.Keys + {op.def.name};
      CardinalitySubset(t'.definitions.Keys, t.definitions.Keys + {op.def.name});
    } else {
      var key := CreateKey(TypeOf(op), IdOf(op));
      assert t'.entities.Keys <= t.entities.Keys + {key} by { KeysAfterCall(fm, t, op, now); }
      CardinalitySubset(t'.entities.Keys, t.entities.Keys + {key});
    }
  }

  lemma KeysAfterCall(fm: Formats, t: Table, op: Op, now: int)
    requires !op.OpRegister?
    ensures var t' := Perform(fm, t, op, now).0;
            t'.definitions == t.definitions && t'.entities.Keys <= t.entities.Keys + {CreateKey(TypeOf(op), IdOf(op))}
  {
    match op
    case OpInsert(typ, id, data) =>
      var error := InsertError(fm, t, typ, id, Stamped(data, now));
    case OpUpdate(typ, id, data) =>
      var error := UpdateError(fm, t, typ, id, Restamped(data, now));
    case _ =>
  }

  lemma {:induction false} CardinalitySubset(a: set<string>, b: set<string>)
    requires a <= b
    ensures |a| <= |b|
  {
    assert b == a + (b - a);
  }

  lemma CallKeepsIdsDiffer(fm: Formats, t: Table, op: Op, now: int)
    requires WellFormed(t) && IdsDiffer(t) && OpOk(op)
    requires op.OpInsert? && Writes(fm, t, op, now) ==> !GetFinds(t.entities.Keys, op.id)
    ensures IdsDiffer(Perform(fm, t, op, now).0)
  {
    if op.OpInsert? && Writes(fm, t, op, now) {
      forall key | key in t.entities ensures t.entities[key].id != op.id {
        if t.entities[key].id == op.id { GetFindsLive(t, key); }
      }
    }
  }

  lemma WrittenIdNonEmpty(fm: Formats, t: Table, op: Op, now: int)
    requires Writes(fm, t, op, now)
    ensures op.OpInsert? ==> op.id != ""
  {
    if op.OpInsert? { ValidIdNonEmpty(t.definitions[op.typ].idGenerator, op.id); }
  }

  lemma TailAfterCall(fm: Formats, t: Table, base: Table, tail: seq<Op>, op: Op, now: int)
    requires Replayable(fm, t) && IdsDiffer(t) && TailGives(fm, base, tail, t)
    requires OpOk(op) && Writes(fm, t, op, now) && !ReusesId(fm, t, op, now)
    ensures TailGives(fm, base, tail + [EntryFor(op, now)], Perform(fm, t, op, now).0)
  {
    var entry := EntryFor(op, now);
    WrittenIdNonEmpty(fm, t, op, now);
    EntryRecorded(op, now);
    forall moments: seq<Moment> | |moments| == |tail + [entry]|
      ensures GivesAt(fm, base, tail + [entry], Perform(fm, t, op, now).0, moments)
    {
      TailStep(fm, t, base, tail, entry, moments);
      ReplayRepeats(fm, t, op, now, moments[|tail|]);
      SameTrans(ReplayAll(fm, base, tail + [entry], moments), Replay(fm, t, entry, moments[|tail|]),
          Perform(fm, t, op, now).0);
    }
  }

  lemma StepFrom(fm: Formats, r: Table, t: Table, entry: Op, m: Moment)
    requires Same(r, t) && CleanDefs(t) && Recorded(entry)
    ensures Same(Replay(fm, r, entry, m), Replay(fm, t, entry, m))
  {
    SameReplay(fm, r, t, entry, m);
  }

  /** Replaying one more entry on the replayed tail does what replaying it on the live store would do. */
  lemma TailStep(fm: Formats, t: Table, base: Table, tail: seq<Op>, entry: Op, moments: seq<Moment>)
    requires TailGives(fm, base, tail, t) && CleanDefs(t) && Recorded(entry) && |moments| == |tail| + 1
    ensures Same(ReplayAll(fm, base, tail + [entry], moments), Replay(fm, t, entry, moments[|tail|]))
  {
    var n := |tail|;
    assert (tail + [entry])[..n] == tail;
    assert GivesAt(fm, base, tail, t, moments[..n]);
    StepFrom(fm, ReplayAll(fm, base, tail, moments[..n]), t, entry, moments[n]);
  }

  lemma SameRefl(t: Table)
    ensures Same(t, t)
  {
  }

  /** A call that writes appends its entry, or only uses up a sequence number when the write fails. */
  lemma LogAfterCall(j: Journal, cut: nat, tail: Stretch, op: Op, now: int, disk: bool)
    requires LogHolds(j, cut, tail) && cut <= j.sequence && OpOk(op) && (op.OpInsert? ==> op.id != "")
    ensures LogHolds(Attempted(j, EntryFor(op, now), disk), cut,
        if disk then Then(tail, j.sequence + 1, EntryFor(op, now)) else tail)
  {
    EntryRecorded(op, now);
    LaterIsRising(tail, cut, j.sequence, j.sequence + 1);
  }

  /** The store and the journal after a call that writes. */
  lemma WriteStep(fm: Formats, s: System, m: Mark, op: Op, now: int, disk: bool)
    requires Writes(fm, s.table, op, now)
    ensures var s' := Step(fm, s, Call(op, now, disk));
            && s'.journal == Attempted(s.journal, EntryFor(op, now), disk)
            && (disk || StaysUnlogged(fm, s.table, op, now) ==> s'.table == Perform(fm, s.table, op, now).0)
            && (!disk && !StaysUnlogged(fm, s.table, op, now) ==> s'.table == s.table)
    ensures NextMark(fm, s, m, Call(op, now, disk)) ==
            m.(tail := if disk then Then(m.tail, s.journal.sequence + 1, EntryFor(op, now)) else m.tail)
  {
  }

  lemma SilentStep(fm: Formats, s: System, m: Mark, op: Op, now: int, disk: bool)
    requires !Writes(fm, s.table, op, now)
    ensures Step(fm, s, Call(op, now, disk)) == s && NextMark(fm, s, m, Call(op, now, disk)) == m
  {
    SilentLeaves(fm, s.table, op, now);
  }

  lemma TableAfterCall(fm: Formats, s: System, op: Op, now: int, disk: bool)
    requires Replayable(fm, s.table) && Size(s.table) <= s.journal.sequence && OpOk(op) && Writes(fm, s.table, op, now)
    ensures var s' := Step(fm, s, Call(op, now, disk));
            Replayable(fm, s'.table) && Size(s'.table) <= s'.journal.sequence
  {
    ExecuteKeepsReplayable(fm, s.table, op, now);
    CallGrowsByOne(fm, s.table, op, now);
  }

  lemma LogStep(fm: Formats, s: System, m: Mark, op: Op, now: int, disk: bool)
    requires LogHolds(s.journal, m.cut, m.tail) && m.cut <= s.journal.sequence && OpOk(op)
    requires Writes(fm, s.table, op, now)
    ensures LogHolds(Step(fm, s, Call(op, now, disk)).journal, m.cut, NextMark(fm, s, m, Call(op, now, disk)).tail)
  {
    WrittenIdNonEmpty(fm, s.table, op, now);
    WriteStep(fm, s, m, op, now, disk);
    LogAfterCall(s.journal, m.cut, m.tail, op, now, disk);
  }

  lemma BalancedCall(fm: Formats, s: System, m: Mark, op: Op, now: int, disk: bool)
    requires Balanced(fm, s, m) && OpOk(op) && Writes(fm, s.table, op, now)
    ensures Balanced(fm, Step(fm, s, Call(op, now, disk)), NextMark(fm, s, m, Call(op, now, disk)))
  {
    var s', m' := Step(fm, s, Call(op, now, disk)), NextMark(fm, s, m, Call(op, now, disk));
    LogStep(fm, s, m, op, now, disk);
    TableAfterCall(fm, s, op, now, disk);
    WriteStep(fm, s, m, op, now, disk);
    MakeBalanced(fm, s', m');
  }

  lemma MakeBalanced(fm: Formats, s: System, m: Mark)
    requires SnapshotHolds(fm, s.journal.snapshot, m.base, m.cut) && LogHolds(s.journal, m.cut, m.tail)
    requires m.cut <= s.journal.sequence && Replayable(fm, s.table) && Size(s.table) <= s.journal.sequence
    ensures Balanced(fm, s, m)
  {
  }

  /** A snapshot empties the log: every logged sequence number lies before its timestamp. */
  lemma SnapshotPrunesAll(wal: Wal, cut: nat, tail: Stretch, last: nat, timestamp: nat)
    requires wal == LogOf(tail) && Rising(tail, cut, last) && last <= timestamp
    ensures Pruned(wal, timestamp) == map[]
  {
    LogHoldsEntries(tail, cut, last);
  }

  lemma DumpStep(s: System, cut: nat, tail: Stretch, timestamp: nat, items: seq<DumpItem>, s': System)
    requires LogHolds(s.journal, cut, tail) && s.journal.sequence <= timestamp
    requires s' == System(s.table, Journal(s.journal.sequence, Pruned(s.journal.wal, timestamp), Some(items)))
    ensures LogHolds(s'.journal, s.journal.sequence, Empty)
  {
    SnapshotPrunesAll(s.journal.wal, cut, tail, s.journal.sequence, timestamp);
  }

  lemma BalancedDump(fm: Formats, s: System, m: Mark, timestamp: nat, items: seq<DumpItem>)
    requires Balanced(fm, s, m) && CommandOk(s, TakeSnapshot(timestamp, items))
    ensures Balanced(fm, Step(fm, s, TakeSnapshot(timestamp, items)), Mark(s.table, s.journal.sequence, Empty))
  {
    var s' := Step(fm, s, TakeSnapshot(timestamp, items));
    DumpStep(s, m.cut, m.tail, timestamp, items, s');
    MakeBalanced(fm, s', Mark(s.table, s.journal.sequence, Empty));
  }

  /**
   * Every command of any kind keeps the balance: one sequence number per definition or entity added, whether or not
   * its log write succeeds, and a snapshot empties the log.
   */
  lemma BalancedStep(fm: Formats, s: System, m: Mark, c: Command)
    requires Balanced(fm, s, m) && CommandOk(s, c)
    ensures Balanced(fm, Step(fm, s, c), NextMark(fm, s, m, c))
  {
    match c
    case TakeSnapshot(timestamp, items) => BalancedDump(fm, s, m, timestamp, items);
    case Call(op, now, disk) =>
      if Writes(fm, s.table, op, now) {
        BalancedCall(fm, s, m, op, now, disk);
      } else {
        SilentStep(fm, s, m, op, now, disk);
      }
  }

  lemma NothingToReplay(fm: Formats, t: Table)
    ensures TailGives(fm, t, [], t)
  {
    forall moments: seq<Moment> | |moments| == 0 ensures GivesAt(fm, t, [], t, moments) {
      SameRefl(t);
    }
  }

  lemma TrackedCall(fm: Formats, s: System, m: Mark, op: Op, now: int, disk: bool)
    requires Balanced(fm, s, m) && Tracked(fm, s, m) && OpOk(op) && !Loses(fm, s, Call(op, now, disk))
    requires Writes(fm, s.table, op, now)
    ensures Tracked(fm, Step(fm, s, Call(op, now, disk)), NextMark(fm, s, m, Call(op, now, disk)))
  {
    WriteStep(fm, s, m, op, now, disk);
    if disk {
      CallKeepsIdsDiffer(fm, s.table, op, now);
      TailAfterCall(fm, s.table, m.base, OpsIn(m.tail), op, now);
    }
  }

  /** Every command that loses nothing also keeps the store recoverable. */
  lemma TrackedStep(fm: Formats, s: System, m: Mark, c: Command)
    requires Balanced(fm, s, m) && Tracked(fm, s, m) && CommandOk(s, c) && !Loses(fm, s, c)
    ensures Tracked(fm, Step(fm, s, c), NextMark(fm, s, m, c))
  {
    match c
    case TakeSnapshot(timestamp, items) => NothingToReplay(fm, s.table);
    case Call(op, now, disk) =>
      if Writes(fm, s.table, op, now) {
        TrackedCall(fm, s, m, op, now, disk);
      } else {
        SilentStep(fm, s, m, op, now, disk);
      }
  }

  lemma TrackedRecovers(fm: Formats, s: System, base: Table, cut: nat, tail: Stretch)
    requires JournalHolds(fm, s.journal, base, cut, tail) && TailGives(fm, base, OpsIn(tail), s.table)
    ensures RecoversExactly(fm, s)
  {
    forall loadNows: seq<int>, entries, transactions, moments: seq<Moment>
      ensures Rebuilds(fm, s, loadNows, entries, transactions, moments)
    {
      if StartUp(fm, s.journal, loadNows, entries, transactions, moments) {
        var last := RecoveryReplaysTail(fm, s.journal, base, cut, tail, loadNows, entries, transactions, moments);
        assert GivesAt(fm, base, OpsIn(tail), s.table, last);
        SameTrans(Recovered(fm, s.journal, loadNows, entries, transactions, moments),
            ReplayAll(fm, base, OpsIn(tail), last), s.table);
      }
    }
  }

  /** Some start-up is always possible. */
  lemma SomeStartUp(fm: Formats, j: Journal, base: Table, cut: nat, tail: Stretch)
      returns (loadNows: seq<int>, entries: Entries)
    requires JournalHolds(fm, j, base, cut, tail)
    ensures j.snapshot.Some? ==> |loadNows| == |j.snapshot.value|
    ensures LoadOrder(Booted(fm, j, loadNows).journal.wal, entries) && TransactionOrder(entries, [])
  {
    loadNows := if j.snapshot.Some? then seq(|j.snapshot.value|, _ => 0) else [];
    var relogged := BootedState(fm, j, base, cut, tail, loadNows);
    entries := ReadBack(relogged, tail);
    ReadBackIsLoadOrder(relogged, cut, tail, j.sequence);
    ReadBackIsPlain(relogged, tail);
  }

  lemma ReadBackIsPlain(relogged: seq<Op>, tail: Stretch)
    ensures TransactionOrder(ReadBack(relogged, tail), [])
  {
    PlainOps(FromOne(relogged));
    PlainOps(tail);
  }

  lemma ExactGivesTail(fm: Formats, s: System, base: Table, cut: nat, tail: Stretch)
      returns (t: Table, last: seq<Moment>)
    requires JournalHolds(fm, s.journal, base, cut, tail) && RecoversExactly(fm, s)
    ensures |last| == |OpsIn(tail)| && Same(t, ReplayAll(fm, base, OpsIn(tail), last)) && Same(t, s.table)
  {
    var loadNows, entries := SomeStartUp(fm, s.journal, base, cut, tail);
    var moments := seq(|Handed(entries, [])|, _ => Moment(0, ""));
    assert Rebuilds(fm, s, loadNows, entries, [], moments);
    last := RecoveryReplaysTail(fm, s.journal, base, cut, tail, loadNows, entries, [], moments);
    t := Recovered(fm, s.journal, loadNows, entries, [], moments);
  }

  lemma ReplayMissesReuse(fm: Formats, t: Table, base: Table, tail: seq<Op>, op: Op, now: int, moments: seq<Moment>)
    requires TailGives(fm, base, tail, t) && CleanDefs(t) && OpOk(op) && ReusesId(fm, t, op, now)
    requires |moments| == |tail| + 1
    ensures CreateKey(op.typ, op.id) !in ReplayAll(fm, base, tail + [EntryFor(op, now)], moments).entities
    ensures CreateKey(op.typ, op.id) in Perform(fm, t, op, now).0.entities
  {
    WrittenIdNonEmpty(fm, t, op, now);
    EntryRecorded(op, now);
    TailStep(fm, t, base, tail, EntryFor(op, now), moments);
    ReusedIdIsDropped(fm, t, op, now, moments[|tail|]);
  }

  /** A crash right after an insert that reused a live bare id loses that insert. */
  lemma ReuseIsLost(fm: Formats, s: System, m: Mark, op: Op, now: int)
    requires Balanced(fm, s, m) && Tracked(fm, s, m) && OpOk(op) && ReusesId(fm, s.table, op, now)
    ensures !RecoversExactly(fm, Step(fm, s, Call(op, now, true)))
  {
    var s', m' := Step(fm, s, Call(op, now, true)), NextMark(fm, s, m, Call(op, now, true));
    BalancedCall(fm, s, m, op, now, true);
    if RecoversExactly(fm, s') {
      var t, last := ExactGivesTail(fm, s', m'.base, m'.cut, m'.tail);
      WriteStep(fm, s, m, op, now, true);
      ReplayMissesReuse(fm, s.table, m.base, OpsIn(m.tail), op, now, last);
      assert false;
    }
  }

  /** A truncate that writes removes some entity. */
  lemma TruncateRemoves(fm: Formats, t: Table, op: Op, now: int) returns (key: string)
    requires StaysUnlogged(fm, t, op, now)
    ensures key in t.entities && key !in Perform(fm, t, op, now).0.entities
  {
    if op.OpTruncateType? {
      key :| key in t.entities && OfType(t.entities, key, op.typ);
    } else {
      key :| key in t.entities;
    }
  }

  /** A crash right after a truncate whose log write failed brings back what it removed. */
  lemma UnloggedIsLost(fm: Formats, s: System, m: Mark, op: Op, now: int)
    requires Balanced(fm, s, m) && Tracked(fm, s, m) && OpOk(op) && StaysUnlogged(fm, s.table, op, now)
    ensures !RecoversExactly(fm, Step(fm, s, Call(op, now, false)))
  {
    var s', m' := Step(fm, s, Call(op, now, false)), NextMark(fm, s, m, Call(op, now, false));
    BalancedCall(fm, s, m, op, now, false);
    if RecoversExactly(fm, s') {
      var t, last := ExactGivesTail(fm, s', m'.base, m'.cut, m'.tail);
      WriteStep(fm, s, m, op, now, false);
      assert GivesAt(fm, m.base, OpsIn(m.tail), s.table, last);
      var key := TruncateRemoves(fm, s.table, op, now);
      assert false;
    }
  }

  lemma LossIsFelt(fm: Formats, s: System, m: Mark, c: Command)
    requires Balanced(fm, s, m) && Tracked(fm, s, m) && CommandOk(s, c) && Loses(fm, s, c)
    ensures !RecoversExactly(fm, Step(fm, s, c))
  {
    if c.disk { ReuseIsLost(fm, s, m, c.op, c.now); }
    else { UnloggedIsLost(fm, s, m, c.op, c.now); }
  }

  lemma RunStep(fm: Formats, commands: seq<Command>, n: nat)
    requires n < |commands|
    ensures Run(fm, commands[..n + 1]) == Step(fm, Run(fm, commands[..n]), commands[n])
    ensures MarkOf(fm, commands[..n + 1]) == NextMark(fm, Run(fm, commands[..n]), MarkOf(fm, commands[..n]),
        commands[n])
  {
    assert commands[..n + 1][..n] == commands[..n];
  }

  lemma LegalCommand(fm: Formats, commands: seq<Command>, n: nat)
    requires Legal(fm, commands) && n < |commands|
    ensures CommandOk(Run(fm, commands[..n]), commands[n])
  {
  }

  lemma BalancedNext(fm: Formats, commands: seq<Command>, n: nat)
    requires n < |commands| && CommandOk(Run(fm, commands[..n]), commands[n])
    requires Balanced(fm, Run(fm, commands[..n]), MarkOf(fm, commands[..n]))
    ensures Balanced(fm, Run(fm, commands[..n + 1]), MarkOf(fm, commands[..n + 1]))
  {
    RunStep(fm, commands, n);
    BalancedStep(fm, Run(fm, commands[..n]), MarkOf(fm, commands[..n]), commands[n]);
  }

  lemma EmptyIsBalanced(fm: Formats)
    ensures Balanced(fm, FRESH_SYSTEM, EMPTY_MARK)
  {
  }

  /** In every legal run definitions and entities never outnumber the log entries ever written. */
  lemma {:induction false} RunIsBalanced(fm: Formats, commands: seq<Command>, n: nat)
    requires Legal(fm, commands) && n <= |commands|
    ensures Balanced(fm, Run(fm, commands[..n]), MarkOf(fm, commands[..n]))
  {
    if n == 0 {
      EmptyIsBalanced(fm);
    } else {
      RunIsBalanced(fm, commands, n - 1);
      LegalCommand(fm, commands, n - 1);
      BalancedNext(fm, commands, n - 1);
    }
  }

  /**
   * After a crash anywhere in any legal run, the entries re-logged while the snapshot loads collide with no surviving
   * entry and come before all of them, and replaying them changes nothing.
   */
  lemma ReloggedEntriesAreHarmless(fm: Formats, commands: seq<Command>, n: nat, loadNows: seq<int>, entries: Entries)
    returns (relogged: seq<Op>)
    requires Legal(fm, commands) && n <= |commands|
    requires var disk := Run(fm, commands[..n]).journal;
             && (disk.snapshot.Some? ==> |loadNows| == |disk.snapshot.value|)
             && LoadOrder(Booted(fm, disk, loadNows).journal.wal, entries)
    ensures var m, booted := MarkOf(fm, commands[..n]), Booted(fm, Run(fm, commands[..n]).journal, loadNows);
            && |relogged| <= m.cut
            && booted.journal.wal == LogOf(m.tail) + LogOf(FromOne(relogged))
            && entries == ReadBack(relogged, m.tail)
            && forall moments: seq<Moment> :: |moments| == |relogged| ==>
                ReplayAll(fm, booted.table, relogged, moments) == booted.table
  {
    RunIsBalanced(fm, commands, n);
    var m, disk := MarkOf(fm, commands[..n]), Run(fm, commands[..n]).journal;
    relogged := BootedState(fm, disk, m.base, m.cut, m.tail, loadNows);
    LoadOrderIsReadBack(relogged, m.cut, m.tail, disk.sequence, entries);
    var t := Booted(fm, disk, loadNows).table;
    forall moments: seq<Moment> | |moments| == |relogged| ensures ReplayAll(fm, t, relogged, moments) == t {
      SkipAll(fm, t, relogged, moments);
    }
  }

  lemma EmptyIsTracked(fm: Formats)
    ensures Tracked(fm, FRESH_SYSTEM, EMPTY_MARK)
  {
    forall moments: seq<Moment> | |moments| == 0 ensures GivesAt(fm, EMPTY_TABLE, [], EMPTY_TABLE, moments) {
      SameRefl(EMPTY_TABLE);
    }
  }

  /** Command i leaves the store without a trace in the log. */
  ghost predicate LosesAt(fm: Formats, commands: seq<Command>, i: nat)
    requires i < |commands|
  {
    Loses(fm, Run(fm, commands[..i]), commands[i])
  }

  /** None of the commands from k to n does. */
  ghost predicate NoLoss(fm: Formats, commands: seq<Command>, k: nat, n: nat)
    requires k <= n <= |commands|
  {
    forall i {:trigger LosesAt(fm, commands, i)} :: k <= i < n ==> !LosesAt(fm, commands, i)
  }

  ghost predicate TrackedAt(fm: Formats, commands: seq<Command>, n: nat)
    requires n <= |commands|
  {
    Tracked(fm, Run(fm, commands[..n]), MarkOf(fm, commands[..n]))
  }

  lemma TrackedNext(fm: Formats, commands: seq<Command>, n: nat)
    requires Legal(fm, commands) && n < |commands| && !LosesAt(fm, commands, n) && TrackedAt(fm, commands, n)
    ensures TrackedAt(fm, commands, n + 1)
  {
    RunIsBalanced(fm, commands, n);
    LegalCommand(fm, commands, n);
    RunStep(fm, commands, n);
    TrackedStep(fm, Run(fm, commands[..n]), MarkOf(fm, commands[..n]), commands[n]);
  }

  /** The first k commands end with a snapshot. */
  predicate JustDumped(commands: seq<Command>, k: nat)
    requires k <= |commands|
  {
    k > 0 && commands[k - 1].TakeSnapshot?
  }

  /** Whatever was lost before k no longer matters: nothing has happened, or a snapshot found all bare ids different. */
  ghost predicate CleanSlate(fm: Formats, commands: seq<Command>, k: nat)
    requires k <= |commands|
  {
    k == 0 || (JustDumped(commands, k) && IdsDiffer(Run(fm, commands[..k]).table))
  }

  lemma DumpedMark(fm: Formats, commands: seq<Command>, k: nat)
    requires k <= |commands| && JustDumped(commands, k)
    ensures MarkOf(fm, commands[..k]) ==
            Mark(Run(fm, commands[..k]).table, Run(fm, commands[..k]).journal.sequence, Empty)
  {
    RunStep(fm, commands, k - 1);
  }

  lemma CleanSlateIsTracked(fm: Formats, commands: seq<Command>, k: nat)
    requires Legal(fm, commands) && k <= |commands| && CleanSlate(fm, commands, k)
    ensures TrackedAt(fm, commands, k)
  {
    if k == 0 {
      EmptyIsTracked(fm);
    } else {
      DumpedMark(fm, commands, k);
      NothingToReplay(fm, Run(fm, commands[..k]).table);
    }
  }

  lemma NoLossBefore(fm: Formats, commands: seq<Command>, k: nat, n: nat)
    requires k < n <= |commands| && NoLoss(fm, commands, k, n)
    ensures NoLoss(fm, commands, k, n - 1) && !LosesAt(fm, commands, n - 1)
  {
  }

  lemma {:induction false} RunIsTracked(fm: Formats, commands: seq<Command>, k: nat, n: nat)
    requires Legal(fm, commands) && k <= n <= |commands|
    requires CleanSlate(fm, commands, k) && NoLoss(fm, commands, k, n)
    ensures TrackedAt(fm, commands, n)
    decreases n
  {
    if n == k {
      CleanSlateIsTracked(fm, commands, k);
    } else {
      NoLossBefore(fm, commands, k, n);
      RunIsTracked(fm, commands, k, n - 1);
      TrackedNext(fm, commands, n - 1);
    }
  }

  /** Right after a snapshot recovery is exact, whatever the run lost before. */
  lemma SnapshotRecovers(fm: Formats, commands: seq<Command>, n: nat)
    requires Legal(fm, commands) && n <= |commands| && JustDumped(commands, n)
    ensures RecoversExactly(fm, Run(fm, commands[..n]))
  {
    var s := Run(fm, commands[..n]);
    RunIsBalanced(fm, commands, n);
    DumpedMark(fm, commands, n);
    NothingToReplay(fm, s.table);
    TrackedRecovers(fm, s, s.table, s.journal.sequence, Empty);
  }

  lemma RunRecovers(fm: Formats, commands: seq<Command>, k: nat, n: nat)
    requires Legal(fm, commands) && k <= n <= |commands|
    requires CleanSlate(fm, commands, k) && NoLoss(fm, commands, k, n)
    ensures RecoversExactly(fm, Run(fm, commands[..n]))
  {
    var m := MarkOf(fm, commands[..n]);
    RunIsTracked(fm, commands, k, n);
    RunIsBalanced(fm, commands, n);
    TrackedRecovers(fm, Run(fm, commands[..n]), m.base, m.cut, m.tail);
  }

  /**
   * From the beginning of a run, or from a snapshot that found all bare ids different, recovery is exact at every
   * crash point if and only if no later insert succeeds while its bare id is live under another type and no later
   * truncate removes something while its log write fails.
   */
  lemma RecoveryIsExactSince(fm: Formats, commands: seq<Command>, k: nat)
    requires Legal(fm, commands) && k <= |commands| && CleanSlate(fm, commands, k)
    ensures (forall n :: k <= n <= |commands| ==> RecoversExactly(fm, Run(fm, commands[..n])))
       <==> NoLoss(fm, commands, k, |commands|)
  {
    if i :| k <= i < |commands| && LosesAt(fm, commands, i) {
      var first := FirstLoss(fm, commands, k, i);
      RunIsTracked(fm, commands, k, first);
      RunIsBalanced(fm, commands, first);
      LegalCommand(fm, commands, first);
      LossIsFelt(fm, Run(fm, commands[..first]), MarkOf(fm, commands[..first]), commands[first]);
      RunStep(fm, commands, first);
      assert !RecoversExactly(fm, Run(fm, commands[..first + 1]));
    } else {
      forall n | k <= n <= |commands| ensures RecoversExactly(fm, Run(fm, commands[..n])) {
        RunRecovers(fm, commands, k, n);
      }
    }
  }

  /** Crash recovery is exact at every crash point of a run if and only if no call of the run loses anything. */
  lemma RecoveryIsExact(fm: Formats, commands: seq<Command>)
    requires Legal(fm, commands)
    ensures (forall n :: 0 <= n <= |commands| ==> RecoversExactly(fm, Run(fm, commands[..n])))
       <==> NoLoss(fm, commands, 0, |commands|)
  {
    RecoveryIsExactSince(fm, commands, 0);
  }

  lemma FirstLoss(fm: Formats, commands: seq<Command>, k: nat, i: nat) returns (first: nat)
    requires k <= i < |commands| && LosesAt(fm, commands, i)
    ensures k <= first < |commands| && LosesAt(fm, commands, first) && NoLoss(fm, commands, k, first)
  {
    if j :| k <= j < i && LosesAt(fm, commands, j) {
      first := FirstLoss(fm, commands, k, j);
    } else {
      first := i;
    }
  }
}
