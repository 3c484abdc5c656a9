/** A crash at any point of any legal run, and the engine that starts from what it left. */
module Restart {
  import opened Common
  import opened IdFormats
  import opened Validation
  import opened Tables
  import opened Journals
  import opened Recovery
  import opened SnapshotLoading
  import opened LogTails
  import opened CrashRecovery
  import opened Engines
  import opened Persistence

  lemma {:induction false} RecordedEntry(tail: Stretch, p: (WalKey, WalEntry))
    requires AllRecorded(tail) && p in EntriesOf(tail)
    ensures Recorded(p.1.op)
  {
    if tail.Then? && p in EntriesOf(tail.before) { RecordedEntry(tail.before, p); }
  }

  /** What a session wrote is what a starting engine asks of a log and a snapshot. */
  lemma JournalLoadable(fm: Formats, j: Journal, base: Table, cut: nat, tail: Stretch)
    requires JournalHolds(fm, j, base, cut, tail)
    ensures LogLoadable(j.wal)
    ensures j.snapshot.Some? ==> ItemsLoadable(j.snapshot.value)
  {
    LogHoldsEntries(tail, cut, j.sequence);
    forall key | key in j.wal ensures Loadable(j.wal[key].op) {
      RecordedEntry(tail, (key, j.wal[key]));
    }
    if j.snapshot.Some? {
      forall i | 0 <= i < |j.snapshot.value|
        ensures j.snapshot.value[i].DumpDefinition? ==> Registrable(j.snapshot.value[i].def)
        ensures j.snapshot.value[i].DumpEntity? ==> j.snapshot.value[i].entity.id != ""
      {
        assert ItemOk(j.snapshot.value, i, base);
      }
    }
  }

  /** Every legal run leaves such a journal, wherever it stops. */
  lemma RunIsLoadable(fm: Formats, commands: seq<Command>, n: nat)
    requires Legal(fm, commands) && n <= |commands|
    ensures var disk := Run(fm, commands[..n]).journal;
            LogLoadable(disk.wal) && (disk.snapshot.Some? ==> ItemsLoadable(disk.snapshot.value))
  {
    RunIsBalanced(fm, commands, n);
    var m := MarkOf(fm, commands[..n]);
    JournalLoadable(fm, Run(fm, commands[..n]).journal, m.base, m.cut, m.tail);
  }

  /**
   * After n commands a snapshot has just been taken, or nothing was lost since the beginning or since a snapshot that
   * found all bare ids different.
   */
  ghost predicate Kept(fm: Formats, commands: seq<Command>, n: nat)
    requires n <= |commands|
  {
    || JustDumped(commands, n)
    || exists k {:trigger CleanSlate(fm, commands, k)} ::
         0 <= k <= n && CleanSlate(fm, commands, k) && NoLoss(fm, commands, k, n)
  }

  lemma KeptRecovers(fm: Formats, commands: seq<Command>, n: nat)
    requires Legal(fm, commands) && n <= |commands| && Kept(fm, commands, n)
    ensures RecoversExactly(fm, Run(fm, commands[..n]))
  {
    if JustDumped(commands, n) {
      SnapshotRecovers(fm, commands, n);
    } else {
      var k :| 0 <= k <= n && CleanSlate(fm, commands, k) && NoLoss(fm, commands, k, n);
      RunRecovers(fm, commands, k, n);
    }
  }

  /**
   * NewDataStoreEngine after a crash that lets only the first n commands of a legal run reach the disk. The engine's
   * indexes are exact whatever the run was, and its store is the lost one if nothing was lost since the last snapshot.
   */
  method StartAfterCrash(
    fm: Formats, ghost commands: seq<Command>, ghost n: nat,
    wal: Wal, snapshot: Option<seq<DumpItem>>, loadNows: seq<int>, clock: nat -> int)
    returns (engine: Engine)
    requires Legal(fm, commands) && n <= |commands|
    requires wal == Run(fm, commands[..n]).journal.wal && snapshot == Run(fm, commands[..n]).journal.snapshot
    requires snapshot.Some? ==> |loadNows| == |snapshot.value|
    ensures fresh(engine) && engine.fm == fm && engine.Valid()
    ensures Kept(fm, commands, n) ==> Same(engine.Table(), Run(fm, commands[..n]).table)
  {
    ghost var s := Run(fm, commands[..n]);
    RunIsLoadable(fm, commands, n);
    ghost var entries, transactions, moments;
    engine, entries, transactions, moments := Start(fm, wal, snapshot, loadNows, clock);
    assert s.journal == Journal(s.journal.sequence, wal, snapshot);
    if Kept(fm, commands, n) {
      KeptRecovers(fm, commands, n);
      assert Rebuilds(fm, s, loadNows, entries, transactions, moments);
    }
  }
}
