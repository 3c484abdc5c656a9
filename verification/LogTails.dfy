/** What start-up makes of one journal: a snapshot and the numbered entries logged since. */
module LogTails {
  import opened Common
  import opened Keys
  import opened IdFormats
  import opened Store
  import opened Agreement
  import opened Tables
  import opened Journals
  import opened LogOrder
  import opened Recovery
  import opened SnapshotLoading

  // ---------- the order of the log ----------

  /** The entries of the stretch, in order. */
  function EntriesOf(stretch: Stretch): Entries {
    match stretch
    case Empty => []
    case Then(before, number, op) => EntriesOf(before) + [(KeyFor(number, op), WalEntry(number, "", op, false))]
  }

  function OpsIn(stretch: Stretch): seq<Op> {
    match stretch
    case Empty => []
    case Then(before, _, op) => OpsIn(before) + [op]
  }

  /** The sequence numbers rise from above cut to last at most. */
  predicate Rising(stretch: Stretch, cut: nat, last: nat) {
    match stretch
    case Empty => true
    case Then(before, number, _) => cut < number <= last && Rising(before, cut, number - 1)
  }

  ghost predicate AllRecorded(stretch: Stretch) {
    match stretch
    case Empty => true
    case Then(before, _, op) => Recorded(op) && AllRecorded(before)
  }

  lemma {:induction false} LaterIsRising(stretch: Stretch, cut: nat, last: nat, later: nat)
    requires Rising(stretch, cut, last) && last <= later
    ensures Rising(stretch, cut, later)
  {
  }

  /** The entries are those of the log, each under its key. */
  ghost predicate Lists(wal: Wal, entries: Entries) {
    && (forall key :: key in wal ==> (key, wal[key]) in entries)
    && (forall p :: p in entries ==> p.0 in wal && wal[p.0] == p.1)
  }

  /** The log has sequence numbers above cut only, and none above last. */
  predicate Spans(wal: Wal, cut: nat, last: nat) {
    forall key :: key in wal ==> cut < key.sequence <= last
  }

  lemma {:induction false} LogHoldsEntries(stretch: Stretch, cut: nat, last: nat)
    requires Rising(stretch, cut, last)
    ensures Spans(LogOf(stretch), cut, last) && Lists(LogOf(stretch), EntriesOf(stretch))
  {
    match stretch
    case Empty =>
    case Then(before, number, _) => LogHoldsEntries(before, cut, number - 1);
  }

  /** The entries follow one another by sequence number, all of them above cut and none above last. */
  predicate Ordered(entries: Entries, cut: nat, last: nat) {
    StrictlyOrdered(entries) && forall i :: 0 <= i < |entries| ==> cut < entries[i].1.sequence <= last
  }

  lemma {:induction false} EntriesAreOrdered(stretch: Stretch, cut: nat, last: nat)
    requires Rising(stretch, cut, last)
    ensures Ordered(EntriesOf(stretch), cut, last)
  {
    match stretch
    case Empty =>
    case Then(before, number, _) => EntriesAreOrdered(before, cut, number - 1);
  }

  lemma {:induction false} FromOneIsRising(ops: seq<Op>)
    ensures Rising(FromOne(ops), 0, |ops|) && OpsIn(FromOne(ops)) == ops
  {
    if ops == [] {
    } else {
      FromOneIsRising(ops[..|ops| - 1]);
      assert ops == ops[..|ops| - 1] + [ops[|ops| - 1]];
    }
  }

  /** What LoadWAL reads after a snapshot was loaded: the entries just re-logged, then the ones that survived. */
  function ReadBack(relogged: seq<Op>, tail: Stretch): Entries {
    EntriesOf(FromOne(relogged)) + EntriesOf(tail)
  }

  lemma MergedLists(wal1: Wal, entries1: Entries, wal2: Wal, entries2: Entries)
    requires Lists(wal1, entries1) && Lists(wal2, entries2) && wal1.Keys !! wal2.Keys
    ensures Lists(wal2 + wal1, entries1 + entries2)
  {
  }

  lemma ReadBackLists(relogged: seq<Op>, cut: nat, tail: Stretch, last: nat)
    requires |relogged| <= cut && Rising(tail, cut, last)
    ensures Lists(LogOf(tail) + LogOf(FromOne(relogged)), ReadBack(relogged, tail))
  {
    FromOneIsRising(relogged);
    LogHoldsEntries(FromOne(relogged), 0, |relogged|);
    LogHoldsEntries(tail, cut, last);
    MergedLists(LogOf(FromOne(relogged)), EntriesOf(FromOne(relogged)), LogOf(tail), EntriesOf(tail));
  }

  lemma ReadBackIsOrdered(relogged: seq<Op>, cut: nat, tail: Stretch, last: nat)
    requires |relogged| <= cut && Rising(tail, cut, last)
    ensures StrictlyOrdered(ReadBack(relogged, tail))
  {
    FromOneIsRising(relogged);
    EntriesAreOrdered(FromOne(relogged), 0, |relogged|);
    EntriesAreOrdered(tail, cut, last);
  }

  lemma LoadOrderLists(wal: Wal, entries: Entries)
    requires LoadOrder(wal, entries)
    ensures Lists(wal, entries)
  {
  }

  lemma SameListing(wal: Wal, a: Entries, b: Entries)
    requires Lists(wal, a) && Lists(wal, b)
    ensures forall p :: p in a <==> p in b
  {
    forall p | p in a || p in b ensures p in a && p in b {
      assert p == (p.0, wal[p.0]);
    }
  }

  /** No sequence number collides, so the log is read back in exactly that order. */
  lemma LoadOrderIsReadBack(relogged: seq<Op>, cut: nat, tail: Stretch, last: nat, entries: Entries)
    requires |relogged| <= cut && Rising(tail, cut, last)
    requires LoadOrder(LogOf(tail) + LogOf(FromOne(relogged)), entries)
    ensures entries == ReadBack(relogged, tail)
  {
    var wal, expected := LogOf(tail) + LogOf(FromOne(relogged)), ReadBack(relogged, tail);
    ReadBackLists(relogged, cut, tail, last);
    ReadBackIsOrdered(relogged, cut, tail, last);
    LoadOrderLists(wal, entries);
    SameListing(wal, entries, expected);
    StillOrdered(entries, expected);
    OrderIsUnique(entries, expected);
  }

  lemma StillOrdered(entries: Entries, expected: Entries)
    requires StrictlyOrdered(expected) && forall p :: p in entries <==> p in expected
    requires forall i, j :: 0 <= i < j < |entries| ==> entries[i].1.sequence <= entries[j].1.sequence
    requires Distinct(entries)
    ensures StrictlyOrdered(entries)
  {
    forall i, j | 0 <= i < j < |entries| ensures entries[i].1.sequence < entries[j].1.sequence {
      assert entries[i] in expected && entries[j] in expected;
    }
  }

  lemma ReadBackIsLoadOrder(relogged: seq<Op>, cut: nat, tail: Stretch, last: nat)
    requires |relogged| <= cut && Rising(tail, cut, last)
    ensures LoadOrder(LogOf(tail) + LogOf(FromOne(relogged)), ReadBack(relogged, tail))
  {
    ReadBackLists(relogged, cut, tail, last);
    ReadBackIsOrdered(relogged, cut, tail, last);
    OrderedLists(LogOf(tail) + LogOf(FromOne(relogged)), ReadBack(relogged, tail));
  }

  lemma OrderedLists(wal: Wal, entries: Entries)
    requires Lists(wal, entries) && StrictlyOrdered(entries)
    ensures LoadOrder(wal, entries)
  {
    forall i | 0 <= i < |entries| ensures entries[i].0 in wal && wal[entries[i].0] == entries[i].1 {
      assert entries[i] in entries;
    }
  }

  lemma {:induction false} PlainOps(stretch: Stretch)
    ensures OpsOf(EntriesOf(stretch), "") == OpsIn(stretch)
    ensures forall i :: 0 <= i < |EntriesOf(stretch)| ==> EntriesOf(stretch)[i].1.transaction == ""
  {
    match stretch
    case Empty =>
    case Then(before, number, op) =>
      PlainOps(before);
      OpsOfAppend(EntriesOf(before), [(KeyFor(number, op), WalEntry(number, "", op, false))]);
  }

  lemma {:induction false} OpsOfAppend(a: Entries, b: Entries)
    ensures OpsOf(a + b, "") == OpsOf(a, "") + OpsOf(b, "")
  {
    if b == [] {
      assert a + b == a;
    } else {
      OpsOfAppend(a, b[..|b| - 1]);
      assert (a + b)[..|a + b| - 1] == a + b[..|b| - 1];
    }
  }

  lemma HandedReadBack(relogged: seq<Op>, tail: Stretch, transactions: seq<string>)
    requires TransactionOrder(ReadBack(relogged, tail), transactions)
    ensures transactions == [] && Handed(ReadBack(relogged, tail), transactions) == relogged + OpsIn(tail)
  {
    PlainOps(FromOne(relogged));
    PlainOps(tail);
    FromOneIsRising(relogged);
    OpsOfAppend(EntriesOf(FromOne(relogged)), EntriesOf(tail));
    NoTransactions(ReadBack(relogged, tail), transactions);
  }

  lemma NoTransactions(entries: Entries, transactions: seq<string>)
    requires TransactionOrder(entries, transactions) && forall i :: 0 <= i < |entries| ==>
        entries[i].1.transaction == ""
    ensures transactions == []
  {
    FirstIsMember(transactions);
  }

  lemma FirstIsMember<T>(s: seq<T>)
    ensures s != [] ==> s[0] in s
  {
  }

  // ---------- replaying several operations ----------

  lemma {:induction false} SameReplayAll(fm: Formats, t1: Table, t2: Table, ops: seq<Op>, moments: seq<Moment>)
    requires Replayable(fm, t1) && Replayable(fm, t2) && Same(t1, t2)
    requires forall op :: op in ops ==> Recorded(op)
    requires |moments| == |ops|
    ensures Replayable(fm, ReplayAll(fm, t1, ops, moments)) && Replayable(fm, ReplayAll(fm, t2, ops, moments))
    ensures Same(ReplayAll(fm, t1, ops, moments), ReplayAll(fm, t2, ops, moments))
  {
    if ops == [] {
    } else {
      var n := |ops| - 1;
      SameReplayAll(fm, t1, t2, ops[..n], moments[..n]);
      var r1, r2 := ReplayAll(fm, t1, ops[..n], moments[..n]), ReplayAll(fm, t2, ops[..n], moments[..n]);
      SameReplay(fm, r1, r2, ops[n], moments[n]);
      ReplayKeepsReplayable(fm, r1, ops[n], moments[n]);
      ReplayKeepsReplayable(fm, r2, ops[n], moments[n]);
    }
  }

  /** An operation the guards skip: its definition or its bare id is already there. */
  ghost predicate AlreadyThere(t: Table, op: Op) {
    match op
    case OpRegister(def) => def.name in t.definitions
    case OpInsert(_, id, _) => GetFinds(t.entities.Keys, id)
    case _ => false
  }

  lemma {:induction false} SkipAll(fm: Formats, t: Table, ops: seq<Op>, moments: seq<Moment>)
    requires |moments| == |ops| && forall op :: op in ops ==> AlreadyThere(t, op)
    ensures ReplayAll(fm, t, ops, moments) == t
  {
    if ops == [] {
    } else {
      SkipAll(fm, t, ops[..|ops| - 1], moments[..|ops| - 1]);
      assert ops[|ops| - 1] in ops;
    }
  }

  // ---------- recovery from one journal ----------

  function Size(t: Table): nat { |t.definitions| + |t.entities| }

  /** The log is the tail: recorded operations numbered above cut. */
  ghost predicate LogHolds(j: Journal, cut: nat, tail: Stretch) {
    Rising(tail, cut, j.sequence) && AllRecorded(tail) && j.wal == LogOf(tail)
  }

  /** The snapshot describes base, which has no more definitions and entities than cut. */
  ghost predicate SnapshotHolds(fm: Formats, snapshot: Option<seq<DumpItem>>, base: Table, cut: nat) {
    && Replayable(fm, base)
    && Size(base) <= cut
    && (if snapshot.None? then base == EMPTY_TABLE else IsDump(snapshot.value, base))
  }

  /** The journal holds a snapshot of base taken at sequence number cut, and the entries logged since. */
  ghost predicate JournalHolds(fm: Formats, j: Journal, base: Table, cut: nat, tail: Stretch) {
    SnapshotHolds(fm, j.snapshot, base, cut) && LogHolds(j, cut, tail)
  }

  /** The loaded store equals the dumped one up to time stamps. */
  lemma LoadedIsSame(fm: Formats, base: Table, items: seq<DumpItem>, t: Table)
    requires Replayable(fm, base) && IsDump(items, base) && LoadedFrom(base, items, t)
    ensures Same(t, base)
  {
    WholeDump(items, base);
  }

  lemma LoadedIsReplayable(fm: Formats, base: Table, items: seq<DumpItem>, n: nat, s: System, nows: seq<int>)
    requires Replayable(fm, base) && IsDump(items, base) && n <= |items| && |nows| == n
    requires s.table == EMPTY_TABLE && s.journal.sequence == 0
    ensures Replayable(fm, LoadItems(fm, s, items[..n], nows).0.table)
  {
    if n == 0 {
    } else {
      var front := items[..n - 1];
      assert items[..n][..n - 1] == front;
      LoadedIsReplayable(fm, base, items, n - 1, s, nows[..n - 1]);
      var r := LoadItems(fm, s, front, nows[..n - 1]).0;
      assert ItemOk(items, n - 1, base);
      var item := items[n - 1];
      if item.DumpDefinition? { CleanIsFixed(item.def); }
      else { LoadableEntity(fm, base, item.entity); }
      ExecuteKeepsReplayable(fm, r.table, LoadOp(item), nows[n - 1]);
    }
  }

  lemma LoadableEntity(fm: Formats, base: Table, e: Entity)
    requires Replayable(fm, base) && KeyOf(e) in base.entities && base.entities[KeyOf(e)] == e
    ensures NoColon(e.typ) && NoColon(e.id) && CREATED_AT in e.fields
  {
    assert EntityValid(fm, base, KeyOf(e));
    StampAccepted(fm, base.definitions[e.typ], e.fields, 0);
  }

  lemma SnapshotLoaded(fm: Formats, base: Table, items: seq<DumpItem>, s: System, nows: seq<int>)
    requires Replayable(fm, base) && IsDump(items, base) && |nows| == |items|
    requires s.table == EMPTY_TABLE && s.journal.sequence == 0
    ensures var b := LoadItems(fm, s, items, nows).0;
            && Same(b.table, base) && Replayable(fm, b.table)
            && b.journal.wal == s.journal.wal + LogOf(FromOne(Relogged(items, nows)))
            && forall op :: op in Relogged(items, nows) ==> AlreadyThere(b.table, op)
  {
    assert items[..|items|] == items;
    LoadingRebuilds(fm, base, items, |items|, s, nows);
    LoadedIsReplayable(fm, base, items, |items|, s, nows);
    var t := LoadItems(fm, s, items, nows).0.table;
    LoadedIsSame(fm, base, items, t);
    AllReloggedThere(base, t, items, nows);
  }

  lemma AllReloggedThere(base: Table, t: Table, items: seq<DumpItem>, nows: seq<int>)
    requires IsDump(items, base) && Same(t, base) && WellFormed(t) && |nows| == |items|
    ensures forall op :: op in Relogged(items, nows) ==> AlreadyThere(t, op)
  {
    forall op | op in Relogged(items, nows) ensures AlreadyThere(t, op) {
      var i :| 0 <= i < |items| && op == Relogged(items, nows)[i];
      assert ItemOk(items, i, base);
      ReloggedThere(base, t, items[i], nows[i]);
    }
  }

  /** The state in which LoadWAL starts: the snapshot's store, with one re-logged entry per definition and entity. */
  lemma BootedState(fm: Formats, j: Journal, base: Table, cut: nat, tail: Stretch, loadNows: seq<int>)
      returns (relogged: seq<Op>)
    requires JournalHolds(fm, j, base, cut, tail)
    requires j.snapshot.Some? ==> |loadNows| == |j.snapshot.value|
    ensures var b := Booted(fm, j, loadNows);
            && Same(b.table, base) && Replayable(fm, b.table)
            && b.journal.wal == LogOf(tail) + LogOf(FromOne(relogged))
            && |relogged| <= cut
            && forall op :: op in relogged ==> AlreadyThere(b.table, op)
  {
    if j.snapshot.None? {
      relogged := [];
      assert LogOf(tail) + LogOf(FromOne(relogged)) == LogOf(tail);
    } else {
      SnapshotLoaded(fm, base, j.snapshot.value, System(EMPTY_TABLE, j.(sequence := 0)), loadNows);
      WholeDump(j.snapshot.value, base);
      relogged := Relogged(j.snapshot.value, loadNows);
    }
  }

  lemma ReloggedThere(base: Table, t: Table, item: DumpItem, now: int)
    requires Same(t, base) && WellFormed(t)
    requires item.DumpDefinition? ==> item.def.name in base.definitions
    requires item.DumpEntity? ==>
        KeyOf(item.entity) in base.entities && base.entities[KeyOf(item.entity)] == item.entity
    ensures AlreadyThere(t, EntryFor(LoadOp(item), now))
  {
    if item.DumpEntity? {
      var key := KeyOf(item.entity);
      assert SameEntity(t.entities[key], base.entities[key]);
      GetFindsLive(t, key);
    }
  }

  lemma {:induction false} RecordedOps(tail: Stretch)
    requires AllRecorded(tail)
    ensures forall op :: op in OpsIn(tail) ==> Recorded(op)
  {
    match tail
    case Empty =>
    case Then(before, _, _) => RecordedOps(before);
  }

  /** What LoadWAL hands to the loaded store: re-logged operations that are there already, then the tail. */
  lemma HandedOps(fm: Formats, j: Journal, base: Table, cut: nat, tail: Stretch, loadNows: seq<int>, entries: Entries,
      transactions: seq<string>) returns (relogged: seq<Op>)
    requires JournalHolds(fm, j, base, cut, tail)
    requires j.snapshot.Some? ==> |loadNows| == |j.snapshot.value|
    requires LoadOrder(Booted(fm, j, loadNows).journal.wal, entries) && TransactionOrder(entries, transactions)
    ensures Handed(entries, transactions) == relogged + OpsIn(tail)
    ensures var b := Booted(fm, j, loadNows);
            && Same(b.table, base) && Replayable(fm, b.table)
            && forall op :: op in relogged ==> AlreadyThere(b.table, op)
  {
    relogged := BootedState(fm, j, base, cut, tail, loadNows);
    LoadOrderIsReadBack(relogged, cut, tail, j.sequence, entries);
    HandedReadBack(relogged, tail, transactions);
  }

  /** Whatever start-up sees, its outcome is the dumped store with the logged tail replayed. */
  lemma RecoveryReplaysTail(fm: Formats, j: Journal, base: Table, cut: nat, tail: Stretch,
                            loadNows: seq<int>, entries: Entries, transactions: seq<string>, moments: seq<Moment>)
    returns (last: seq<Moment>)
    requires JournalHolds(fm, j, base, cut, tail)
    requires StartUp(fm, j, loadNows, entries, transactions, moments)
    ensures |last| == |OpsIn(tail)| && Same(Recovered(fm, j, loadNows, entries, transactions, moments),
        ReplayAll(fm, base, OpsIn(tail), last))
  {
    var relogged := HandedOps(fm, j, base, cut, tail, loadNows, entries, transactions);
    var t := Booted(fm, j, loadNows).table;
    ReplayAppend(fm, t, relogged, OpsIn(tail), moments);
    SkipAll(fm, t, relogged, moments[..|relogged|]);
    RecordedOps(tail);
    last := moments[|relogged|..];
    SameReplayAll(fm, t, base, OpsIn(tail), last);
  }
}
