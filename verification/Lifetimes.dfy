/**
 * The numbers of one auto-increment type over a session, a crash and the next start: what the calls of the session and
 * the loading of what it left do to the saved counter and the saved deleted ids.
 */
module Lifetimes {
  import opened Common
  import opened Keys
  import opened IdFormats
  import opened Numerals
  import opened Store
  import opened Agreement
  import opened Tables
  import opened Journals
  import opened Recovery
  import opened SnapshotLoading
  import opened LogOrder
  import opened LogTails
  import opened CrashRecovery
  import opened IdGenerators
  import opened Numbering

  // ---------- what a call does to the numbers ----------

  /**
   * Insert generates an id before its checks and saves the counter after its log write; Delete marks the id of an
   * entity it has found before it writes the log.
   */
  function CallChanges(fm: Formats, t: Table, typ: string, op: Op, now: int, disk: bool, generated: bool): seq<Change> {
    match op
    case OpInsert(typ', _, _) =>
      if typ' != typ || typ !in t.definitions then []
      else
        (if generated then [NumberTaken] else []) + (if disk && Writes(fm, t, op, now) then [InsertLogged] else [])
    case OpDelete(typ', id) =>
      if typ' == typ && CreateKey(typ, id) in t.entities then [DeleteMarked(id)] else []
    case _ => []
  }

  /** The changes of a session; generated holds the positions of the inserts whose ids were generated. */
  function SessionChanges(fm: Formats, typ: string, commands: seq<Command>, generated: set<nat>): seq<Change> {
    if commands == [] then []
    else
      var n := |commands| - 1;
      SessionChanges(fm, typ, commands[..n], generated)
      + (match commands[n]
         case Call(op, now, disk) =>
           CallChanges(fm, Run(fm, commands[..n]).table, typ, op, now, disk, n in generated)
         case TakeSnapshot(_, _) => [])
  }

  /** The type's numbers when the session ends, in memory and in the database. */
  ghost function NumbersAfter(fm: Formats, typ: string, commands: seq<Command>, generated: set<nat>): Numbers {
    AllChanged(Numbers(UNUSED, Saved(None, None)), SessionChanges(fm, typ, commands, generated))
  }

  /** The id of command i is the number GenerateID answers there. */
  ghost predicate GeneratedAt(fm: Formats, typ: string, commands: seq<Command>, generated: set<nat>, i: nat) {
    && i < |commands| && commands[i].Call? && commands[i].op.OpInsert? && commands[i].op.typ == typ
    && commands[i].op.id == Decimal(Next(NumbersAfter(fm, typ, commands[..i], generated).counting))
  }

  // ---------- what loading does to them ----------

  /** LoadLatestSnapshot inserts every entity under its own id. */
  function LoadChanges(fm: Formats, typ: string, s: System, items: seq<DumpItem>, nows: seq<int>): seq<Change>
    requires |nows| == |items|
  {
    if items == [] then []
    else
      var n := |items| - 1;
      var (front, ok) := LoadItems(fm, s, items[..n], nows[..n]);
      LoadChanges(fm, typ, s, items[..n], nows[..n])
      + (if ok then CallChanges(fm, front.table, typ, LoadOp(items[n]), nows[n], true, false) else [])
  }

  /** A replayed entry makes its call unless a guard stops it. */
  ghost function ReplayChanges(fm: Formats, t: Table, typ: string, op: Op, m: Moment): seq<Change> {
    match op
    case OpInsert(_, id, _) =>
      if GetFinds(t.entities.Keys, id) then [] else CallChanges(fm, t, typ, op, m.now, true, false)
    case OpDelete(_, id) =>
      if GetFinds(t.entities.Keys, id) then CallChanges(fm, t, typ, op, m.now, true, false) else []
    case _ => []
  }

  ghost function ReplayAllChanges(fm: Formats, t: Table, typ: string, ops: seq<Op>, moments: seq<Moment>): seq<Change>
    requires |moments| == |ops|
  {
    if ops == [] then []
    else
      var n := |ops| - 1;
      ReplayAllChanges(fm, t, typ, ops[..n], moments[..n])
      + ReplayChanges(fm, ReplayAll(fm, t, ops[..n], moments[..n]), typ, ops[n], moments[n])
  }

  /** Everything start-up does to the numbers before it loads the saved ones. */
  ghost function StartChanges(fm: Formats, typ: string, disk: Journal, loadNows: seq<int>, entries: Entries,
      transactions: seq<string>, moments: seq<Moment>): seq<Change>
    requires StartUp(fm, disk, loadNows, entries, transactions, moments)
  {
    (if disk.snapshot.None? then []
     else LoadChanges(fm, typ, System(EMPTY_TABLE, disk.(sequence := 0)), disk.snapshot.value, loadNows))
    + ReplayAllChanges(fm, Booted(fm, disk, loadNows).table, typ, Handed(entries, transactions), moments)
  }

  // ---------- what the snapshot and the log say ----------

  function OneItem(typ: string, item: DumpItem): seq<Change> {
    if item.DumpEntity? && item.entity.typ == typ then [InsertLogged] else []
  }

  function ItemChanges(typ: string, items: seq<DumpItem>): seq<Change> {
    if items == [] then []
    else
      ItemChanges(typ, items[..|items| - 1]) + OneItem(typ, items[|items| - 1])
  }

  function EntryChanges(typ: string, entry: Op): seq<Change> {
    match entry
    case OpInsert(typ', _, _) => if typ' == typ then [InsertLogged] else []
    case OpDelete(typ', id) => if typ' == typ then [DeleteMarked(id)] else []
    case _ => []
  }

  function TailChanges(typ: string, tail: Stretch): seq<Change> {
    match tail
    case Empty => []
    case Then(before, _, op) => TailChanges(typ, before) + EntryChanges(typ, op)
  }

  lemma ItemChangesStep(typ: string, front: seq<DumpItem>, item: DumpItem)
    ensures ItemChanges(typ, front + [item]) == ItemChanges(typ, front) + OneItem(typ, item)
  {
    assert (front + [item])[..|front|] == front;
  }

  lemma LoadChangesStep(fm: Formats, typ: string, s: System, front: seq<DumpItem>, nows: seq<int>, item: DumpItem,
      now: int)
    requires |nows| == |front| && LoadItems(fm, s, front, nows).1
    ensures LoadChanges(fm, typ, s, front + [item], nows + [now]) ==
            LoadChanges(fm, typ, s, front, nows)
            + CallChanges(fm, LoadItems(fm, s, front, nows).0.table, typ, LoadOp(item), now, true, false)
  {
    assert (front + [item])[..|front|] == front && (nows + [now])[..|front|] == nows;
  }

  lemma ItemSaves(fm: Formats, typ: string, t: Table, item: DumpItem, now: int)
    requires Writes(fm, t, LoadOp(item), now)
    ensures CallChanges(fm, t, typ, LoadOp(item), now, true, false) == OneItem(typ, item)
  {
  }

  lemma OneMoreLoaded(fm: Formats, typ: string, s: System, front: seq<DumpItem>, nows: seq<int>, item: DumpItem,
      now: int)
    requires |nows| == |front| && LoadItems(fm, s, front, nows).1
    requires Writes(fm, LoadItems(fm, s, front, nows).0.table, LoadOp(item), now)
    requires LoadChanges(fm, typ, s, front, nows) == ItemChanges(typ, front)
    ensures LoadChanges(fm, typ, s, front + [item], nows + [now]) == ItemChanges(typ, front + [item])
  {
    ItemSaves(fm, typ, LoadItems(fm, s, front, nows).0.table, item, now);
    LoadChangesStep(fm, typ, s, front, nows, item, now);
    ItemChangesStep(typ, front, item);
  }

  lemma NextItemLoads(fm: Formats, base: Table, items: seq<DumpItem>, n: nat, s: System, nows: seq<int>, now: int)
    requires Replayable(fm, base) && IsDump(items, base) && n < |items| && |nows| == n
    requires s.table == EMPTY_TABLE && s.journal.sequence == 0
    ensures LoadItems(fm, s, items[..n], nows).1
    ensures Writes(fm, LoadItems(fm, s, items[..n], nows).0.table, LoadOp(items[n]), now)
  {
    LoadingRebuilds(fm, base, items, n, s, nows);
    LoadOne(fm, base, items, n, LoadItems(fm, s, items[..n], nows).0.table, now);
  }

  /** Loading a dump makes one logged insert per dumped entity. */
  lemma {:induction false} LoadingSaves(fm: Formats, typ: string, base: Table, items: seq<DumpItem>, n: nat, s: System,
      nows: seq<int>)
    requires Replayable(fm, base) && IsDump(items, base) && n <= |items| && |nows| == n
    requires s.table == EMPTY_TABLE && s.journal.sequence == 0
    ensures LoadChanges(fm, typ, s, items[..n], nows) == ItemChanges(typ, items[..n])
  {
    if n == 0 {
    } else {
      var front, item, before, now := items[..n - 1], items[n - 1], nows[..n - 1], nows[n - 1];
      assert items[..n] == front + [item] && nows == before + [now];
      LoadingSaves(fm, typ, base, items, n - 1, s, before);
      NextItemLoads(fm, base, items, n - 1, s, before, now);
      OneMoreLoaded(fm, typ, s, front, before, item, now);
    }
  }

  /** Entries whose definition or bare id is there already do nothing to the numbers. */
  lemma {:induction false} SkippedChangeNothing(fm: Formats, t: Table, typ: string, ops: seq<Op>, moments: seq<Moment>)
    requires |moments| == |ops| && forall op :: op in ops ==> AlreadyThere(t, op)
    ensures ReplayAllChanges(fm, t, typ, ops, moments) == []
  {
    if ops == [] {
    } else {
      var n := |ops| - 1;
      SkippedChangeNothing(fm, t, typ, ops[..n], moments[..n]);
      SkipAll(fm, t, ops[..n], moments[..n]);
      assert AlreadyThere(t, ops[n]) by { assert ops[n] in ops; }
    }
  }

  lemma ReplayChangesOneMore(fm: Formats, t: Table, typ: string, ops: seq<Op>, op: Op, moments: seq<Moment>, m: Moment)
    requires |moments| == |ops|
    ensures ReplayAllChanges(fm, t, typ, ops + [op], moments + [m]) ==
            ReplayAllChanges(fm, t, typ, ops, moments)
            + ReplayChanges(fm, ReplayAll(fm, t, ops, moments), typ, op, m)
  {
    assert (ops + [op])[..|ops|] == ops && (moments + [m])[..|ops|] == moments;
  }

  lemma {:induction false} ReplayChangesAppend(fm: Formats, t: Table, typ: string, a: seq<Op>, b: seq<Op>,
      moments: seq<Moment>)
    requires |moments| == |a| + |b|
    ensures ReplayAllChanges(fm, t, typ, a + b, moments) ==
            ReplayAllChanges(fm, t, typ, a, moments[..|a|])
            + ReplayAllChanges(fm, ReplayAll(fm, t, a, moments[..|a|]), typ, b, moments[|a|..])
  {
    if b == [] {
      assert a + b == a && moments[..|a|] == moments;
    } else {
      var n := |moments| - 1;
      var front, op, m := b[..|b| - 1], b[|b| - 1], moments[n];
      SplitBoth(a, b, moments);
      ReplayChangesAppend(fm, t, typ, a, front, moments[..n]);
      ReplayAppend(fm, t, a, front, moments[..n]);
      ReplayChangesOneMore(fm, t, typ, a + front, op, moments[..n], m);
      ReplayChangesOneMore(fm, ReplayAll(fm, t, a, moments[..|a|]), typ, front, op, moments[..n][|a|..], m);
      Regrouped(ReplayAllChanges(fm, t, typ, a, moments[..|a|]),
          ReplayAllChanges(fm, ReplayAll(fm, t, a, moments[..|a|]), typ, front, moments[..n][|a|..]),
          ReplayChanges(fm, ReplayAll(fm, t, a + front, moments[..n]), typ, op, m));
    }
  }

  lemma Regrouped<T>(a: seq<T>, b: seq<T>, c: seq<T>)
    ensures (a + b) + c == a + (b + c)
  {
  }

  lemma InsertReplayed(fm: Formats, r: Table, t: Table, typ: string, id: string, data: Fields, now: int, later: int)
    requires CleanDefs(t) && Same(r, t) && Insert(fm, t, typ, id, data, now).1 == Done
    ensures typ in r.definitions && Insert(fm, r, typ, id, Stamped(data, now), later).1 == Done
  {
    var logged := Stamped(data, now);
    assert Stamped(logged, now) == logged;
    SameInsert(fm, r, t, typ, id, logged, logged, later, now);
  }

  lemma DeleteReplayed(r: Table, t: Table, typ: string, id: string)
    requires WellFormed(t) && NoColon(typ) && Same(r, t) && CreateKey(typ, id) in t.entities
    ensures CreateKey(typ, id) in r.entities && GetFinds(r.entities.Keys, id)
  {
    StoredUnderKey(Db(t.definitions, t.entities, map[], map[]), typ, id);
    GetFindsLive(t, CreateKey(typ, id));
  }

  lemma InsertSays(fm: Formats, r: Table, typ: string, typ': string, id: string, logged: Fields, m: Moment)
    requires !GetFinds(r.entities.Keys, id) && typ' in r.definitions
    requires Insert(fm, r, typ', id, logged, m.now).1 == Done
    ensures ReplayChanges(fm, r, typ, OpInsert(typ', id, logged), m) == EntryChanges(typ, OpInsert(typ', id, logged))
  {
  }

  lemma DeleteSays(fm: Formats, r: Table, typ: string, typ': string, id: string, m: Moment)
    requires GetFinds(r.entities.Keys, id) && CreateKey(typ', id) in r.entities
    ensures ReplayChanges(fm, r, typ, OpDelete(typ', id), m) == EntryChanges(typ, OpDelete(typ', id))
  {
  }

  /** A replayed entry makes its call exactly as the session did. */
  lemma EntryReplayed(fm: Formats, r: Table, t: Table, typ: string, op: Op, now: int, m: Moment)
    requires Replayable(fm, t) && Same(r, t) && OpOk(op) && Writes(fm, t, op, now) && !ReusesId(fm, t, op, now)
    ensures ReplayChanges(fm, r, typ, EntryFor(op, now), m) == EntryChanges(typ, EntryFor(op, now))
  {
    match op
    case OpInsert(typ', id, data) =>
      InsertReplayed(fm, r, t, typ', id, data, now, m.now);
      InsertSays(fm, r, typ, typ', id, Stamped(data, now), m);
    case OpDelete(typ', id) =>
      DeleteReplayed(r, t, typ', id);
      DeleteSays(fm, r, typ, typ', id, m);
    case _ =>
  }

  // ---------- what start-up does after any run that lost nothing ----------

  /** Replaying the tail, wherever the loaded store stands in for base, does to the numbers what the tail says. */
  ghost predicate TailSavesAt(fm: Formats, typ: string, base: Table, tail: Stretch, b: Table, moments: seq<Moment>) {
    Replayable(fm, b) && Same(b, base) && |moments| == |OpsIn(tail)| ==>
      ReplayAllChanges(fm, b, typ, OpsIn(tail), moments) == TailChanges(typ, tail)
  }

  ghost predicate TailSaves(fm: Formats, typ: string, base: Table, tail: Stretch) {
    forall b, moments: seq<Moment> {:trigger TailSavesAt(fm, typ, base, tail, b, moments)} ::
      TailSavesAt(fm, typ, base, tail, b, moments)
  }

  /** The replayed store is the live one, also when the replay starts from the loaded store. */
  lemma ReplayedIsLive(fm: Formats, base: Table, tail: Stretch, t: Table, b: Table, moments: seq<Moment>)
    requires TailGives(fm, base, OpsIn(tail), t) && AllRecorded(tail) && Replayable(fm, base)
    requires Replayable(fm, b) && Same(b, base) && |moments| == |OpsIn(tail)|
    ensures Same(ReplayAll(fm, b, OpsIn(tail), moments), t)
  {
    RecordedOps(tail);
    SameReplayAll(fm, b, base, OpsIn(tail), moments);
    assert GivesAt(fm, base, OpsIn(tail), t, moments);
    SameTrans(ReplayAll(fm, b, OpsIn(tail), moments), ReplayAll(fm, base, OpsIn(tail), moments), t);
  }

  lemma TailSavesOne(fm: Formats, typ: string, base: Table, tail: Stretch, t: Table, op: Op, now: int, b: Table,
      moments: seq<Moment>, m: Moment)
    requires TailSavesAt(fm, typ, base, tail, b, moments) && TailGives(fm, base, OpsIn(tail), t) && AllRecorded(tail)
    requires Replayable(fm, base) && Replayable(fm, t) && Replayable(fm, b) && Same(b, base)
    requires |moments| == |OpsIn(tail)|
    requires OpOk(op) && Writes(fm, t, op, now) && !ReusesId(fm, t, op, now)
    ensures ReplayAllChanges(fm, b, typ, OpsIn(tail) + [EntryFor(op, now)], moments + [m])
            == TailChanges(typ, tail) + EntryChanges(typ, EntryFor(op, now))
  {
    ReplayedIsLive(fm, base, tail, t, b, moments);
    EntryReplayed(fm, ReplayAll(fm, b, OpsIn(tail), moments), t, typ, op, now, m);
    ReplayChangesOneMore(fm, b, typ, OpsIn(tail), EntryFor(op, now), moments, m);
  }

  lemma TailSavesNext(fm: Formats, typ: string, base: Table, tail: Stretch, t: Table, op: Op, now: int, number: nat,
      b: Table, moments: seq<Moment>)
    requires TailSaves(fm, typ, base, tail) && TailGives(fm, base, OpsIn(tail), t) && AllRecorded(tail)
    requires Replayable(fm, base) && Replayable(fm, t) && Replayable(fm, b) && Same(b, base)
    requires OpOk(op) && Writes(fm, t, op, now) && !ReusesId(fm, t, op, now)
    requires |moments| == |OpsIn(Then(tail, number, EntryFor(op, now)))|
    ensures ReplayAllChanges(fm, b, typ, OpsIn(Then(tail, number, EntryFor(op, now))), moments)
            == TailChanges(typ, Then(tail, number, EntryFor(op, now)))
  {
    var n := |OpsIn(tail)|;
    var front, m := moments[..n], moments[n];
    assert moments == front + [m];
    assert TailSavesAt(fm, typ, base, tail, b, front);
    TailSavesOne(fm, typ, base, tail, t, op, now, b, front, m);
  }

  lemma TailSavesMore(fm: Formats, typ: string, base: Table, tail: Stretch, t: Table, op: Op, now: int, number: nat)
    requires TailSaves(fm, typ, base, tail) && TailGives(fm, base, OpsIn(tail), t) && AllRecorded(tail)
    requires Replayable(fm, base) && Replayable(fm, t)
    requires OpOk(op) && Writes(fm, t, op, now) && !ReusesId(fm, t, op, now)
    ensures TailSaves(fm, typ, base, Then(tail, number, EntryFor(op, now)))
  {
    var longer := Then(tail, number, EntryFor(op, now));
    forall b, moments: seq<Moment> ensures TailSavesAt(fm, typ, base, longer, b, moments) {
      if Replayable(fm, b) && Same(b, base) && |moments| == |OpsIn(longer)| {
        TailSavesNext(fm, typ, base, tail, t, op, now, number, b, moments);
      }
    }
  }

  ghost predicate SavesAt(fm: Formats, typ: string, commands: seq<Command>, n: nat)
    requires n <= |commands|
  {
    TailSaves(fm, typ, MarkOf(fm, commands[..n]).base, MarkOf(fm, commands[..n]).tail)
  }

  lemma EmptyTailSaves(fm: Formats, typ: string, base: Table)
    ensures TailSaves(fm, typ, base, Empty)
  {
    forall b, moments: seq<Moment> ensures TailSavesAt(fm, typ, base, Empty, b, moments) {
    }
  }

  /** One command that loses nothing, at a point where the journal gives the store. */
  lemma SavesStep(fm: Formats, typ: string, s: System, m: Mark, c: Command)
    requires Replayable(fm, m.base) && Replayable(fm, s.table) && AllRecorded(m.tail)
    requires TailGives(fm, m.base, OpsIn(m.tail), s.table) && (c.Call? ==> OpOk(c.op)) && !Loses(fm, s, c)
    requires TailSaves(fm, typ, m.base, m.tail)
    ensures TailSaves(fm, typ, NextMark(fm, s, m, c).base, NextMark(fm, s, m, c).tail)
  {
    if c.TakeSnapshot? {
      EmptyTailSaves(fm, typ, s.table);
    } else if Writes(fm, s.table, c.op, c.now) && c.disk {
      TailSavesMore(fm, typ, m.base, m.tail, s.table, c.op, c.now, s.journal.sequence + 1);
    }
  }

  lemma SavesNext(fm: Formats, typ: string, commands: seq<Command>, n: nat)
    requires Legal(fm, commands) && n < |commands| && !LosesAt(fm, commands, n) && TrackedAt(fm, commands, n)
    requires SavesAt(fm, typ, commands, n)
    ensures SavesAt(fm, typ, commands, n + 1)
  {
    RunIsBalanced(fm, commands, n);
    LegalCommand(fm, commands, n);
    RunStep(fm, commands, n);
    SavesStep(fm, typ, Run(fm, commands[..n]), MarkOf(fm, commands[..n]), commands[n]);
  }

  lemma {:induction false} RunSaves(fm: Formats, typ: string, commands: seq<Command>, k: nat, n: nat)
    requires Legal(fm, commands) && k <= n <= |commands|
    requires CleanSlate(fm, commands, k) && NoLoss(fm, commands, k, n)
    ensures SavesAt(fm, typ, commands, n)
    decreases n
  {
    if n == k {
      if k > 0 { DumpedMark(fm, commands, k); }
    } else {
      NoLossBefore(fm, commands, k, n);
      RunSaves(fm, typ, commands, k, n - 1);
      RunIsTracked(fm, commands, k, n - 1);
      SavesNext(fm, typ, commands, n - 1);
    }
  }

  /** What snapshot and tail say about the numbers of the type. */
  function Said(typ: string, snapshot: Option<seq<DumpItem>>, tail: Stretch): seq<Change> {
    (if snapshot.None? then [] else ItemChanges(typ, snapshot.value)) + TailChanges(typ, tail)
  }

  lemma LoadedSays(fm: Formats, typ: string, j: Journal, base: Table, cut: nat, tail: Stretch, loadNows: seq<int>)
    requires JournalHolds(fm, j, base, cut, tail) && j.snapshot.Some? && |loadNows| == |j.snapshot.value|
    ensures LoadChanges(fm, typ, System(EMPTY_TABLE, j.(sequence := 0)), j.snapshot.value, loadNows)
            == ItemChanges(typ, j.snapshot.value)
  {
    var items := j.snapshot.value;
    LoadingSaves(fm, typ, base, items, |items|, System(EMPTY_TABLE, j.(sequence := 0)), loadNows);
    assert items[..|items|] == items;
  }

  lemma ReloggedSayNothing(fm: Formats, t: Table, typ: string, relogged: seq<Op>, ops: seq<Op>, moments: seq<Moment>)
    requires |moments| == |relogged| + |ops| && forall op :: op in relogged ==> AlreadyThere(t, op)
    ensures ReplayAllChanges(fm, t, typ, relogged + ops, moments)
            == ReplayAllChanges(fm, t, typ, ops, moments[|relogged|..])
  {
    ReplayChangesAppend(fm, t, typ, relogged, ops, moments);
    SkipAll(fm, t, relogged, moments[..|relogged|]);
    SkippedChangeNothing(fm, t, typ, relogged, moments[..|relogged|]);
  }

  lemma TailSavesFrom(fm: Formats, typ: string, base: Table, tail: Stretch, b: Table, moments: seq<Moment>)
    requires TailSaves(fm, typ, base, tail) && Replayable(fm, b) && Same(b, base) && |moments| == |OpsIn(tail)|
    ensures ReplayAllChanges(fm, b, typ, OpsIn(tail), moments) == TailChanges(typ, tail)
  {
    assert TailSavesAt(fm, typ, base, tail, b, moments);
  }

  lemma ReplaySays(fm: Formats, typ: string, j: Journal, base: Table, cut: nat, tail: Stretch, loadNows: seq<int>,
      entries: Entries, transactions: seq<string>, moments: seq<Moment>)
    requires JournalHolds(fm, j, base, cut, tail) && TailSaves(fm, typ, base, tail)
    requires StartUp(fm, j, loadNows, entries, transactions, moments)
    ensures ReplayAllChanges(fm, Booted(fm, j, loadNows).table, typ, Handed(entries, transactions), moments)
            == TailChanges(typ, tail)
  {
    var relogged := HandedOps(fm, j, base, cut, tail, loadNows, entries, transactions);
    var t := Booted(fm, j, loadNows).table;
    ReloggedSayNothing(fm, t, typ, relogged, OpsIn(tail), moments);
    TailSavesFrom(fm, typ, base, tail, t, moments[|relogged|..]);
  }

  /**
   * After a crash in any run that lost nothing since a clean slate, start-up saves the counter once for each entity of
   * the snapshot and each insert logged since, and marks exactly the deletes logged since, in order.
   */
  lemma StartSays(fm: Formats, typ: string, commands: seq<Command>, k: nat, n: nat, loadNows: seq<int>,
      entries: Entries, transactions: seq<string>, moments: seq<Moment>)
    requires Legal(fm, commands) && k <= n <= |commands|
    requires CleanSlate(fm, commands, k) && NoLoss(fm, commands, k, n)
    requires StartUp(fm, Run(fm, commands[..n]).journal, loadNows, entries, transactions, moments)
    ensures StartChanges(fm, typ, Run(fm, commands[..n]).journal, loadNows, entries, transactions, moments)
            == Said(typ, Run(fm, commands[..n]).journal.snapshot, MarkOf(fm, commands[..n]).tail)
  {
    var j, m := Run(fm, commands[..n]).journal, MarkOf(fm, commands[..n]);
    RunIsBalanced(fm, commands, n);
    RunSaves(fm, typ, commands, k, n);
    ReplaySays(fm, typ, j, m.base, m.cut, m.tail, loadNows, entries, transactions, moments);
    if j.snapshot.Some? { LoadedSays(fm, typ, j, m.base, m.cut, m.tail, loadNows); }
  }

  // ---------- which numbers can come back ----------

  /** The ids of the type that the log since the last snapshot deletes. */
  function DeletedIn(typ: string, tail: Stretch): set<string> {
    match tail
    case Empty => {}
    case Then(before, _, op) => DeletedIn(typ, before) + if op.OpDelete? && op.typ == typ then {op.id} else {}
  }

  predicate InsertedIn(typ: string, tail: Stretch) {
    match tail
    case Empty => false
    case Then(before, _, op) => InsertedIn(typ, before) || (op.OpInsert? && op.typ == typ)
  }

  lemma {:induction false} ItemsMean(typ: string, items: seq<DumpItem>)
    ensures Loading(ItemChanges(typ, items)) && Marked(ItemChanges(typ, items)) == {}
    ensures InsertLogged in ItemChanges(typ, items) <==>
              exists i :: 0 <= i < |items| && items[i].DumpEntity? && items[i].entity.typ == typ
  {
    if items == [] {
    } else {
      ItemsMean(typ, items[..|items| - 1]);
    }
  }

  /** The snapshot holds an entity of the type exactly if the store it describes does. */
  lemma DumpHolds(typ: string, items: seq<DumpItem>, base: Table)
    requires IsDump(items, base)
    ensures InsertLogged in ItemChanges(typ, items) <==> exists key :: OfType(base.entities, key, typ)
  {
    ItemsMean(typ, items);
    if i :| 0 <= i < |items| && items[i].DumpEntity? && items[i].entity.typ == typ {
      assert ItemOk(items, i, base);
      assert OfType(base.entities, KeyOf(items[i].entity), typ);
    }
    if key :| OfType(base.entities, key, typ) {
      var i :| 0 <= i < |items| && items[i] == DumpEntity(base.entities[key]);
    }
  }

  lemma MarkedAppend(a: seq<Change>, b: seq<Change>)
    ensures Marked(a + b) == Marked(a) + Marked(b)
  {
    assert forall i :: 0 <= i < |a| ==> (a + b)[i] == a[i];
    assert forall i :: 0 <= i < |b| ==> (a + b)[|a| + i] == b[i];
    forall id | id in Marked(a + b) ensures id in Marked(a) + Marked(b) {
      var i :| 0 <= i < |a + b| && (a + b)[i] == DeleteMarked(id);
      assert i < |a| ==> a[i] == DeleteMarked(id);
      assert i >= |a| ==> b[i - |a|] == DeleteMarked(id);
    }
  }

  lemma {:induction false} TailMeans(typ: string, tail: Stretch)
    ensures Loading(TailChanges(typ, tail)) && Marked(TailChanges(typ, tail)) == DeletedIn(typ, tail)
    ensures InsertLogged in TailChanges(typ, tail) <==> InsertedIn(typ, tail)
  {
    match tail
    case Empty =>
    case Then(before, _, op) =>
      TailMeans(typ, before);
      MarkedAppend(TailChanges(typ, before), EntryChanges(typ, op));
      EntryMeans(typ, op);
  }

  lemma EntryMeans(typ: string, op: Op)
    ensures Loading(EntryChanges(typ, op)) && (InsertLogged in EntryChanges(typ, op) <==> op.OpInsert? && op.typ == typ)
    ensures Marked(EntryChanges(typ, op)) == if op.OpDelete? && op.typ == typ then {op.id} else {}
  {
    if op.OpDelete? && op.typ == typ { MarkedStep([], DeleteMarked(op.id)); }
  }

  function IdsOf(t: Table, typ: string): set<string> {
    set key | key in t.entities && t.entities[key].typ == typ :: t.entities[key].id
  }

  lemma SameIds(t1: Table, t2: Table, typ: string)
    requires Same(t1, t2)
    ensures IdsOf(t1, typ) == IdsOf(t2, typ)
  {
    forall key | key in t1.entities
      ensures t1.entities[key].typ == t2.entities[key].typ && t1.entities[key].id == t2.entities[key].id
    {
      assert SameEntity(t1.entities[key], t2.entities[key]);
    }
  }

  /** The snapshot or the log since then holds an insert of the type. */
  ghost predicate LoadsAny(typ: string, snapshot: Option<seq<DumpItem>>, m: Mark) {
    (snapshot.Some? && exists key :: OfType(m.base.entities, key, typ)) || InsertedIn(typ, m.tail)
  }

  lemma SaidMeans(typ: string, snapshot: Option<seq<DumpItem>>, m: Mark)
    requires snapshot.Some? ==> IsDump(snapshot.value, m.base)
    ensures var said := Said(typ, snapshot, m.tail);
            && Loading(said) && Marked(said) == DeletedIn(typ, m.tail)
            && (InsertLogged in said <==> LoadsAny(typ, snapshot, m))
  {
    TailMeans(typ, m.tail);
    if snapshot.Some? {
      ItemsMean(typ, snapshot.value);
      DumpHolds(typ, snapshot.value, m.base);
      MarkedAppend(ItemChanges(typ, snapshot.value), TailChanges(typ, m.tail));
    } else {
      assert Said(typ, snapshot, m.tail) == TailChanges(typ, m.tail);
    }
  }

  /** The counter and the deleted ids with which the type starts again. */
  ghost function CountingAtStart(fm: Formats, typ: string, saved: Saved, disk: Journal, loadNows: seq<int>,
      entries: Entries, transactions: seq<string>, moments: seq<Moment>): Counting
    requires StartUp(fm, disk, loadNows, entries, transactions, moments)
  {
    Started(AllChanged(Numbers(UNUSED, saved), StartChanges(fm, typ, disk, loadNows, entries, transactions, moments)),
        IdsOf(Recovered(fm, disk, loadNows, entries, transactions, moments), typ))
  }

  lemma StartsAsSaid(fm: Formats, typ: string, commands: seq<Command>, k: nat, n: nat, saved: Saved,
      loadNows: seq<int>, entries: Entries, transactions: seq<string>, moments: seq<Moment>)
    requires Legal(fm, commands) && k <= n <= |commands|
    requires CleanSlate(fm, commands, k) && NoLoss(fm, commands, k, n)
    requires StartUp(fm, Run(fm, commands[..n]).journal, loadNows, entries, transactions, moments)
    ensures var s := Run(fm, commands[..n]);
            CountingAtStart(fm, typ, saved, s.journal, loadNows, entries, transactions, moments) ==
            Started(AllChanged(Numbers(UNUSED, saved), Said(typ, s.journal.snapshot, MarkOf(fm, commands[..n]).tail)),
                IdsOf(s.table, typ))
  {
    var s := Run(fm, commands[..n]);
    StartSays(fm, typ, commands, k, n, loadNows, entries, transactions, moments);
    RunRecovers(fm, commands, k, n);
    assert Rebuilds(fm, s, loadNows, entries, transactions, moments);
    SameIds(Recovered(fm, s.journal, loadNows, entries, transactions, moments), s.table, typ);
  }

  lemma RunSaid(fm: Formats, typ: string, commands: seq<Command>, n: nat)
    requires Legal(fm, commands) && n <= |commands|
    ensures var snapshot, mark := Run(fm, commands[..n]).journal.snapshot, MarkOf(fm, commands[..n]);
            var said := Said(typ, snapshot, mark.tail);
            && Loading(said) && Marked(said) == DeletedIn(typ, mark.tail)
            && (InsertLogged in said <==> LoadsAny(typ, snapshot, mark))
  {
    RunIsBalanced(fm, commands, n);
    SaidMeans(typ, Run(fm, commands[..n]).journal.snapshot, MarkOf(fm, commands[..n]));
  }

  /** Which numbers are out of reach, told from the saved ones, from what was loaded, and from what is stored. */
  ghost predicate OutOfReach(saved: Saved, loadsAny: bool, deleted: set<string>, live: set<string>, m: nat) {
    var counter := if loadsAny then Some(0) else saved.counter;
    var marked := if deleted != {} then deleted else if saved.deleted.Some? then saved.deleted.value else {};
    || m <= Highest(live)
    || (counter.Some? && m <= counter.value)
    || ((counter.Some? || Highest(live) > 0) && IsDeleted(marked, m))
  }

  /**
   * After a crash in any run that lost nothing since a clean slate, and the start that follows, a number of the type is
   * never given out again if and only if it is at or below the highest stored number; or at or below the counter the
   * session saved, unless the snapshot or the log since then holds an insert of the type; or the type still has a
   * counter and the number was deleted since the snapshot, or, if nothing was, saved as deleted.
   */
  lemma NeverAfterCrashIff(fm: Formats, typ: string, commands: seq<Command>, k: nat, n: nat, saved: Saved,
      loadNows: seq<int>, entries: Entries, transactions: seq<string>, moments: seq<Moment>, m: nat)
    requires Legal(fm, commands) && k <= n <= |commands|
    requires CleanSlate(fm, commands, k) && NoLoss(fm, commands, k, n)
    requires StartUp(fm, Run(fm, commands[..n]).journal, loadNows, entries, transactions, moments)
    ensures var s, mark := Run(fm, commands[..n]), MarkOf(fm, commands[..n]);
            var c := CountingAtStart(fm, typ, saved, s.journal, loadNows, entries, transactions, moments);
            var live := IdsOf(s.table, typ);
            (forall calls :: m !in Generated(IdState(c, live), calls))
            <==> OutOfReach(saved, LoadsAny(typ, s.journal.snapshot, mark), DeletedIn(typ, mark.tail), live, m)
  {
    var s, mark := Run(fm, commands[..n]), MarkOf(fm, commands[..n]);
    StartsAsSaid(fm, typ, commands, k, n, saved, loadNows, entries, transactions, moments);
    RunSaid(fm, typ, commands, n);
    NeverAfterRestartIff(saved, Said(typ, s.journal.snapshot, mark.tail), IdsOf(s.table, typ), m);
  }
}
