/** The write-ahead log, the snapshot, and how start-up turns them back into a store. */
module Journals {
  import opened Common
  import opened Keys
  import opened IdFormats
  import opened Validation
  import opened Store
  import opened Agreement
  import opened Tables

  // ---------- operations and the log ----------

  datatype Op =
    | OpRegister(def: EntityDefinition)
    | OpInsert(typ: string, id: string, data: Fields)
    | OpUpdate(typ: string, id: string, data: Fields)
    | OpDelete(typ: string, id: string)
    | OpTruncateType(typ: string)
    | OpTruncateDatabase

  function Perform(fm: Formats, t: Table, op: Op, now: int): (Table, Outcome) {
    match op
    case OpRegister(def) => Register(t, def)
    case OpInsert(typ, id, data) => Insert(fm, t, typ, id, data, now)
    case OpUpdate(typ, id, data) => Update(fm, t, typ, id, data, now)
    case OpDelete(typ, id) => Delete(t, typ, id)
    case OpTruncateType(typ) => TruncateType(t, typ)
    case OpTruncateDatabase => TruncateDatabase(t)
  }

  /** The store after a sequence of calls, one after another. */
  function After(fm: Formats, t: Table, ops: seq<Op>, nows: seq<int>): Table
    requires |nows| == |ops|
  {
    if ops == [] then t
    else
      var n := |ops| - 1;
      Perform(fm, After(fm, t, ops[..n], nows[..n]), ops[n], nows[n]).0
  }

  /** A successful call is logged, except a truncate that found nothing to remove. */
  predicate Writes(fm: Formats, t: Table, op: Op, now: int) {
    && Perform(fm, t, op, now).1 == Done
    && (op.OpTruncateType? ==> exists key :: key in t.entities && OfType(t.entities, key, op.typ))
    && (op.OpTruncateDatabase? ==> t.entities != map[])
  }

  /** What the log records: the completed definition, or the data as the engine stamped it. */
  function EntryFor(op: Op, now: int): Op {
    match op
    case OpRegister(def) => OpRegister(Completed(def))
    case OpInsert(typ, id, data) => OpInsert(typ, id, Stamped(data, now))
    case OpUpdate(typ, id, data) => OpUpdate(typ, id, Restamped(data, now))
    case _ => op
  }

  function TypeOf(op: Op): string {
    match op
    case OpRegister(def) => def.name
    case OpTruncateDatabase => ""
    case _ => op.typ
  }

  function IdOf(op: Op): string {
    if op.OpInsert? || op.OpUpdate? || op.OpDelete? then op.id else ""
  }

  // The database key wal:<sequence>:<type>:<id>
  datatype WalKey = WalKey(sequence: nat, typ: string, id: string)

  datatype WalEntry = WalEntry(sequence: nat, transaction: string, op: Op, isLast: bool)

  type Wal = map<WalKey, WalEntry>

  function KeyFor(sequence: nat, op: Op): WalKey { WalKey(sequence, TypeOf(op), IdOf(op)) }

  /** The key tells the entry's number and the type and id it is about, as far as it is about one. */
  lemma KeyTells(sequence: nat, op: Op)
    ensures KeyFor(sequence, op).sequence == sequence
    ensures op.OpInsert? || op.OpUpdate? || op.OpDelete? ==> KeyFor(sequence, op) == WalKey(sequence, op.typ, op.id)
    ensures op.OpRegister? ==> KeyFor(sequence, op) == WalKey(sequence, op.def.name, "")
    ensures op.OpTruncateType? ==> KeyFor(sequence, op) == WalKey(sequence, op.typ, "")
    ensures op.OpTruncateDatabase? ==> KeyFor(sequence, op) == WalKey(sequence, "", "")
  {
  }

  /** A snapshot is a stream in which every definition precedes the entities of its type. */
  datatype DumpItem = DumpDefinition(def: EntityDefinition) | DumpEntity(entity: Entity)

  datatype Journal = Journal(sequence: nat, wal: Wal, snapshot: Option<seq<DumpItem>>)

  /** WriteWALEntry. */
  function Append(j: Journal, op: Op): Journal {
    var n := j.sequence + 1;
    j.(sequence := n, wal := j.wal[KeyFor(n, op) := WalEntry(n, "", op, false)])
  }

  /** PruneWALBeforeTimestamp, which compares the sequence number in the key with a time in nanoseconds. */
  function Pruned(wal: Wal, timestamp: nat): Wal {
    map key | key in wal && key.sequence > timestamp :: wal[key]
  }

  /** Item i describes t, and the definition of an entity comes before it. */
  ghost predicate ItemOk(items: seq<DumpItem>, i: nat, t: Table)
    requires i < |items|
  {
    match items[i]
    case DumpDefinition(def) => def.name in t.definitions && t.definitions[def.name] == def
    case DumpEntity(e) =>
      && KeyOf(e) in t.entities && t.entities[KeyOf(e)] == e && e.typ in t.definitions
      && exists j :: 0 <= j < i && items[j] == DumpDefinition(t.definitions[e.typ])
  }

  ghost predicate IsDump(items: seq<DumpItem>, t: Table) {
    && Distinct(items)
    && (forall i :: 0 <= i < |items| ==> ItemOk(items, i, t))
    && (forall name :: name in t.definitions ==> DumpDefinition(t.definitions[name]) in items)
    && (forall key :: key in t.entities ==> DumpEntity(t.entities[key]) in items)
  }

  // ---------- a running system ----------

  datatype System = System(table: Table, journal: Journal)

  const FRESH_SYSTEM := System(EMPTY_TABLE, Journal(0, map[], None))

  function Execute(fm: Formats, s: System, op: Op, now: int): System {
    System(Perform(fm, s.table, op, now).0,
           if Writes(fm, s.table, op, now) then Append(s.journal, EntryFor(op, now)) else s.journal)
  }

  /** The journal after WriteWALEntry: the number is used up even when the write fails. */
  function Attempted(j: Journal, entry: Op, disk: bool): Journal {
    if disk then Append(j, entry) else j.(sequence := j.sequence + 1)
  }

  /** One engine call whose log write may fail: all but the truncates then take back what they did. */
  function Persisted(fm: Formats, s: System, op: Op, now: int, disk: bool): (System, Outcome) {
    var (t, o) := Perform(fm, s.table, op, now);
    if !Writes(fm, s.table, op, now) then (System(t, s.journal), o)
    else
      (System(if disk || op.OpTruncateType? || op.OpTruncateDatabase? then t else s.table,
              Attempted(s.journal, EntryFor(op, now), disk)),
       if disk then Done else Failed(PersistenceFailed))
  }

  /** Persisted, for a call that succeeds in memory with store t'. */
  lemma PersistedWhenDone(fm: Formats, s: System, op: Op, now: int, disk: bool, t': Table)
    requires Perform(fm, s.table, op, now) == (t', Done) && !op.OpTruncateType? && !op.OpTruncateDatabase?
    ensures Persisted(fm, s, op, now, disk) ==
            (System(if disk then t' else s.table, Attempted(s.journal, EntryFor(op, now), disk)),
             if disk then Done else Failed(PersistenceFailed))
  {
  }

  /** When the write succeeds, that is what Execute does. */
  lemma PersistedIsExecute(fm: Formats, s: System, op: Op, now: int)
    ensures Persisted(fm, s, op, now, true) == (Execute(fm, s, op, now), Perform(fm, s.table, op, now).1)
  {
  }

  /** Persisted, for a call that fails its checks. */
  lemma PersistedWhenFailed(fm: Formats, s: System, op: Op, now: int, disk: bool, error: Error)
    requires Perform(fm, s.table, op, now) == (s.table, Failed(error))
    ensures Persisted(fm, s, op, now, disk) == (s, Failed(error))
  {
  }

  /** A call and whether its log write succeeds, or a snapshot. */
  datatype Command = Call(op: Op, now: int, disk: bool) | TakeSnapshot(timestamp: nat, items: seq<DumpItem>)

  function Step(fm: Formats, s: System, c: Command): System {
    match c
    case Call(op, now, disk) => Persisted(fm, s, op, now, disk).0
    case TakeSnapshot(timestamp, items) =>
      s.(journal := s.journal.(wal := Pruned(s.journal.wal, timestamp), snapshot := Some(items)))
  }

  function Run(fm: Formats, commands: seq<Command>): System {
    if commands == [] then FRESH_SYSTEM
    else Step(fm, Run(fm, commands[..|commands| - 1]), commands[|commands| - 1])
  }

  // ---------- start-up ----------

  /** What a replayed call sees from outside: the clock, and the key a walk of the entity map happens to meet first. */
  datatype Moment = Moment(now: int, met: string)

  /** Get by bare id succeeds. */
  predicate GetFinds(keys: set<string>, id: string) {
    id in keys || exists key :: key in keys && ParseKey(key).1 == id
  }

  /** The entity Get answers: under the id itself as a key, else under any key whose id part matches. */
  ghost function GetKey(keys: set<string>, id: string, met: string): string
    requires GetFinds(keys, id)
    ensures GetKey(keys, id, met) in keys
    ensures GetKey(keys, id, met) == id || ParseKey(GetKey(keys, id, met)).1 == id
  {
    if id in keys then id
    else if met in keys && ParseKey(met).1 == id then met
    else var key :| key in keys && ParseKey(key).1 == id; key
  }

  function MarkInternal(fields: seq<FieldDefinition>): seq<FieldDefinition> {
    seq(|fields|, i requires 0 <= i < |fields| => if Reserved(fields[i].name) then fields[i].(internal := true)
        else fields[i])
  }

  function Cleaned(def: EntityDefinition): EntityDefinition { def.(fields := MarkInternal(def.fields)) }

  /**
   * applyOperationWithErrorHandling: existence guards by bare id, then the ordinary operation; errors are only counted.
   */
  ghost function Replay(fm: Formats, t: Table, op: Op, m: Moment): Table {
    match op
    case OpRegister(def) => if def.name in t.definitions then t else Register(t, Cleaned(def)).0
    case OpInsert(_, id, _) => if GetFinds(t.entities.Keys, id) then t else Perform(fm, t, op, m.now).0
    case OpUpdate(_, id, data) =>
      if GetFinds(t.entities.Keys, id)
      then Update(fm, t, t.entities[GetKey(t.entities.Keys, id, m.met)].typ, id, data, m.now).0
      else t
    case OpDelete(_, id) => if GetFinds(t.entities.Keys, id) then Perform(fm, t, op, m.now).0 else t
    case _ => Perform(fm, t, op, m.now).0
  }

  ghost function ReplayAll(fm: Formats, t: Table, ops: seq<Op>, moments: seq<Moment>): Table
    requires |moments| == |ops|
  {
    if ops == [] then t
    else
      var n := |ops| - 1;
      Replay(fm, ReplayAll(fm, t, ops[..n], moments[..n]), ops[n], moments[n])
  }

  /** The call LoadLatestSnapshot makes for one item of the stream. */
  function LoadOp(item: DumpItem): Op {
    match item
    case DumpDefinition(def) => OpRegister(Cleaned(def))
    case DumpEntity(e) => OpInsert(e.typ, e.id, e.fields)
  }

  /** LoadLatestSnapshot: ordinary calls, logged like any other, up to the first that fails. */
  function LoadItems(fm: Formats, s: System, items: seq<DumpItem>, nows: seq<int>): (System, bool)
    requires |nows| == |items|
  {
    if items == [] then (s, true)
    else
      var n := |items| - 1;
      var (front, ok) := LoadItems(fm, s, items[..n], nows[..n]);
      if ok && Perform(fm, front.table, LoadOp(items[n]), nows[n]).1 == Done
      then (Execute(fm, front, LoadOp(items[n]), nows[n]), true)
      else (front, false)
  }

  /** The entries of the log in the order LoadWAL sorts them: each key once, by sequence number. */
  ghost predicate LoadOrder(wal: Wal, entries: Entries) {
    && Distinct(entries)
    && (forall i :: 0 <= i < |entries| ==> entries[i].0 in wal && wal[entries[i].0] == entries[i].1)
    && (forall key :: key in wal ==> (key, wal[key]) in entries)
    && (forall i, j :: 0 <= i < j < |entries| ==> entries[i].1.sequence <= entries[j].1.sequence)
  }

  /** The operations of one transaction, in order; the empty name selects the entries outside any transaction. */
  function OpsOf(entries: Entries, transaction: string): seq<Op> {
    if entries == [] then []
    else
      OpsOf(entries[..|entries| - 1], transaction)
      + (if entries[|entries| - 1].1.transaction == transaction then [entries[|entries| - 1].1.op] else [])
  }

  predicate Complete(entries: Entries, transaction: string) {
    exists i :: 0 <= i < |entries| && entries[i].1.transaction == transaction && entries[i].1.isLast
  }

  /** A transaction's operations if its last entry reached the log, else none of them. */
  function Group(entries: Entries, transaction: string): seq<Op> {
    if Complete(entries, transaction) then OpsOf(entries, transaction) else []
  }

  function Groups(entries: Entries, transactions: seq<string>): seq<Op> {
    if transactions == [] then []
    else Groups(entries, transactions[..|transactions| - 1]) + Group(entries, transactions[|transactions| - 1])
  }

  /** What LoadWAL hands to the store: all plain entries first, then the complete transactions in any order. */
  function Handed(entries: Entries, transactions: seq<string>): seq<Op> {
    OpsOf(entries, "") + Groups(entries, transactions)
  }

  /** The map of transaction groups, listed in some order. */
  ghost predicate TransactionOrder(entries: Entries, transactions: seq<string>) {
    && Distinct(transactions)
    && forall name :: name in transactions <==>
         name != "" && exists i :: 0 <= i < |entries| && entries[i].1.transaction == name
  }

  /** The system just after the snapshot of a crashed session has been loaded into an empty store. */
  function Booted(fm: Formats, disk: Journal, nows: seq<int>): System
    requires disk.snapshot.Some? ==> |nows| == |disk.snapshot.value|
  {
    var s := System(EMPTY_TABLE, disk.(sequence := 0));
    if disk.snapshot.None? then s else LoadItems(fm, s, disk.snapshot.value, nows).0
  }

  // ---------- comparing stores ----------

  predicate SameEntity(e1: Entity, e2: Entity) {
    e1.id == e2.id && e1.typ == e2.typ && e1.fields - {UPDATED_AT} == e2.fields - {UPDATED_AT}
  }

  /** Equal stores, except that recovery stamps _updated_at afresh. */
  predicate Same(t1: Table, t2: Table) {
    && t1.definitions == t2.definitions
    && t1.entities.Keys == t2.entities.Keys
    && forall key {:trigger SameEntity(t1.entities[key], t2.entities[key])} :: key in t1.entities ==>
        SameEntity(t1.entities[key], t2.entities[key])
  }

  lemma SameTrans(a: Table, b: Table, c: Table)
    requires Same(a, b) && Same(b, c)
    ensures Same(a, c)
  {
    forall key | key in a.entities ensures SameEntity(a.entities[key], c.entities[key]) {
      assert SameEntity(a.entities[key], b.entities[key]) && SameEntity(b.entities[key], c.entities[key]);
    }
  }

  type Entries = seq<(WalKey, WalEntry)>

  /**
   * One possible start-up: its clock readings and map walks, the order of the log, and the order of the transaction
   * map.
   */
  ghost predicate StartUp(fm: Formats, disk: Journal, loadNows: seq<int>, entries: Entries, transactions: seq<string>,
      moments: seq<Moment>) {
    && (disk.snapshot.Some? ==> |loadNows| == |disk.snapshot.value|)
    && LoadOrder(Booted(fm, disk, loadNows).journal.wal, entries)
    && TransactionOrder(entries, transactions)
    && |moments| == |Handed(entries, transactions)|
  }

  /** The store it ends with: LoadLatestSnapshot, then LoadWAL. */
  ghost function Recovered(fm: Formats, disk: Journal, loadNows: seq<int>, entries: Entries, transactions: seq<string>,
      moments: seq<Moment>): Table
    requires StartUp(fm, disk, loadNows, entries, transactions, moments)
  {
    ReplayAll(fm, Booted(fm, disk, loadNows).table, Handed(entries, transactions), moments)
  }

  ghost predicate Rebuilds(fm: Formats, s: System, loadNows: seq<int>, entries: Entries, transactions: seq<string>,
      moments: seq<Moment>) {
    StartUp(fm, s.journal, loadNows, entries, transactions, moments) ==>
      Same(Recovered(fm, s.journal, loadNows, entries, transactions, moments), s.table)
  }

  /** Every possible start-up after a crash in this state rebuilds the store. */
  ghost predicate RecoversExactly(fm: Formats, s: System) {
    forall loadNows: seq<int>, entries, transactions, moments: seq<Moment>
      {:trigger Rebuilds(fm, s, loadNows, entries, transactions, moments)} ::
      Rebuilds(fm, s, loadNows, entries, transactions, moments)
  }
}
