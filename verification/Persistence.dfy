/** Taking a snapshot of the engine, and starting an engine from what a crashed one left behind. */
module Persistence {
  import opened Common
  import opened Keys
  import opened Store
  import opened Tables
  import opened Journals
  import opened LogOrder
  import opened Engines
  import A = Agreement

  // ---------- taking a snapshot ----------

  /**
   * TakeSnapshot, followed by the prune it triggers. written and pruned say whether the two database transactions
   * succeed; when only the second fails, the snapshot counts and the log stays.
   */
  method TakeSnapshot(engine: Engine, timestamp: nat, written: bool, pruned: bool)
    returns (ok: bool, items: seq<DumpItem>)
    requires engine.ListsExact() && engine.file != null
    modifies engine.file
    ensures IsDump(items, engine.Table()) && ok == written && engine.Table() == old(engine.Table())
    ensures written && pruned ==>
      engine.System() == Step(engine.fm, old(engine.System()), Command.TakeSnapshot(timestamp, items))
    ensures written && !pruned ==> engine.file.State() == old(engine.file.State()).(snapshot := Some(items))
    ensures !written ==> engine.file.State() == old(engine.file.State())
  {
    items := Dump(engine);
    if !written { return false, items; }
    engine.file.snapshot := Some(items);
    if pruned { engine.file.Prune(timestamp); }
    return true, items;
  }

  /** Everything dumped so far describes t, each type before its entities. */
  ghost predicate PartialDump(items: seq<DumpItem>, t: Table) {
    Distinct(items) && forall i :: 0 <= i < |items| ==> ItemOk(items, i, t)
  }

  lemma DumpGrows(items: seq<DumpItem>, item: DumpItem, t: Table)
    requires PartialDump(items, t) && item !in items
    requires item.DumpDefinition? ==> item.def.name in t.definitions && t.definitions[item.def.name] == item.def
    requires item.DumpEntity? ==>
      var e := item.entity;
      A.KeyOf(e) in t.entities && t.entities[A.KeyOf(e)] == e && e.typ in t.definitions
          && DumpDefinition(t.definitions[e.typ]) in items
    ensures PartialDump(items + [item], t)
  {
    var grown := items + [item];
    forall i | 0 <= i < |grown| ensures ItemOk(grown, i, t) {
      if i < |items| {
        assert ItemOk(items, i, t);
        assert items[i] == grown[i] && forall j :: 0 <= j < i ==> items[j] == grown[j];
      } else if item.DumpEntity? {
        var j :| 0 <= j < |items| && items[j] == DumpDefinition(t.definitions[item.entity.typ]);
        assert grown[j] == items[j];
      }
    }
  }

  /** The item describes type name or one of its entities. */
  predicate Describes(item: DumpItem, t: Table, name: string) {
    match item
    case DumpDefinition(def) => name in t.definitions && def == t.definitions[name]
    case DumpEntity(e) => A.KeyOf(e) in t.entities && t.entities[A.KeyOf(e)] == e && e.typ == name
  }

  /** The loop of TakeSnapshot over types. */
  method Dump(engine: Engine) returns (items: seq<DumpItem>)
    requires engine.ListsExact()
    ensures IsDump(items, engine.Table())
  {
    ghost var t := engine.Table();
    items := [];
    var types := engine.definitions.Keys;
    while types != {}
      invariant types <= engine.definitions.Keys
      invariant PartialDump(items, t)
      invariant forall item, name :: name in types && Describes(item, t, name) ==> item !in items
      invariant forall item, name :: name in t.definitions && name !in types && Describes(item, t, name) ==>
          item in items
      decreases types
    {
      var name :| name in types;
      var before := items;
      items := DumpType(engine, name, items);
      forall item, other | other != name && Describes(item, t, other) ensures item in items <==> item in before {
        assert !Describes(item, t, name);
      }
      types := types - {name};
    }
    forall name | name in t.definitions ensures DumpDefinition(t.definitions[name]) in items {
      assert Describes(DumpDefinition(t.definitions[name]), t, name);
    }
    forall key | key in t.entities ensures DumpEntity(t.entities[key]) in items {
      assert Describes(DumpEntity(t.entities[key]), t, t.entities[key].typ);
    }
  }

  /** One type: its definition, then the loop over its entities. */
  method DumpType(engine: Engine, name: string, before: seq<DumpItem>) returns (items: seq<DumpItem>)
    requires engine.ListsExact() && name in engine.definitions && PartialDump(before, engine.Table())
    requires forall item :: Describes(item, engine.Table(), name) ==> item !in before
    ensures PartialDump(items, engine.Table())
    ensures forall item :: item in items <==> item in before || Describes(item, engine.Table(), name)
  {
    ghost var t := engine.Table();
    assert Describes(DumpDefinition(engine.definitions[name]), t, name);
    DumpGrows(before, DumpDefinition(engine.definitions[name]), t);
    items := before + [DumpDefinition(engine.definitions[name])];
    var entities := ListEntities(engine, name);
    for i := 0 to |entities|
      invariant PartialDump(items, t) && DumpDefinition(engine.definitions[name]) in items
      invariant forall item :: item in items <==>
        item in before || item == DumpDefinition(engine.definitions[name])
            || (item.DumpEntity? && item.entity in entities[..i])
    {
      var e := entities[i];
      assert e in entities && e !in entities[..i];
      assert Describes(DumpEntity(e), t, name);
      DumpGrows(items, DumpEntity(e), t);
      items := items + [DumpEntity(e)];
      assert entities[..i + 1] == entities[..i] + [e];
    }
    assert entities[..|entities|] == entities;
  }

  /** GetAllEntitiesOfType. */
  method ListEntities(engine: Engine, name: string) returns (entities: seq<Entity>)
    requires engine.ListsExact()
    ensures Distinct(entities)
    ensures forall e :: e in entities <==>
        A.KeyOf(e) in engine.entities && engine.entities[A.KeyOf(e)] == e && e.typ == name
  {
    entities := [];
    var rest := engine.entities.Keys;
    while rest != {}
      invariant rest <= engine.entities.Keys && Distinct(entities)
      invariant forall e :: e in entities <==>
        A.KeyOf(e) in engine.entities && engine.entities[A.KeyOf(e)] == e && e.typ == name && A.KeyOf(e) !in rest
      decreases rest
    {
      var key :| key in rest;
      if engine.entities[key].typ == name {
        entities := entities + [engine.entities[key]];
      }
      rest := rest - {key};
    }
  }

  // ---------- loading a snapshot ----------

  /** What the engine asks of an operation handed back to it. */
  predicate Loadable(op: Op) {
    match op
    case OpRegister(def) => Registrable(def)
    case OpInsert(_, id, _) => id != ""
    case OpDelete(typ, _) => NoColon(typ)
    case _ => true
  }

  ghost predicate LogLoadable(wal: Wal) {
    forall key :: key in wal ==> Loadable(wal[key].op)
  }

  /** The loop that marks reserved fields internal. */
  method MarkReserved(def: EntityDefinition) returns (marked: EntityDefinition)
    ensures marked == Cleaned(def)
    ensures Registrable(def) ==> Registrable(marked)
  {
    var fields := def.fields;
    for j := 0 to |def.fields|
      invariant |fields| == |def.fields|
      invariant forall k :: 0 <= k < j ==> fields[k] == MarkInternal(def.fields)[k]
      invariant forall k :: j <= k < |fields| ==> fields[k] == def.fields[k]
    {
      if Reserved(fields[j].name) {
        fields := fields[j := fields[j].(internal := true)];
      }
    }
    assert fields == MarkInternal(def.fields);
    marked := def.(fields := fields);
  }

  /** One item of the stream: an ordinary call, with persistence attached. */
  method LoadItem(engine: Engine, item: DumpItem, now: int) returns (o: Outcome)
    requires engine.Valid() && engine.file != null && Loadable(LoadOp(item)) && LogLoadable(engine.file.wal)
    requires item.DumpDefinition? ==> Registrable(item.def)
    modifies engine, engine.file
    ensures engine.Valid() && LogLoadable(engine.file.wal)
    ensures o == Perform(engine.fm, old(engine.Table()), LoadOp(item), now).1
    ensures engine.System() == Execute(engine.fm, old(engine.System()), LoadOp(item), now)
  {
    PersistedIsExecute(engine.fm, engine.System(), LoadOp(item), now);
    ExecuteKeepsLoadable(engine.fm, engine.System(), LoadOp(item), now);
    match item
    case DumpDefinition(def) =>
      var marked := MarkReserved(def);
      o := engine.RegisterEntityType(marked, true);
    case DumpEntity(e) =>
      o := engine.Insert(e.typ, e.id, e.fields, None, now, true);
  }

  lemma ExecuteKeepsLoadable(fm: Formats, s: System, op: Op, now: int)
    requires LogLoadable(s.journal.wal) && Loadable(op)
    ensures LogLoadable(Execute(fm, s, op, now).journal.wal)
  {
    if op.OpRegister? { CompletedDistinct(op.def); }
  }

  ghost predicate ItemsLoadable(items: seq<DumpItem>) {
    forall i :: 0 <= i < |items| ==>
      (items[i].DumpDefinition? ==> Registrable(items[i].def)) && (items[i].DumpEntity? ==> items[i].entity.id != "")
  }

  lemma CleanedRegistrable(def: EntityDefinition)
    requires Registrable(def)
    ensures Registrable(Cleaned(def))
  {
  }

  /** LoadLatestSnapshot: stops at the first item that fails. */
  method LoadLatestSnapshot(engine: Engine, nows: seq<int>)
    requires engine.Valid() && engine.file != null && LogLoadable(engine.file.wal)
    requires engine.file.snapshot.Some? ==>
        |nows| == |engine.file.snapshot.value| && ItemsLoadable(engine.file.snapshot.value)
    modifies engine, engine.file
    ensures engine.Valid() && LogLoadable(engine.file.wal)
    ensures engine.System() ==
            if old(engine.file.snapshot).None? then old(engine.System())
            else LoadItems(engine.fm, old(engine.System()), old(engine.file.snapshot).value, nows).0
  {
    if engine.file.snapshot.None? { return; }
    var items := engine.file.snapshot.value;
    ghost var start := engine.System();
    var i := 0;
    while i < |items|
      invariant 0 <= i <= |items|
      invariant engine.Valid() && LogLoadable(engine.file.wal)
      invariant LoadItems(engine.fm, start, items[..i], nows[..i]) == (engine.System(), true)
    {
      assert items[..i + 1][..i] == items[..i] && nows[..i + 1][..i] == nows[..i];
      if items[i].DumpDefinition? { CleanedRegistrable(items[i].def); }
      var o := LoadItem(engine, items[i], nows[i]);
      if o != Done {
        StoppedLoad(engine.fm, start, items, nows, i);
        return;
      }
      i := i + 1;
    }
    assert items[..i] == items && nows[..i] == nows;
  }

  lemma LoadItemsFails(fm: Formats, s: System, items: seq<DumpItem>, nows: seq<int>)
    requires |nows| == |items| && items != []
    requires var n := |items| - 1; var (front, ok) := LoadItems(fm, s, items[..n], nows[..n]);
             !ok || Perform(fm, front.table, LoadOp(items[n]), nows[n]).1 != Done
    ensures var n := |items| - 1; LoadItems(fm, s, items, nows) == (LoadItems(fm, s, items[..n], nows[..n]).0, false)
  {
  }

  /** A load that stopped at item i ends where the items before it left it. */
  lemma {:induction false} StoppedLoad(fm: Formats, s: System, items: seq<DumpItem>, nows: seq<int>, i: nat)
    requires |nows| == |items| && i < |items|
    requires LoadItems(fm, s, items[..i], nows[..i]).1
    requires Perform(fm, LoadItems(fm, s, items[..i], nows[..i]).0.table, LoadOp(items[i]), nows[i]).1 != Done
    ensures LoadItems(fm, s, items, nows) == (LoadItems(fm, s, items[..i], nows[..i]).0, false)
  {
    var n := |items| - 1;
    if i == n {
    } else {
      assert items[..n][..i] == items[..i] && nows[..n][..i] == nows[..i];
      StoppedLoad(fm, s, items[..n], nows[..n], i);
    }
    LoadItemsFails(fm, s, items, nows);
  }

  // ---------- replaying the log ----------

  /** applyOperationWithErrorHandling; met is the key the walk of Get stopped at. */
  method ApplyOperation(engine: Engine, op: Op, now: int) returns (ghost met: string)
    requires engine.Valid() && engine.file != null && Loadable(op)
    modifies engine, engine.file
    ensures engine.Valid()
    ensures engine.Table() == Replay(engine.fm, old(engine.Table()), op, Moment(now, met))
  {
    met := "";
    PersistedTable(engine.fm, engine.System(), op, now);
    match op
    case OpRegister(def) =>
      if def.name !in engine.definitions {
        CleanedRegistrable(def);
        var marked := MarkReserved(def);
        PersistedTable(engine.fm, engine.System(), OpRegister(marked), 0);
        var o := engine.RegisterEntityType(marked, true);
      }
    case OpInsert(typ, id, data) =>
      var found, m := engine.Get(id);
      if found.None? {
        var o := engine.Insert(typ, id, data, None, now, true);
      }
    case OpUpdate(_, id, data) =>
      var found, m := engine.Get(id);
      met := m;
      if found.Some? {
        PersistedTable(engine.fm, engine.System(), OpUpdate(found.value.typ, id, data), now);
        var o := engine.Update(found.value.typ, id, data, now, true);
      }
    case OpDelete(typ, id) =>
      var found, m := engine.Get(id);
      PersistedTable(engine.fm, engine.System(), op, 0);
      if found.Some? {
        var o := engine.Delete(typ, id, true);
      }
    case OpTruncateType(typ) =>
      PersistedTable(engine.fm, engine.System(), op, 0);
      var o := engine.TruncateEntityType(typ, true);
    case OpTruncateDatabase =>
      PersistedTable(engine.fm, engine.System(), op, 0);
      var o := engine.TruncateDatabase(true);
  }

  lemma PersistedTable(fm: Formats, s: System, op: Op, now: int)
    ensures Persisted(fm, s, op, now, true).0.table == Perform(fm, s.table, op, now).0
  {
  }

  function OpsIn(entries: Entries): seq<Op> { seq(|entries|, i requires 0 <= i < |entries| => entries[i].1.op) }

  ghost predicate EntriesLoadable(entries: Entries) {
    forall i :: 0 <= i < |entries| ==> Loadable(entries[i].1.op)
  }

  /** One of LoadWAL's loops that apply a list of entries; errors are only counted. */
  method ApplyEntries(engine: Engine, entries: Entries, clock: nat -> int, tick: nat)
      returns (ghost moments: seq<Moment>)
    requires engine.Valid() && engine.file != null && EntriesLoadable(entries)
    modifies engine, engine.file
    ensures engine.Valid() && |moments| == |entries|
    ensures engine.Table() == ReplayAll(engine.fm, old(engine.Table()), OpsIn(entries), moments)
  {
    moments := [];
    for i := 0 to |entries|
      invariant engine.Valid() && |moments| == i
      invariant engine.Table() == ReplayAll(engine.fm, old(engine.Table()), OpsIn(entries[..i]), moments)
    {
      var op, now := entries[i].1.op, clock(tick + i);
      var met := ApplyOperation(engine, op, now);
      ghost var grown := moments + [Moment(now, met)];
      assert OpsIn(entries[..i + 1])[..i] == OpsIn(entries[..i]) && grown[..i] == moments;
      moments := grown;
    }
    assert entries[..|entries|] == entries;
  }

  method IsComplete(entries: Entries) returns (complete: bool)
    ensures complete <==> exists i :: 0 <= i < |entries| && entries[i].1.isLast
  {
    for i := 0 to |entries|
      invariant forall k :: 0 <= k < i ==> !entries[k].1.isLast
    {
      if entries[i].1.isLast { return true; }
    }
    return false;
  }

  /** The iterator over the log and the sort by sequence number. */
  method SortedEntries(wal: Wal) returns (entries: Entries)
    ensures LoadOrder(wal, entries)
  {
    entries := [];
    var rest := wal.Keys;
    while rest != {}
      invariant rest <= wal.Keys && Distinct(entries) && Sorted(entries)
      invariant forall p :: p in entries <==> p.0 in wal && p.0 !in rest && wal[p.0] == p.1
      decreases rest
    {
      var key :| key in rest;
      var p := (key, wal[key]);
      var at := 0;
      while at < |entries| && entries[at].1.sequence <= p.1.sequence
        invariant 0 <= at <= |entries|
        invariant forall k :: 0 <= k < at ==> entries[k].1.sequence <= p.1.sequence
      {
        at := at + 1;
      }
      InsertAt(entries, at, p);
      entries := entries[..at] + [p] + entries[at..];
      rest := rest - {key};
    }
    forall i | 0 <= i < |entries| ensures entries[i].0 in wal && wal[entries[i].0] == entries[i].1 {
      assert entries[i] in entries;
    }
  }

  predicate Sorted(entries: Entries) {
    forall i, j :: 0 <= i < j < |entries| ==> entries[i].1.sequence <= entries[j].1.sequence
  }

  lemma InsertAt(entries: Entries, at: nat, p: (WalKey, WalEntry))
    requires at <= |entries| && Sorted(entries) && Distinct(entries) && p !in entries
    requires forall k :: 0 <= k < at ==> entries[k].1.sequence <= p.1.sequence
    requires at < |entries| ==> p.1.sequence < entries[at].1.sequence
    ensures var grown := entries[..at] + [p] + entries[at..];
            Sorted(grown) && Distinct(grown) && forall q :: q in grown <==> q in entries || q == p
  {
    assert entries == entries[..at] + entries[at..];
  }

  /** Every named transaction that occurs has its entries, in order, under its name. */
  ghost predicate GroupedBy(entries: Entries, groups: map<string, Entries>) {
    && (forall name {:trigger Select(entries, name)} :: name != "" ==> Select(entries, name) == if name in groups
        then groups[name] else [])
    && (forall name :: name in groups ==> name != "" && groups[name] != [])
  }

  lemma SelectNext(before: Entries, p: (WalKey, WalEntry), name: string)
    ensures Select(before + [p], name) == Select(before, name) + if p.1.transaction == name then [p] else []
  {
    assert (before + [p])[..|before|] == before;
  }

  function GroupsWith(groups: map<string, Entries>, p: (WalKey, WalEntry)): map<string, Entries> {
    var name := p.1.transaction;
    if name == "" then groups else groups[name := (if name in groups then groups[name] else []) + [p]]
  }

  lemma GroupNext(before: Entries, p: (WalKey, WalEntry), groups: map<string, Entries>)
    requires GroupedBy(before, groups)
    ensures GroupedBy(before + [p], GroupsWith(groups, p))
  {
    var more := GroupsWith(groups, p);
    forall name | name != "" ensures Select(before + [p], name) == if name in more then more[name] else [] {
      SelectNext(before, p, name);
      assert Select(before, name) == if name in groups then groups[name] else [];
    }
  }

  /** LoadWAL's grouping loop: each transaction's entries in order, and the plain ones apart. */
  method GroupEntries(entries: Entries) returns (groups: map<string, Entries>, plain: Entries)
    ensures plain == Select(entries, "") && GroupedBy(entries, groups)
    ensures forall name :: name in groups <==> name != "" && exists i ::
        0 <= i < |entries| && entries[i].1.transaction == name
  {
    groups, plain := map[], [];
    for i := 0 to |entries|
      invariant plain == Select(entries[..i], "") && GroupedBy(entries[..i], groups)
    {
      var name := entries[i].1.transaction;
      assert entries[..i + 1] == entries[..i] + [entries[i]];
      GroupNext(entries[..i], entries[i], groups);
      SelectNext(entries[..i], entries[i], "");
      if name != "" {
        groups := groups[name := (if name in groups then groups[name] else []) + [entries[i]]];
      } else {
        plain := plain + [entries[i]];
      }
    }
    assert entries[..|entries|] == entries;
    GroupNames(entries, groups);
  }

  lemma GroupNames(entries: Entries, groups: map<string, Entries>)
    requires GroupedBy(entries, groups)
    ensures forall name :: name in groups <==> name != "" && exists i ::
        0 <= i < |entries| && entries[i].1.transaction == name
  {
    forall name | name != "" ensures name in groups <==> exists i ::
        0 <= i < |entries| && entries[i].1.transaction == name
    {
      SelectElements(entries, name);
      if name in groups { assert Select(entries, name)[0] in entries; }
      if i :| 0 <= i < |entries| && entries[i].1.transaction == name { assert entries[i] in Select(entries, name); }
    }
  }

  lemma SelectLoadable(entries: Entries, name: string)
    requires EntriesLoadable(entries)
    ensures EntriesLoadable(Select(entries, name)) && OpsIn(Select(entries, name)) == OpsOf(entries, name)
    ensures (exists i :: 0 <= i < |Select(entries, name)| && Select(entries, name)[i].1.isLast)
        <==> Complete(entries, name)
  {
    OpsOfSelect(entries, name);
    SelectElements(entries, name);
    forall i | 0 <= i < |Select(entries, name)| ensures Loadable(Select(entries, name)[i].1.op) {
      assert Select(entries, name)[i] in Select(entries, name);
    }
    if i :| 0 <= i < |Select(entries, name)| && Select(entries, name)[i].1.isLast {
      assert Select(entries, name)[i] in entries;
    }
    if i :| 0 <= i < |entries| && entries[i].1.transaction == name && entries[i].1.isLast {
      assert entries[i] in Select(entries, name);
    }
  }

  lemma {:induction false} SelectElements(entries: Entries, name: string)
    ensures forall p :: p in Select(entries, name) <==> p in entries && p.1.transaction == name
  {
    if entries == [] {
    } else {
      SplitLast(entries);
      SelectElements(entries[..|entries| - 1], name);
    }
  }

  /** One transaction's entries are applied if one of them is marked as its last. */
  method ApplyTransaction(engine: Engine, ghost entries: Entries, ghost name: string, group: Entries, clock: nat -> int,
      tick: nat)
    returns (ghost moments: seq<Moment>)
    requires engine.Valid() && engine.file != null && EntriesLoadable(entries) && group == Select(entries, name)
    modifies engine, engine.file
    ensures engine.Valid() && |moments| == |Group(entries, name)|
    ensures engine.Table() == ReplayAll(engine.fm, old(engine.Table()), Group(entries, name), moments)
  {
    SelectLoadable(entries, name);
    var complete := IsComplete(group);
    moments := [];
    if complete {
      moments := ApplyEntries(engine, group, clock, tick);
    }
  }

  /** The loop over the transactions, in whatever order the map yields them. */
  method ApplyTransactions(engine: Engine, ghost entries: Entries, groups: map<string, Entries>, clock: nat -> int,
      tick: nat)
    returns (ghost transactions: seq<string>, ghost moments: seq<Moment>)
    requires engine.Valid() && engine.file != null && EntriesLoadable(entries) && GroupedBy(entries, groups)
    modifies engine, engine.file
    ensures engine.Valid()
    ensures Distinct(transactions) && forall name :: name in transactions <==> name in groups
    ensures |moments| == |Groups(entries, transactions)|
    ensures engine.Table() == ReplayAll(engine.fm, old(engine.Table()), Groups(entries, transactions), moments)
  {
    transactions, moments := [], [];
    ghost var start := engine.Table();
    var ticks: nat := tick;
    var rest := groups.Keys;
    while rest != {}
      invariant engine.Valid() && rest <= groups.Keys && Distinct(transactions)
      invariant forall name :: name in transactions <==> name in groups && name !in rest
      invariant |moments| == |Groups(entries, transactions)|
      invariant engine.Table() == ReplayAll(engine.fm, start, Groups(entries, transactions), moments)
      decreases rest
    {
      var name :| name in rest;
      assert groups[name] == Select(entries, name);
      ghost var more := ApplyTransaction(engine, entries, name, groups[name], clock, ticks);
      ticks := ticks + |groups[name]|;
      GroupsGrow(engine.fm, start, entries, transactions, name, moments, more);
      moments := moments + more;
      transactions := transactions + [name];
      rest := rest - {name};
    }
  }

  /**
   * LoadWAL. The ghost results record the order of the log, the order in which transactions came, and what each call
   * saw.
   */
  method LoadWAL(engine: Engine, clock: nat -> int)
    returns (ghost entries: Entries, ghost transactions: seq<string>, ghost moments: seq<Moment>)
    requires engine.Valid() && engine.file != null && LogLoadable(engine.file.wal)
    modifies engine, engine.file
    ensures engine.Valid()
    ensures LoadOrder(old(engine.file.wal), entries) && TransactionOrder(entries, transactions)
    ensures |moments| == |Handed(entries, transactions)|
    ensures engine.Table() == ReplayAll(engine.fm, old(engine.Table()), Handed(entries, transactions), moments)
  {
    var sorted := SortedEntries(engine.file.wal);
    entries := sorted;
    ghost var start := engine.Table();
    var groups, plain := GroupEntries(sorted);
    SelectLoadable(sorted, "");
    ghost var first := ApplyEntries(engine, plain, clock, 0);
    ghost var more;
    transactions, more := ApplyTransactions(engine, sorted, groups, clock, |plain|);
    moments := first + more;
    ReplayParts(engine.fm, start, OpsOf(entries, ""), Groups(entries, transactions), first, more);
  }

  lemma ReplayParts(fm: Formats, start: Table, a: seq<Op>, b: seq<Op>, first: seq<Moment>, more: seq<Moment>)
    requires |first| == |a| && |more| == |b|
    ensures ReplayAll(fm, start, a + b, first + more) == ReplayAll(fm, ReplayAll(fm, start, a, first), b, more)
  {
    assert (first + more)[..|a|] == first && (first + more)[|a|..] == more;
    ReplayAppend(fm, start, a, b, first + more);
  }

  lemma GroupsGrow(fm: Formats, start: Table, entries: Entries, transactions: seq<string>, name: string,
      moments: seq<Moment>, more: seq<Moment>)
    requires |moments| == |Groups(entries, transactions)| && |more| == |Group(entries, name)|
    ensures |moments + more| == |Groups(entries, transactions + [name])|
    ensures ReplayAll(fm, start, Groups(entries, transactions + [name]), moments + more) ==
            ReplayAll(fm, ReplayAll(fm, start, Groups(entries, transactions), moments), Group(entries, name), more)
  {
    assert (transactions + [name])[..|transactions|] == transactions;
    ReplayParts(fm, start, Groups(entries, transactions), Group(entries, name), moments, more);
  }

  // ---------- starting up ----------

  /**
   * NewDataStoreEngine on what a crashed session left in the database: load the snapshot, then the log.
   * The new engine's indexes agree with its entities, and its store is the one Recovered describes.
   */
  method Start(fm: Formats, wal: Wal, snapshot: Option<seq<DumpItem>>, loadNows: seq<int>, clock: nat -> int)
    returns (engine: Engine, ghost entries: Entries, ghost transactions: seq<string>, ghost moments: seq<Moment>)
    requires LogLoadable(wal)
    requires snapshot.Some? ==> |loadNows| == |snapshot.value| && ItemsLoadable(snapshot.value)
    ensures fresh(engine) && engine.fm == fm && engine.Valid()
    ensures forall sequence :: StartUp(fm, Journal(sequence, wal, snapshot), loadNows, entries, transactions, moments)
              && engine.Table() == Recovered(fm, Journal(sequence, wal, snapshot), loadNows, entries, transactions,
                  moments)
  {
    var file := new WalFile(wal, snapshot);
    engine := new Engine(fm, file);
    LoadLatestSnapshot(engine, loadNows);
    ghost var booted := engine.System();
    assert forall sequence :: Booted(fm, Journal(sequence, wal, snapshot), loadNows) == booted;
    entries, transactions, moments := LoadWAL(engine, clock);
  }
}
