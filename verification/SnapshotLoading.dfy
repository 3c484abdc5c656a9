/** Loading a snapshot: it rebuilds the dumped store and logs every call afresh, ahead of the surviving log. */
module SnapshotLoading {
  import opened Common
  import opened Keys
  import opened IdFormats
  import opened Validation
  import opened Store
  import opened Agreement
  import opened Tables
  import opened Journals
  import opened Recovery

  function Names(items: seq<DumpItem>): set<string> {
    set i | 0 <= i < |items| && items[i].DumpDefinition? :: items[i].def.name
  }

  function EntityKeys(items: seq<DumpItem>): set<string> {
    set i | 0 <= i < |items| && items[i].DumpEntity? :: KeyOf(items[i].entity)
  }

  /** t is the part of base that the items describe. */
  ghost predicate LoadedFrom(base: Table, items: seq<DumpItem>, t: Table) {
    && t.definitions.Keys == Names(items)
    && t.entities.Keys == EntityKeys(items)
    && (forall name :: name in t.definitions ==>
        name in base.definitions && t.definitions[name] == base.definitions[name])
    && (forall key :: key in t.entities ==> key in base.entities && SameEntity(t.entities[key], base.entities[key]))
  }

  lemma StampAccepted(fm: Formats, def: EntityDefinition, data: Fields, now: int)
    requires Clean(def) && EntityDataOk(fm, def, data)
    ensures CREATED_AT in data
    ensures EntityDataOk(fm, def, Stamped(data, now))
  {
    assert InternalDefinition(CREATED_AT) in def.fields && InternalDefinition(UPDATED_AT) in def.fields;
  }

  lemma NextNamesAndKeys(front: seq<DumpItem>, item: DumpItem)
    ensures Names(front + [item]) == Names(front) + (if item.DumpDefinition? then {item.def.name} else {})
    ensures EntityKeys(front + [item]) == EntityKeys(front) + (if item.DumpEntity? then {KeyOf(item.entity)} else {})
  {
    var items := front + [item];
    assert forall j :: 0 <= j < |front| ==> front[j] == items[j];
    assert items[|front|] == item;
  }

  /** Each item of a dump is new: its name or key was not seen before it. */
  lemma ItemIsNew(items: seq<DumpItem>, base: Table, i: nat)
    requires WellFormed(base) && IsDump(items, base) && i < |items|
    ensures items[i].DumpDefinition? ==> items[i].def.name !in Names(items[..i])
    ensures items[i].DumpEntity? ==>
        KeyOf(items[i].entity) !in EntityKeys(items[..i]) && items[i].entity.typ in Names(items[..i])
  {
    assert ItemOk(items, i, base);
    forall j | 0 <= j < i ensures items[j] != items[i] && ItemOk(items, j, base) {
    }
    if items[i].DumpEntity? {
      var j :| 0 <= j < i && items[j] == DumpDefinition(base.definitions[items[i].entity.typ]);
      assert items[..i][j] == items[j];
    }
  }

  lemma NoClashWhileLoading(fm: Formats, base: Table, t: Table, items: seq<DumpItem>, e: Entity, now: int)
    requires Sound(fm, base) && CleanDefs(base) && LoadedFrom(base, items, t)
    requires KeyOf(e) in base.entities && base.entities[KeyOf(e)] == e && KeyOf(e) !in t.entities
    requires e.typ in t.definitions && CREATED_AT in e.fields
    ensures !Clashes(fm, t.definitions[e.typ], t.entities, Stamped(e.fields, now), "")
  {
    var def, data := t.definitions[e.typ], Stamped(e.fields, now);
    StampedSame(e.fields, now, now);
    forall f, k | f in def.fields && f.unique && k in t.entities && t.entities[k].typ == def.name
        && UniqueKey(fm, data, f.name).Some?
      ensures UniqueKey(fm, data, f.name) != UniqueKey(fm, t.entities[k].fields, f.name)
    {
      assert SameEntity(t.entities[k], base.entities[k]);
      assert KeysDiffer(fm, base, KeyOf(e), k);
      SameDataAt(data, e.fields, f.name);
      SameDataAt(t.entities[k].fields, base.entities[k].fields, f.name);
      assert f in base.definitions[e.typ].fields;
    }
  }

  lemma LoadEntity(fm: Formats, base: Table, t: Table, items: seq<DumpItem>, e: Entity, now: int)
    requires Sound(fm, base) && CleanDefs(base) && LoadedFrom(base, items, t)
    requires KeyOf(e) in base.entities && base.entities[KeyOf(e)] == e && KeyOf(e) !in t.entities
        && e.typ in t.definitions
    ensures InsertError(fm, t, e.typ, e.id, Stamped(e.fields, now)) == None
    ensures SameEntity(Entity(e.id, e.typ, Stamped(e.fields, now)), e)
  {
    assert EntityValid(fm, base, KeyOf(e));
    StampAccepted(fm, base.definitions[e.typ], e.fields, now);
    NoClashWhileLoading(fm, base, t, items, e, now);
    StampedSame(e.fields, now, now);
  }

  /** The calls an item list makes, as the log records them. */
  function Relogged(items: seq<DumpItem>, nows: seq<int>): seq<Op>
    requires |nows| == |items|
  {
    seq(|items|, i requires 0 <= i < |items| && |nows| == |items| => EntryFor(LoadOp(items[i]), nows[i]))
  }

  /** A stretch of the log, oldest entry innermost. A failed write leaves a gap before the next number. */
  datatype Stretch = Empty | Then(before: Stretch, number: nat, op: Op)

  function LogOf(stretch: Stretch): Wal {
    match stretch
    case Empty => map[]
    case Then(before, number, op) => LogOf(before)[KeyFor(number, op) := WalEntry(number, "", op, false)]
  }

  /** The operations, logged one after another in an empty log. */
  function FromOne(ops: seq<Op>): Stretch {
    if ops == [] then Empty else Then(FromOne(ops[..|ops| - 1]), |ops|, ops[|ops| - 1])
  }

  lemma FromOneAppend(ops: seq<Op>, op: Op)
    ensures FromOne(ops + [op]) == Then(FromOne(ops), |ops| + 1, op)
  {
    assert (ops + [op])[..|ops|] == ops;
  }

  lemma AppendExtendsLog(j: Journal, rest: Wal, ops: seq<Op>, op: Op)
    requires j.sequence == |ops| && j.wal == rest + LogOf(FromOne(ops))
    ensures Append(j, op).sequence == |ops + [op]| && Append(j, op).wal == rest + LogOf(FromOne(ops + [op]))
  {
    FromOneAppend(ops, op);
  }

  lemma LoadItemsStep(fm: Formats, s: System, front: seq<DumpItem>, nows: seq<int>, item: DumpItem, now: int)
    requires |nows| == |front|
    requires var (r, ok) := LoadItems(fm, s, front, nows);
             ok && Perform(fm, r.table, LoadOp(item), now).1 == Done && Writes(fm, r.table, LoadOp(item), now)
    ensures var r := LoadItems(fm, s, front, nows).0;
            LoadItems(fm, s, front + [item], nows + [now]) ==
            (System(Perform(fm, r.table, LoadOp(item), now).0, Append(r.journal, EntryFor(LoadOp(item), now))), true)
  {
    assert (front + [item])[..|front|] == front && (nows + [now])[..|front|] == nows;
  }

  /** What loading the first items leaves: their part of base, and one log entry per item. */
  ghost predicate LoadedState(base: Table, items: seq<DumpItem>, nows: seq<int>, wal: Wal, r: System)
    requires |nows| == |items|
  {
    && LoadedFrom(base, items, r.table)
    && r.journal.sequence == |items|
    && r.journal.wal == wal + LogOf(FromOne(Relogged(items, nows)))
  }

  /** Loading a dump never fails, rebuilds the dumped part of base, and logs one entry per item. */
  lemma {:induction false} LoadingRebuilds(fm: Formats, base: Table, items: seq<DumpItem>, n: nat, s: System,
      nows: seq<int>)
    requires Replayable(fm, base) && IsDump(items, base) && n <= |items| && |nows| == n
    requires s.table == EMPTY_TABLE && s.journal.sequence == 0
    ensures LoadItems(fm, s, items[..n], nows).1
    ensures LoadedState(base, items[..n], nows, s.journal.wal, LoadItems(fm, s, items[..n], nows).0)
  {
    if n == 0 {
      assert s.journal.wal + LogOf(FromOne(Relogged(items[..n], nows))) == s.journal.wal;
    } else {
      var front, item := items[..n - 1], items[n - 1];
      assert items[..n] == front + [item] && nows == nows[..n - 1] + [nows[n - 1]];
      LoadingRebuilds(fm, base, items, n - 1, s, nows[..n - 1]);
      var r := LoadItems(fm, s, front, nows[..n - 1]).0;
      LoadOne(fm, base, items, n - 1, r.table, nows[n - 1]);
      LoadedStateStep(fm, base, front, item, nows[..n - 1], nows[n - 1], s);
    }
  }

  lemma LoadedStateStep(
    fm: Formats, base: Table, front: seq<DumpItem>, item: DumpItem, nows: seq<int>, now: int, s: System)
    requires |nows| == |front|
    requires var (r, ok) := LoadItems(fm, s, front, nows);
             && ok && LoadedState(base, front, nows, s.journal.wal, r)
             && Perform(fm, r.table, LoadOp(item), now).1 == Done && Writes(fm, r.table, LoadOp(item), now)
             && LoadedFrom(base, front + [item], Perform(fm, r.table, LoadOp(item), now).0)
    ensures LoadItems(fm, s, front + [item], nows + [now]).1
    ensures LoadedState(base, front + [item], nows + [now], s.journal.wal,
        LoadItems(fm, s, front + [item], nows + [now]).0)
  {
    var r := LoadItems(fm, s, front, nows).0;
    LoadItemsStep(fm, s, front, nows, item, now);
    assert Relogged(front + [item], nows + [now]) == Relogged(front, nows) + [EntryFor(LoadOp(item), now)];
    AppendExtendsLog(r.journal, s.journal.wal, Relogged(front, nows), EntryFor(LoadOp(item), now));
  }

  lemma LoadOne(fm: Formats, base: Table, items: seq<DumpItem>, i: nat, t: Table, now: int)
    requires Replayable(fm, base) && IsDump(items, base) && i < |items| && LoadedFrom(base, items[..i], t)
    ensures Perform(fm, t, LoadOp(items[i]), now).1 == Done && Writes(fm, t, LoadOp(items[i]), now)
    ensures LoadedFrom(base, items[..i + 1], Perform(fm, t, LoadOp(items[i]), now).0)
  {
    assert ItemOk(items, i, base);
    ItemIsNew(items, base, i);
    assert items[..i + 1] == items[..i] + [items[i]];
    match items[i]
    case DumpDefinition(def) => LoadedWithDefinition(base, items[..i], def, t);
    case DumpEntity(e) =>
      LoadEntity(fm, base, t, items[..i], e, now);
      LoadedWithEntity(base, items[..i], e, Entity(e.id, e.typ, Stamped(e.fields, now)), t);
  }

  lemma LoadedWithDefinition(base: Table, front: seq<DumpItem>, def: EntityDefinition, t: Table)
    requires LoadedFrom(base, front, t) && def.name !in Names(front) && Clean(def)
    requires def.name in base.definitions && base.definitions[def.name] == def
    ensures Register(t, Cleaned(def)).1 == Done
    ensures LoadedFrom(base, front + [DumpDefinition(def)], Register(t, Cleaned(def)).0)
  {
    CleanIsFixed(def);
    NextNamesAndKeys(front, DumpDefinition(def));
  }

  lemma LoadedWithEntity(base: Table, front: seq<DumpItem>, e: Entity, e': Entity, t: Table)
    requires LoadedFrom(base, front, t) && SameEntity(e', e)
    requires KeyOf(e) in base.entities && base.entities[KeyOf(e)] == e
    ensures LoadedFrom(base, front + [DumpEntity(e)], t.(entities := t.entities[KeyOf(e) := e']))
  {
    NextNamesAndKeys(front, DumpEntity(e));
  }

  /** A dump has exactly one item per definition and per entity. */
  lemma {:induction false} DumpCount(items: seq<DumpItem>, base: Table, n: nat)
    requires WellFormed(base) && IsDump(items, base) && n <= |items|
    ensures |Names(items[..n])| + |EntityKeys(items[..n])| == n
  {
    if n == 0 {
    } else {
      DumpCount(items, base, n - 1);
      ItemIsNew(items, base, n - 1);
      assert items[..n] == items[..n - 1] + [items[n - 1]];
      CountOneItem(items[..n - 1], items[n - 1]);
    }
  }

  lemma CountOneItem(front: seq<DumpItem>, item: DumpItem)
    requires item.DumpDefinition? ==> item.def.name !in Names(front)
    requires item.DumpEntity? ==> KeyOf(item.entity) !in EntityKeys(front)
    ensures |Names(front + [item])| + |EntityKeys(front + [item])| == |Names(front)| + |EntityKeys(front)| + 1
  {
    NextNamesAndKeys(front, item);
  }

  lemma WholeNames(items: seq<DumpItem>, base: Table)
    requires WellFormed(base) && IsDump(items, base)
    ensures Names(items) == base.definitions.Keys
  {
    forall i | 0 <= i < |items| && items[i].DumpDefinition? ensures items[i].def.name in base.definitions {
      assert ItemOk(items, i, base);
    }
    forall name | name in base.definitions ensures name in Names(items) {
      var i :| 0 <= i < |items| && items[i] == DumpDefinition(base.definitions[name]);
    }
  }

  lemma WholeKeys(items: seq<DumpItem>, base: Table)
    requires WellFormed(base) && IsDump(items, base)
    ensures EntityKeys(items) == base.entities.Keys
  {
    forall i | 0 <= i < |items| && items[i].DumpEntity? ensures KeyOf(items[i].entity) in base.entities {
      assert ItemOk(items, i, base);
    }
    forall key | key in base.entities ensures key in EntityKeys(items) {
      var i :| 0 <= i < |items| && items[i] == DumpEntity(base.entities[key]);
    }
  }

  lemma WholeDump(items: seq<DumpItem>, base: Table)
    requires WellFormed(base) && IsDump(items, base)
    ensures Names(items) == base.definitions.Keys && EntityKeys(items) == base.entities.Keys
    ensures |items| == |base.definitions| + |base.entities|
  {
    WholeNames(items, base);
    WholeKeys(items, base);
    DumpCount(items, base, |items|);
    assert items[..|items|] == items;
  }
}
