/** What crash recovery rests on: replaying the entry a call has logged repeats the call. */
module Recovery {
  import opened Common
  import opened Keys
  import opened IdFormats
  import opened Validation
  import opened Store
  import opened Agreement
  import opened Tables
  import opened Journals

  // ---------- well-behaved definitions and stores ----------

  /** A completed definition whose only reserved fields are the engine's own. */
  predicate Clean(def: EntityDefinition) {
    && DistinctNames(def.fields)
    && def.idGenerator != Unspecified
    && InternalDefinition(CREATED_AT) in def.fields && InternalDefinition(UPDATED_AT) in def.fields
    && forall f :: f in def.fields && Reserved(f.name) ==> f == InternalDefinition(f.name)
  }

  predicate CleanDefs(t: Table) {
    forall name :: name in t.definitions ==> Clean(t.definitions[name])
  }

  predicate PlainIds(t: Table) {
    forall key :: key in t.entities ==> NoColon(t.entities[key].id)
  }

  ghost predicate Replayable(fm: Formats, t: Table) {
    Sound(fm, t) && CleanDefs(t) && PlainIds(t)
  }

  /** No two live entities of different types have the same bare id. */
  predicate IdsDiffer(t: Table) {
    forall k1, k2 :: k1 in t.entities && k2 in t.entities && t.entities[k1].id == t.entities[k2].id ==> k1 == k2
  }

  // What callers must respect: no colons, no reserved field names, snapshots dumped from the store they describe.
  ghost predicate OpOk(op: Op) {
    match op
    case OpRegister(def) => Registrable(def) && forall f :: f in def.fields ==> !Reserved(f.name)
    case OpTruncateDatabase => true
    case OpTruncateType(_) => true
    case _ => NoColon(op.typ) && NoColon(op.id)
  }

  ghost predicate CommandOk(s: System, c: Command) {
    match c
    case Call(op, _, _) => OpOk(op)
    case TakeSnapshot(timestamp, items) => IsDump(items, s.table) && s.journal.sequence <= timestamp
  }

  ghost predicate Legal(fm: Formats, commands: seq<Command>) {
    forall i :: 0 <= i < |commands| ==> CommandOk(Run(fm, commands[..i]), commands[i])
  }

  /** An insert that succeeds although Get already finds its bare id, under another type. */
  ghost predicate ReusesId(fm: Formats, t: Table, op: Op, now: int) {
    op.OpInsert? && Writes(fm, t, op, now) && GetFinds(t.entities.Keys, op.id)
  }

  /** A truncate that is not taken back although its log write fails. */
  predicate StaysUnlogged(fm: Formats, t: Table, op: Op, now: int) {
    (op.OpTruncateType? || op.OpTruncateDatabase?) && Writes(fm, t, op, now)
  }

  /** A call whose effect a replay of the log cannot bring back. */
  ghost predicate Loses(fm: Formats, s: System, c: Command) {
    && c.Call?
    && if c.disk then ReusesId(fm, s.table, c.op, c.now) else StaysUnlogged(fm, s.table, c.op, c.now)
  }

  lemma CompletedClean(def: EntityDefinition)
    requires Registrable(def) && forall f :: f in def.fields ==> !Reserved(f.name)
    ensures Clean(Completed(def))
  {
    assert !HasField(def.fields, CREATED_AT) && !HasField(def.fields, UPDATED_AT);
    assert Completed(def).fields == def.fields + [InternalDefinition(CREATED_AT), InternalDefinition(UPDATED_AT)];
  }

  /** Storing a clean definition again, or marking its internal fields, changes nothing. */
  lemma CleanIsFixed(def: EntityDefinition)
    requires Clean(def)
    ensures Cleaned(def) == def && Completed(def) == def
  {
    assert HasField(def.fields, CREATED_AT) && HasField(def.fields, UPDATED_AT);
    assert WithInternalFields(def.fields) == def.fields;
    assert MarkInternal(def.fields) == def.fields;
  }

  lemma PerformKeepsSound(fm: Formats, t: Table, op: Op, now: int)
    requires Sound(fm, t) && (op.OpRegister? ==> Registrable(op.def)) && (op.OpUpdate? ==> NoColon(op.typ))
    ensures Sound(fm, Perform(fm, t, op, now).0)
  {
    match op
    case OpRegister(def) => RegisterKeepsSound(fm, t, def);
    case OpInsert(typ, id, data) => InsertKeepsSound(fm, t, typ, id, data, now);
    case OpUpdate(typ, id, data) => UpdateKeepsSound(fm, t, typ, id, data, now);
    case OpDelete(typ, id) => RemovalKeepsSound(fm, t, typ, id);
    case OpTruncateType(typ) => RemovalKeepsSound(fm, t, typ, "");
    case OpTruncateDatabase => RemovalKeepsSound(fm, t, "", "");
  }

  lemma PerformKeepsClean(fm: Formats, t: Table, op: Op, now: int)
    requires CleanDefs(t) && PlainIds(t)
    requires op.OpRegister? ==> Clean(Completed(op.def))
    requires op.OpInsert? ==> NoColon(op.id)
    ensures CleanDefs(Perform(fm, t, op, now).0) && PlainIds(Perform(fm, t, op, now).0)
  {
  }

  // ---------- the time stamp does not matter ----------

  predicate SameData(d1: Fields, d2: Fields) {
    d1 - {UPDATED_AT} == d2 - {UPDATED_AT}
  }

  lemma SameDataAt(d1: Fields, d2: Fields, name: string)
    requires SameData(d1, d2) && name != UPDATED_AT
    ensures name in d1 <==> name in d2
    ensures name in d1 ==> d1[name] == d2[name]
  {
    assert name in d1 <==> name in d1 - {UPDATED_AT};
    assert name in d2 <==> name in d2 - {UPDATED_AT};
  }

  predicate TimeStamped(d: Fields) { UPDATED_AT in d && d[UPDATED_AT].Time? }

  lemma SameDataOk(fm: Formats, def: EntityDefinition, d1: Fields, d2: Fields)
    requires Clean(def) && SameData(d1, d2) && TimeStamped(d1) && TimeStamped(d2)
    ensures EntityDataOk(fm, def, d1) == EntityDataOk(fm, def, d2)
    ensures UpdateDataOk(fm, def, d1) == UpdateDataOk(fm, def, d2)
  {
    forall name ensures name in d1 <==> name in d2
      ensures name != UPDATED_AT && name in d1 ==> d1[name] == d2[name]
    {
      if name != UPDATED_AT { SameDataAt(d1, d2, name); }
    }
  }

  lemma SameClashes(fm: Formats, def: EntityDefinition, t1: Table, t2: Table, d1: Fields, d2: Fields, id: string)
    requires Clean(def) && Same(t1, t2) && SameData(d1, d2)
    ensures Clashes(fm, def, t1.entities, d1, id) == Clashes(fm, def, t2.entities, d2, id)
  {
    forall f | f in def.fields && f.unique
      ensures UniqueKey(fm, d1, f.name) == UniqueKey(fm, d2, f.name)
      ensures forall k :: k in t1.entities ==>
        t1.entities[k].typ == t2.entities[k].typ && t1.entities[k].id == t2.entities[k].id &&
        UniqueKey(fm, t1.entities[k].fields, f.name) == UniqueKey(fm, t2.entities[k].fields, f.name)
    {
      SameDataAt(d1, d2, f.name);
      forall k | k in t1.entities
        ensures t1.entities[k].typ == t2.entities[k].typ && t1.entities[k].id == t2.entities[k].id
        ensures UniqueKey(fm, t1.entities[k].fields, f.name) == UniqueKey(fm, t2.entities[k].fields, f.name)
      {
        assert SameEntity(t1.entities[k], t2.entities[k]);
        SameDataAt(t1.entities[k].fields, t2.entities[k].fields, f.name);
      }
    }
  }

  lemma StampedSame(data: Fields, n1: int, n2: int)
    requires CREATED_AT in data
    ensures SameData(Stamped(data, n1), Stamped(data, n2))
    ensures SameData(Stamped(data, n1), data)
  {
  }

  lemma RestampedSame(data: Fields, n1: int, n2: int)
    ensures SameData(Restamped(data, n1), Restamped(data, n2))
    ensures CREATED_AT !in data ==> SameData(Restamped(data, n1), data)
  {
  }

  lemma OverlaySame(f1: Fields, f2: Fields, d1: Fields, d2: Fields)
    requires SameData(f1, f2) && SameData(d1, d2)
    ensures SameData(f1 + d1, f2 + d2)
  {
    OverlayMinus(f1, d1, {UPDATED_AT});
    OverlayMinus(f2, d2, {UPDATED_AT});
  }

  lemma SameInsert(fm: Formats, t1: Table, t2: Table, typ: string, id: string, d1: Fields, d2: Fields, n1: int, n2: int)
    requires CleanDefs(t1) && Same(t1, t2)
    requires CREATED_AT in d1 && CREATED_AT in d2 && SameData(d1, d2)
    ensures Same(Insert(fm, t1, typ, id, d1, n1).0, Insert(fm, t2, typ, id, d2, n2).0)
    ensures Insert(fm, t1, typ, id, d1, n1).1 == Insert(fm, t2, typ, id, d2, n2).1
  {
    var s1, s2 := Stamped(d1, n1), Stamped(d2, n2);
    StampedSame(d1, n1, n2);
    StampedSame(d2, n1, n2);
    assert SameData(s1, s2);
    if typ in t1.definitions {
      var def := t1.definitions[typ];
      SameDataOk(fm, def, s1, s2);
      SameClashes(fm, def, t1, t2, s1, s2, "");
    }
    assert InsertError(fm, t1, typ, id, s1) == InsertError(fm, t2, typ, id, s2);
  }

  lemma SameUpdate(fm: Formats, t1: Table, t2: Table, typ: string, id: string, d1: Fields, d2: Fields, n1: int, n2: int)
    requires CleanDefs(t1) && Same(t1, t2)
    requires SameData(Restamped(d1, n1), Restamped(d2, n2))
    ensures Same(Update(fm, t1, typ, id, d1, n1).0, Update(fm, t2, typ, id, d2, n2).0)
    ensures Update(fm, t1, typ, id, d1, n1).1 == Update(fm, t2, typ, id, d2, n2).1
  {
    var s1, s2 := Restamped(d1, n1), Restamped(d2, n2);
    var key := CreateKey(typ, id);
    if key in t1.entities {
      assert SameEntity(t1.entities[key], t2.entities[key]);
      OverlaySame(t1.entities[key].fields, t2.entities[key].fields, s1, s2);
      if typ in t1.definitions {
        var def := t1.definitions[typ];
        SameDataOk(fm, def, s1, s2);
        SameClashes(fm, def, t1, t2, t1.entities[key].fields + s1, t2.entities[key].fields + s2, id);
      }
      assert UpdateError(fm, t1, typ, id, s1) == UpdateError(fm, t2, typ, id, s2);
    }
  }

  /** An entry as WriteWALEntry records it. */
  ghost predicate Recorded(op: Op) {
    match op
    case OpRegister(def) => Clean(def) && NoColon(def.name)
    case OpInsert(typ, id, data) => NoColon(typ) && NoColon(id) && id != "" && CREATED_AT in data
    case OpUpdate(typ, id, data) => NoColon(typ) && NoColon(id) && CREATED_AT !in data
    case OpDelete(typ, id) => NoColon(typ) && NoColon(id)
    case _ => true
  }

  lemma EntryRecorded(op: Op, now: int)
    requires OpOk(op) && (op.OpInsert? ==> op.id != "")
    ensures Recorded(EntryFor(op, now))
  {
    if op.OpRegister? { CompletedClean(op.def); }
  }

  lemma ExecuteKeepsReplayable(fm: Formats, t: Table, op: Op, now: int)
    requires Replayable(fm, t) && (OpOk(op) || Recorded(op))
    ensures Replayable(fm, Perform(fm, t, op, now).0)
  {
    if op.OpRegister? {
      if Clean(op.def) { CleanIsFixed(op.def); } else { CompletedClean(op.def); }
    }
    PerformKeepsSound(fm, t, op, now);
    PerformKeepsClean(fm, t, op, now);
  }

  lemma ReplayKeepsReplayable(fm: Formats, t: Table, op: Op, m: Moment)
    requires Replayable(fm, t) && Recorded(op)
    ensures Replayable(fm, Replay(fm, t, op, m))
  {
    if op.OpRegister? {
      CleanIsFixed(op.def);
    }
    if op.OpUpdate? {
      if GetFinds(t.entities.Keys, op.id) {
        var e := t.entities[GetKey(t.entities.Keys, op.id, m.met)];
        ExecuteKeepsReplayable(fm, t, OpUpdate(e.typ, op.id, op.data), m.now);
      }
    } else {
      ExecuteKeepsReplayable(fm, t, op, m.now);
    }
  }

  lemma SameDelete(t1: Table, t2: Table, typ: string, id: string)
    requires Same(t1, t2)
    ensures Same(Delete(t1, typ, id).0, Delete(t2, typ, id).0)
  {
    var key := CreateKey(typ, id);
    if key in t1.entities { assert SameEntity(t1.entities[key], t2.entities[key]); }
  }

  lemma SameTruncate(t1: Table, t2: Table, typ: string)
    requires Same(t1, t2)
    ensures Same(TruncateType(t1, typ).0, TruncateType(t2, typ).0)
  {
    forall key | key in t1.entities ensures t1.entities[key].typ == t2.entities[key].typ {
      assert SameEntity(t1.entities[key], t2.entities[key]);
    }
  }

  /** Replay maps equal stores to equal stores. */
  lemma SameReplay(fm: Formats, t1: Table, t2: Table, op: Op, m: Moment)
    requires CleanDefs(t1) && Same(t1, t2) && Recorded(op)
    ensures Same(Replay(fm, t1, op, m), Replay(fm, t2, op, m))
  {
    match op
    case OpInsert(typ, id, data) => SameInsert(fm, t1, t2, typ, id, data, data, m.now, m.now);
    case OpUpdate(_, id, data) =>
      if GetFinds(t1.entities.Keys, id) {
        var key := GetKey(t1.entities.Keys, id, m.met);
        assert SameEntity(t1.entities[key], t2.entities[key]);
        SameUpdate(fm, t1, t2, t1.entities[key].typ, id, data, data, m.now, m.now);
      }
    case OpTruncateType(typ) => SameTruncate(t1, t2, typ);
    case OpDelete(typ, id) => SameDelete(t1, t2, typ, id);
    case _ =>
  }

  // ---------- replaying what was logged ----------

  lemma GetFindsLive(t: Table, key: string)
    requires WellFormed(t) && key in t.entities
    ensures GetFinds(t.entities.Keys, t.entities[key].id)
  {
    var e := t.entities[key];
    ParseCreated(e.typ, e.id);
  }

  /** With colon-free, distinct bare ids, Get finds the one entity that has the id. */
  lemma GetFindsOnly(t: Table, typ: string, id: string, met: string)
    requires WellFormed(t) && PlainIds(t) && IdsDiffer(t) && NoColon(typ) && NoColon(id)
        && CreateKey(typ, id) in t.entities
    ensures GetFinds(t.entities.Keys, id) && GetKey(t.entities.Keys, id, met) == CreateKey(typ, id)
  {
    ParseCreated(typ, id);
    assert GetFinds(t.entities.Keys, id);
    forall key | key in t.entities && (key == id || ParseKey(key).1 == id) ensures key == CreateKey(typ, id) {
      var e := t.entities[key];
      assert key[|e.typ|] == ':';
      ParseCreated(e.typ, e.id);
      var e' := t.entities[CreateKey(typ, id)];
      KeyInjective(typ, id, e'.typ, e'.id);
    }
  }

  lemma InsertRepeats(fm: Formats, t: Table, typ: string, id: string, data: Fields, now: int, later: int)
    requires CleanDefs(t) && Insert(fm, t, typ, id, data, now).1 == Done
    ensures Same(Insert(fm, t, typ, id, Stamped(data, now), later).0, Insert(fm, t, typ, id, data, now).0)
  {
    var logged := Stamped(data, now);
    assert Stamped(logged, now) == logged;
    SameInsert(fm, t, t, typ, id, logged, logged, later, now);
  }

  lemma UpdateRepeats(fm: Formats, t: Table, typ: string, id: string, data: Fields, now: int, later: int)
    requires CleanDefs(t)
    ensures Same(Update(fm, t, typ, id, Restamped(data, now), later).0, Update(fm, t, typ, id, data, now).0)
  {
    var logged := Restamped(data, now);
    RestampedSame(logged, later, now);
    assert Restamped(logged, now) == logged;
    SameUpdate(fm, t, t, typ, id, logged, logged, later, now);
  }

  /** An update, replayed by bare id, finds the entity it was logged for. */
  lemma UpdateReplays(fm: Formats, t: Table, typ: string, id: string, data: Fields, now: int, m: Moment)
    requires WellFormed(t) && CleanDefs(t) && PlainIds(t) && IdsDiffer(t) && NoColon(typ) && NoColon(id)
    requires CreateKey(typ, id) in t.entities
    ensures Same(Replay(fm, t, OpUpdate(typ, id, Restamped(data, now)), m), Update(fm, t, typ, id, data, now).0)
  {
    GetFindsOnly(t, typ, id, m.met);
    var e := t.entities[CreateKey(typ, id)];
    KeyInjective(typ, id, e.typ, e.id);
    UpdateRepeats(fm, t, typ, id, data, now, m.now);
  }

  /** Replaying the entry a call logged, on the store the call saw, repeats the call. */
  lemma ReplayRepeats(fm: Formats, t: Table, op: Op, now: int, m: Moment)
    requires WellFormed(t) && CleanDefs(t) && PlainIds(t) && IdsDiffer(t)
    requires OpOk(op) && Writes(fm, t, op, now)
    requires op.OpInsert? ==> !GetFinds(t.entities.Keys, op.id)
    ensures Same(Replay(fm, t, EntryFor(op, now), m), Perform(fm, t, op, now).0)
  {
    match op
    case OpRegister(def) =>
      CompletedClean(def);
      CleanIsFixed(Completed(def));
    case OpInsert(typ, id, data) => InsertRepeats(fm, t, typ, id, data, now, m.now);
    case OpUpdate(typ, id, data) => UpdateReplays(fm, t, typ, id, data, now, m);
    case OpDelete(typ, id) => GetFindsOnly(t, typ, id, m.met);
    case _ =>
  }

  /** An insert that reuses a live bare id is dropped on replay. */
  lemma ReusedIdIsDropped(fm: Formats, t: Table, op: Op, now: int, m: Moment)
    requires op.OpInsert? && Writes(fm, t, op, now) && GetFinds(t.entities.Keys, op.id)
    ensures Replay(fm, t, EntryFor(op, now), m) == t
    ensures CreateKey(op.typ, op.id) in Perform(fm, t, op, now).0.entities && CreateKey(op.typ, op.id) !in t.entities
  {
  }
}
