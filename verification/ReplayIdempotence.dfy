/** Replaying a log a second time, on the store it produced: when exactly it changes nothing. */
module ReplayIdempotence {
  import opened Common
  import opened Keys
  import opened IdFormats
  import opened Validation
  import opened Store
  import opened Agreement
  import opened Tables
  import opened Journals
  import opened Recovery

  // ---------- what one bare id goes through ----------

  /** The entity that has a bare id: its type, and its fields apart from the time stamp recovery renews. */
  datatype Held = Held(typ: string, fields: Fields)

  type Definitions = map<string, EntityDefinition>

  predicate TakesChange(fm: Formats, definitions: Definitions, typ: string, data: Fields) {
    typ in definitions && UpdateDataOk(fm, definitions[typ], data)
  }

  /** What one replayed operation does to a bare id: an update reaches whichever type's entity has it. */
  function Fate(fm: Formats, definitions: Definitions, cur: Option<Held>, op: Op, id: string): Option<Held> {
    match op
    case OpInsert(typ, i, data) => if i == id && cur.None? then Some(Held(typ, data - {UPDATED_AT})) else cur
    case OpUpdate(_, i, data) =>
      if i == id && cur.Some? && TakesChange(fm, definitions, cur.value.typ, data)
      then Some(Held(cur.value.typ, cur.value.fields + (data - {UPDATED_AT})))
      else cur
    case OpRegister(_) => cur
    case _ => if cur.Some? && Resets(op, cur.value.typ, id) then None else cur
  }

  function Fates(fm: Formats, definitions: Definitions, cur: Option<Held>, ops: seq<Op>, id: string): Option<Held> {
    if ops == [] then cur
    else Fate(fm, definitions, Fates(fm, definitions, cur, ops[..|ops| - 1], id), ops[|ops| - 1], id)
  }

  /** A delete or truncate that removes entity (typ, id). */
  predicate Resets(op: Op, typ: string, id: string) {
    || (op.OpDelete? && op.typ == typ && op.id == id)
    || (op.OpTruncateType? && op.typ == typ)
    || op.OpTruncateDatabase?
  }

  predicate Forgets(ops: seq<Op>, typ: string, id: string) {
    exists i :: 0 <= i < |ops| && Resets(ops[i], typ, id)
  }

  /**
   * What one operation logged under the bare id, whatever type it was logged for, would change in an entity of type
   * typ.
   */
  function Change(fm: Formats, definitions: Definitions, op: Op, typ: string, id: string): Fields {
    if op.OpUpdate? && op.id == id && TakesChange(fm, definitions, typ, op.data) then op.data - {UPDATED_AT} else map[]
  }

  /** All those updates, the later ones over the earlier. */
  function Changes(fm: Formats, definitions: Definitions, ops: seq<Op>, typ: string, id: string): Fields {
    if ops == [] then map[]
    else
      Changes(fm, definitions, ops[..|ops| - 1], typ, id) + Change(fm, definitions, ops[|ops| - 1], typ, id)
  }

  lemma {:induction false} ChangesInclude(fm: Formats, definitions: Definitions, ops: seq<Op>, i: nat, typ: string,
      id: string, name: string)
    requires i < |ops| && name in Change(fm, definitions, ops[i], typ, id)
    ensures name in Changes(fm, definitions, ops, typ, id)
  {
    var n := |ops| - 1;
    if i == n {
    } else {
      assert ops[..n][i] == ops[i];
      ChangesInclude(fm, definitions, ops[..n], i, typ, id, name);
    }
  }

  predicate Shows(fields: Fields, changes: Fields) {
    forall name :: name in changes ==> name in fields && fields[name] == changes[name]
  }

  /** The call that logged op found what it needs. */
  predicate Effective(fm: Formats, definitions: Definitions, cur: Option<Held>, op: Op, id: string) {
    && (op.OpInsert? && op.id == id ==> cur.None?)
    && (op.OpUpdate? && op.id == id ==>
        cur.Some? && cur.value.typ == op.typ && TakesChange(fm, definitions, op.typ, op.data))
  }

  predicate EffectiveFor(fm: Formats, definitions: Definitions, ops: seq<Op>, id: string) {
    forall i :: 0 <= i < |ops| ==> Effective(fm, definitions, Fates(fm, definitions, None, ops[..i], id), ops[i], id)
  }

  lemma EffectiveFront(fm: Formats, definitions: Definitions, ops: seq<Op>, id: string)
    requires EffectiveFor(fm, definitions, ops, id) && ops != []
    ensures var n := |ops| - 1;
            && EffectiveFor(fm, definitions, ops[..n], id)
            && Effective(fm, definitions, Fates(fm, definitions, None, ops[..n], id), ops[n], id)
  {
    assert forall i :: 0 <= i < |ops| - 1 ==> ops[..|ops| - 1][..i] == ops[..i];
  }

  lemma ForgetsStep(ops: seq<Op>, typ: string, id: string)
    requires ops != []
    ensures Forgets(ops, typ, id) <==> Forgets(ops[..|ops| - 1], typ, id) || Resets(ops[|ops| - 1], typ, id)
  {
    var n := |ops| - 1;
    if i :| 0 <= i < |ops| && Resets(ops[i], typ, id) {
      assert i < n ==> ops[..n][i] == ops[i];
    }
  }

  lemma FateOverlay(fm: Formats, definitions: Definitions, h: Held, changes: Fields, op: Op, id: string)
    requires !Resets(op, h.typ, id)
    ensures Fate(fm, definitions, Some(Held(h.typ, h.fields + changes)), op, id)
            == Some(Held(h.typ, h.fields + (changes + Change(fm, definitions, op, h.typ, id))))
  {
    var change := Change(fm, definitions, op, h.typ, id);
    assert (h.fields + changes) + change == h.fields + (changes + change);
    assert changes + map[] == changes;
  }

  /** Operations that never remove the entity only overlay their changes. */
  lemma {:induction false} FatesOverlay(fm: Formats, definitions: Definitions, h: Held, ops: seq<Op>, id: string)
    requires !Forgets(ops, h.typ, id)
    ensures Fates(fm, definitions, Some(h), ops, id)
        == Some(Held(h.typ, h.fields + Changes(fm, definitions, ops, h.typ, id)))
  {
    if ops == [] {
      assert h.fields + map[] == h.fields;
    } else {
      var n := |ops| - 1;
      ForgetsStep(ops, h.typ, id);
      FatesOverlay(fm, definitions, h, ops[..n], id);
      FateOverlay(fm, definitions, h, Changes(fm, definitions, ops[..n], h.typ, id), ops[n], id);
    }
  }

  /** The second run is where the first is, or has nobody where the first has an entity of another type. */
  predicate Met(first: Option<Held>, second: Option<Held>, typ: string) {
    second == first || (second.None? && first.Some? && first.value.typ != typ)
  }

  lemma StayMet(fm: Formats, definitions: Definitions, first: Option<Held>, second: Option<Held>, typ: string, op: Op,
      id: string)
    requires Met(first, second, typ) && Effective(fm, definitions, first, op, id)
    ensures Met(Fate(fm, definitions, first, op, id), Fate(fm, definitions, second, op, id), typ)
  {
  }

  lemma MeetAtReset(fm: Formats, definitions: Definitions, first: Option<Held>, second: Held, op: Op, id: string)
    requires Resets(op, second.typ, id)
    ensures Met(Fate(fm, definitions, first, op, id), Fate(fm, definitions, Some(second), op, id), second.typ)
  {
  }

  lemma FatesStep(fm: Formats, definitions: Definitions, cur: Option<Held>, ops: seq<Op>, id: string)
    requires ops != []
    ensures var n := |ops| - 1;
            Fates(fm, definitions, cur, ops, id) == Fate(fm, definitions, Fates(fm, definitions, cur, ops[..n], id),
                ops[n], id)
  {
  }

  /** Once the entity was removed, the two runs have met. */
  lemma {:induction false} FatesMeet(fm: Formats, definitions: Definitions, h: Held, ops: seq<Op>, id: string)
    requires EffectiveFor(fm, definitions, ops, id) && Forgets(ops, h.typ, id)
    ensures Met(Fates(fm, definitions, None, ops, id), Fates(fm, definitions, Some(h), ops, id), h.typ)
  {
    var n := |ops| - 1;
    var front, op := ops[..n], ops[n];
    EffectiveFront(fm, definitions, ops, id);
    ForgetsStep(ops, h.typ, id);
    FatesStep(fm, definitions, None, ops, id);
    FatesStep(fm, definitions, Some(h), ops, id);
    if Forgets(front, h.typ, id) {
      FatesMeet(fm, definitions, h, front, id);
      StayMet(fm, definitions, Fates(fm, definitions, None, front, id), Fates(fm, definitions, Some(h), front, id),
          h.typ, op, id);
    } else {
      FatesOverlay(fm, definitions, h, front, id);
      var second := Held(h.typ, h.fields + Changes(fm, definitions, front, h.typ, id));
      MeetAtReset(fm, definitions, Fates(fm, definitions, None, front, id), second, op, id);
    }
  }

  /**
   * A second run over one bare id ends where the first did exactly if it forgets where it starts, or has nothing new to
   * say.
   */
  lemma SecondFate(fm: Formats, definitions: Definitions, ops: seq<Op>, id: string)
    requires EffectiveFor(fm, definitions, ops, id)
    ensures var first := Fates(fm, definitions, None, ops, id);
            Fates(fm, definitions, first, ops, id) == first
            <==> (first.Some? ==> Forgets(ops, first.value.typ, id)
                                  || Shows(first.value.fields, Changes(fm, definitions, ops, first.value.typ, id)))
  {
    var first := Fates(fm, definitions, None, ops, id);
    if first.Some? {
      var h := first.value;
      if Forgets(ops, h.typ, id) {
        FatesMeet(fm, definitions, h, ops, id);
      } else {
        FatesOverlay(fm, definitions, h, ops, id);
        ShowsIff(h.fields, Changes(fm, definitions, ops, h.typ, id));
      }
    }
  }

  lemma ShowsIff(fields: Fields, changes: Fields)
    ensures Shows(fields, changes) <==> fields + changes == fields
  {
    if fields + changes == fields {
      forall name | name in changes ensures name in fields && fields[name] == changes[name] {
        assert (fields + changes)[name] == changes[name];
      }
    }
  }

  /** The operations name the bare id under one type only. */
  predicate OneType(ops: seq<Op>, typ: string, id: string) {
    forall i :: 0 <= i < |ops| && (ops[i].OpInsert? || ops[i].OpUpdate?) && ops[i].id == id ==> ops[i].typ == typ
  }

  /** An id used under one type only always has nothing new to say. */
  lemma {:induction false} OneTypeShows(fm: Formats, definitions: Definitions, ops: seq<Op>, typ: string, id: string)
    requires EffectiveFor(fm, definitions, ops, id) && OneType(ops, typ, id) && !Forgets(ops, typ, id)
    ensures var first := Fates(fm, definitions, None, ops, id); var changes := Changes(fm, definitions, ops, typ, id);
            if first.None? then changes == map[] else first.value.typ == typ && Shows(first.value.fields, changes)
  {
    if ops == [] {
    } else {
      var n := |ops| - 1;
      EffectiveFront(fm, definitions, ops, id);
      ForgetsStep(ops, typ, id);
      OneTypeShows(fm, definitions, ops[..n], typ, id);
    }
  }

  // ---------- the store as a collection of such entities ----------

  ghost function HeldBy(t: Table, id: string): Option<Held> {
    if exists key :: key in t.entities && t.entities[key].id == id
    then
      var key :| key in t.entities && t.entities[key].id == id;
      Some(Held(t.entities[key].typ, t.entities[key].fields - {UPDATED_AT}))
    else None
  }

  lemma HeldUnder(t: Table, key: string)
    requires IdsDiffer(t) && key in t.entities
    ensures HeldBy(t, t.entities[key].id) == Some(Held(t.entities[key].typ, t.entities[key].fields - {UPDATED_AT}))
  {
  }

  lemma HeldIsStored(t: Table, id: string) returns (key: string)
    requires HeldBy(t, id).Some?
    ensures key in t.entities && t.entities[key].id == id
    ensures HeldBy(t, id) == Some(Held(t.entities[key].typ, t.entities[key].fields - {UPDATED_AT}))
  {
    key :| key in t.entities && t.entities[key].id == id
           && HeldBy(t, id) == Some(Held(t.entities[key].typ, t.entities[key].fields - {UPDATED_AT}));
  }

  predicate NoUniqueFields(t: Table) {
    forall name, f :: name in t.definitions && f in t.definitions[name].fields ==> !f.unique
  }

  /** A recorded entry whose data validates under the definitions. */
  predicate Accepted(fm: Formats, definitions: Definitions, op: Op) {
    match op
    case OpRegister(_) => false
    case OpInsert(typ, id, data) =>
      && NoColon(typ) && NoColon(id)
      && typ in definitions && ValidId(definitions[typ].idGenerator, id)
      && EntityDataOk(fm, definitions[typ], data) && TimeStamped(data) && CREATED_AT in data
    case OpUpdate(typ, id, data) =>
      NoColon(typ) && NoColon(id) && TakesChange(fm, definitions, typ, data) && TimeStamped(data) && CREATED_AT !in data
    case OpDelete(typ, id) => NoColon(typ) && NoColon(id)
    case OpTruncateType(typ) => typ in definitions
    case OpTruncateDatabase => true
  }

  predicate Ready(t: Table) {
    WellFormed(t) && CleanDefs(t) && PlainIds(t) && IdsDiffer(t) && NoUniqueFields(t)
  }

  /** Get by bare id finds exactly the entity that has it. */
  lemma GetFindsHeld(t: Table, id: string, met: string)
    requires Ready(t) && NoColon(id)
    ensures GetFinds(t.entities.Keys, id) <==> HeldBy(t, id).Some?
    ensures GetFinds(t.entities.Keys, id) ==> GetKey(t.entities.Keys, id, met) == CreateKey(HeldBy(t, id).value.typ, id)
  {
    if HeldBy(t, id).Some? {
      var key := HeldIsStored(t, id);
      GetFindsOnly(t, t.entities[key].typ, id, met);
    } else {
      forall key | key in t.entities ensures key != id && ParseKey(key).1 != id {
        var e := t.entities[key];
        assert key[|e.typ|] == ':';
        ParseCreated(e.typ, e.id);
      }
    }
  }

  lemma NoClashes(fm: Formats, t: Table, typ: string, data: Fields, id: string)
    requires NoUniqueFields(t) && typ in t.definitions
    ensures !Clashes(fm, t.definitions[typ], t.entities, data, id)
  {
  }

  /** The store after one replayed entry: still well-behaved, and every bare id changed as Fate says. */
  ghost predicate FollowsFate(fm: Formats, t: Table, t': Table, op: Op) {
    && Ready(t') && t'.definitions == t.definitions
    && forall id {:trigger HeldBy(t', id)} :: NoColon(id) ==>
        HeldBy(t', id) == Fate(fm, t.definitions, HeldBy(t, id), op, id)
  }

  lemma PutReady(t: Table, e: Entity)
    requires Ready(t) && e.typ in t.definitions && e.id != "" && NoColon(e.id)
    requires HeldBy(t, e.id).Some? ==> HeldBy(t, e.id).value.typ == e.typ
    ensures Ready(t.(entities := t.entities[KeyOf(e) := e]))
  {
    var t' := t.(entities := t.entities[KeyOf(e) := e]);
    forall key | key in t.entities && t.entities[key].id == e.id ensures key == KeyOf(e) {
      HeldUnder(t, key);
    }
  }

  lemma HeldAfterPut(t: Table, e: Entity, id: string)
    requires Ready(t) && Ready(t.(entities := t.entities[KeyOf(e) := e]))
    requires KeyOf(e) in t.entities ==> t.entities[KeyOf(e)].id == e.id
    ensures HeldBy(t.(entities := t.entities[KeyOf(e) := e]), id)
            == if id == e.id then Some(Held(e.typ, e.fields - {UPDATED_AT})) else HeldBy(t, id)
  {
    var t' := t.(entities := t.entities[KeyOf(e) := e]);
    if id == e.id {
      HeldUnder(t', KeyOf(e));
    } else if HeldBy(t, id).Some? {
      var key := HeldIsStored(t, id);
      HeldUnder(t', key);
    }
  }

  lemma InsertFollowsFate(fm: Formats, t: Table, op: Op, now: int)
    requires Ready(t) && op.OpInsert? && Accepted(fm, t.definitions, op) && HeldBy(t, op.id).None?
    ensures FollowsFate(fm, t, Perform(fm, t, op, now).0, op) && Perform(fm, t, op, now).1 == Done
  {
    var data := Stamped(op.data, now);
    StampedSame(op.data, now, now);
    SameDataOk(fm, t.definitions[op.typ], op.data, data);
    NoClashes(fm, t, op.typ, data, "");
    ValidIdNonEmpty(t.definitions[op.typ].idGenerator, op.id);
    var e := Entity(op.id, op.typ, data);
    if KeyOf(e) in t.entities { KeyInjective(op.typ, op.id, t.entities[KeyOf(e)].typ, t.entities[KeyOf(e)].id); }
    PutReady(t, e);
    forall id ensures HeldBy(Perform(fm, t, op, now).0, id) == Fate(fm, t.definitions, HeldBy(t, id), op, id) {
      HeldAfterPut(t, e, id);
    }
  }

  /** Replaying an update with the type of the entity that has the id succeeds exactly if the type takes the change. */
  lemma UpdateTaken(fm: Formats, t: Table, key: string, op: Op, now: int)
    requires Ready(t) && op.OpUpdate? && Accepted(fm, t.definitions, op)
    requires key in t.entities && t.entities[key].id == op.id
    ensures var e := t.entities[key];
            Update(fm, t, e.typ, op.id, op.data, now) ==
            if TakesChange(fm, t.definitions, e.typ, op.data)
            then (t.(entities := t.entities[KeyOf(e) := Updated(e, Restamped(op.data, now))]), Done)
            else (t, Failed(ValidationFailed))
  {
    var e, data := t.entities[key], Restamped(op.data, now);
    RestampedSame(op.data, now, now);
    SameDataOk(fm, t.definitions[e.typ], op.data, data);
    NoClashes(fm, t, e.typ, e.fields + data, op.id);
  }

  /** Replaying an update with the type of the entity that has the id. */
  lemma UpdateFollowsFate(fm: Formats, t: Table, typ: string, op: Op, now: int)
    requires Ready(t) && op.OpUpdate? && Accepted(fm, t.definitions, op)
    requires HeldBy(t, op.id).Some? && HeldBy(t, op.id).value.typ == typ
    ensures FollowsFate(fm, t, Update(fm, t, typ, op.id, op.data, now).0, op)
    ensures Update(fm, t, typ, op.id, op.data, now).1 == Done <==> TakesChange(fm, t.definitions, typ, op.data)
  {
    var key := HeldIsStored(t, op.id);
    var e, data := t.entities[key], Restamped(op.data, now);
    UpdateTaken(fm, t, key, op, now);
    RestampedSame(op.data, now, now);
    OverlayMinus(e.fields, data, {UPDATED_AT});
    PutReady(t, Updated(e, data));
    forall id ensures HeldBy(Update(fm, t, typ, op.id, op.data, now).0, id) == Fate(fm, t.definitions, HeldBy(t, id),
        op, id)
    {
      HeldAfterPut(t, Updated(e, data), id);
    }
  }

  lemma HeldAfterDrop(t: Table, t': Table, id: string)
    requires IdsDiffer(t) && (forall key :: key in t'.entities ==>
        key in t.entities && t'.entities[key] == t.entities[key])
    requires HeldBy(t, id).Some? && HeldBy(t, id).value.typ in t.definitions && WellFormed(t)
    ensures HeldBy(t', id) == if CreateKey(HeldBy(t, id).value.typ, id) in t'.entities then HeldBy(t, id) else None
  {
    var key := HeldIsStored(t, id);
    if key in t'.entities { HeldUnder(t', key); }
  }

  lemma NobodyAfterDrop(t: Table, t': Table, id: string)
    requires forall key :: key in t'.entities ==> key in t.entities && t'.entities[key] == t.entities[key]
    requires HeldBy(t, id).None?
    ensures HeldBy(t', id).None?
  {
  }

  lemma OwnKey(t: Table, typ: string, id: string, key: string)
    requires WellFormed(t) && key in t.entities && NoColon(typ)
    ensures key == CreateKey(typ, id) <==> t.entities[key].typ == typ && t.entities[key].id == id
  {
    if key == CreateKey(typ, id) { KeyInjective(typ, id, t.entities[key].typ, t.entities[key].id); }
  }

  /** t' is t without exactly the entities that op resets. */
  ghost predicate Drops(t: Table, t': Table, op: Op) {
    && t'.definitions == t.definitions
    && (forall key :: key in t'.entities ==> key in t.entities && t'.entities[key] == t.entities[key])
    && (forall key :: key in t.entities ==>
        (key in t'.entities <==> !Resets(op, t.entities[key].typ, t.entities[key].id)))
  }

  lemma DroppedReady(t: Table, t': Table, op: Op)
    requires Ready(t) && Drops(t, t', op)
    ensures Ready(t')
  {
  }

  lemma DropFate(fm: Formats, t: Table, t': Table, op: Op, id: string)
    requires Ready(t) && Drops(t, t', op) && (op.OpDelete? || op.OpTruncateType? || op.OpTruncateDatabase?)
    ensures HeldBy(t', id) == Fate(fm, t.definitions, HeldBy(t, id), op, id)
  {
    if HeldBy(t, id).Some? {
      var key := HeldIsStored(t, id);
      HeldAfterDrop(t, t', id);
    } else {
      NobodyAfterDrop(t, t', id);
    }
  }

  lemma DropFollowsFate(fm: Formats, t: Table, t': Table, op: Op)
    requires Ready(t) && Drops(t, t', op) && (op.OpDelete? || op.OpTruncateType? || op.OpTruncateDatabase?)
    ensures FollowsFate(fm, t, t', op)
  {
    DroppedReady(t, t', op);
    forall id | NoColon(id) ensures HeldBy(t', id) == Fate(fm, t.definitions, HeldBy(t, id), op, id) {
      DropFate(fm, t, t', op, id);
    }
  }

  lemma DeleteDrops(t: Table, op: Op)
    requires Ready(t) && op.OpDelete? && NoColon(op.typ)
    ensures Drops(t, Delete(t, op.typ, op.id).0, op)
  {
    forall key | key in t.entities ensures key == CreateKey(op.typ, op.id)
        <==> Resets(op, t.entities[key].typ, t.entities[key].id)
    {
      OwnKey(t, op.typ, op.id, key);
    }
  }

  lemma TruncateDrops(t: Table, op: Op)
    requires op.OpTruncateType? && op.typ in t.definitions
    ensures Drops(t, TruncateType(t, op.typ).0, op)
  {
  }

  lemma ResetFollowsFate(fm: Formats, t: Table, op: Op, now: int)
    requires Ready(t) && Accepted(fm, t.definitions, op)
        && (op.OpDelete? || op.OpTruncateType? || op.OpTruncateDatabase?)
    ensures FollowsFate(fm, t, Perform(fm, t, op, now).0, op)
  {
    if op.OpDelete? { DeleteDrops(t, op); }
    if op.OpTruncateType? { TruncateDrops(t, op); }
    DropFollowsFate(fm, t, Perform(fm, t, op, now).0, op);
  }

  lemma ReplayFollowsFate(fm: Formats, t: Table, op: Op, m: Moment)
    requires Ready(t) && Accepted(fm, t.definitions, op)
    ensures FollowsFate(fm, t, Replay(fm, t, op, m), op)
  {
    if op.OpInsert? || op.OpUpdate? || op.OpDelete? { GetFindsHeld(t, op.id, m.met); }
    match op
    case OpInsert(_, id, _) => if HeldBy(t, id).None? { InsertFollowsFate(fm, t, op, m.now); }
    case OpUpdate(_, id, _) =>
      if HeldBy(t, id).Some? {
        var key := HeldIsStored(t, id);
        UpdateFollowsFate(fm, t, HeldBy(t, id).value.typ, op, m.now);
      }
    case _ => ResetFollowsFate(fm, t, op, m.now);
  }

  // ---------- the history and its second replay ----------

  function LoggedOps(ops: seq<Op>, nows: seq<int>): seq<Op>
    requires |nows| == |ops|
  {
    seq(|ops|, i requires 0 <= i < |ops| && |nows| == |ops| => EntryFor(ops[i], nows[i]))
  }

  lemma LoggedOpsStep(ops: seq<Op>, nows: seq<int>)
    requires |nows| == |ops| && ops != []
    ensures var n := |ops| - 1; LoggedOps(ops, nows) == LoggedOps(ops[..n], nows[..n]) + [EntryFor(ops[n], nows[n])]
  {
  }

  /** A call that the log records, neither a registration nor an insert that reuses a live bare id. */
  ghost predicate Recordable(fm: Formats, t: Table, op: Op, now: int) {
    && !op.OpRegister? && OpOk(op) && Writes(fm, t, op, now)
    && (op.OpInsert? ==> !GetFinds(t.entities.Keys, op.id))
  }

  ghost predicate History(fm: Formats, start: Table, ops: seq<Op>, nows: seq<int>) {
    && |nows| == |ops|
    && forall i :: 0 <= i < |ops| ==> Recordable(fm, After(fm, start, ops[..i], nows[..i]), ops[i], nows[i])
  }

  lemma LoggedInsert(fm: Formats, t: Table, op: Op, now: int)
    requires Ready(t) && op.OpInsert? && Recordable(fm, t, op, now)
    ensures Accepted(fm, t.definitions, EntryFor(op, now))
        && FollowsFate(fm, t, Perform(fm, t, op, now).0, EntryFor(op, now))
    ensures HeldBy(t, op.id).None?
  {
    var entry := EntryFor(op, now);
    assert InsertError(fm, t, op.typ, op.id, Stamped(op.data, now)).None?;
    assert Stamped(entry.data, now) == entry.data;
    GetFindsHeld(t, op.id, "");
    InsertFollowsFate(fm, t, entry, now);
  }

  /** An update that was logged found its entity, and the logged data does the same again. */
  lemma LoggedUpdateFound(fm: Formats, t: Table, op: Op, now: int)
    requires Ready(t) && op.OpUpdate? && Recordable(fm, t, op, now)
    ensures Accepted(fm, t.definitions, EntryFor(op, now))
    ensures Update(fm, t, op.typ, op.id, EntryFor(op, now).data, now) == Perform(fm, t, op, now)
    ensures var key := CreateKey(op.typ, op.id);
            key in t.entities && t.entities[key].typ == op.typ && t.entities[key].id == op.id
  {
    var key := CreateKey(op.typ, op.id);
    assert UpdateError(fm, t, op.typ, op.id, Restamped(op.data, now)).None?;
    assert Restamped(EntryFor(op, now).data, now) == EntryFor(op, now).data;
    KeyInjective(op.typ, op.id, t.entities[key].typ, t.entities[key].id);
  }

  lemma LoggedUpdate(fm: Formats, t: Table, op: Op, now: int)
    requires Ready(t) && op.OpUpdate? && Recordable(fm, t, op, now)
    ensures Accepted(fm, t.definitions, EntryFor(op, now))
        && FollowsFate(fm, t, Perform(fm, t, op, now).0, EntryFor(op, now))
    ensures HeldBy(t, op.id).Some? && HeldBy(t, op.id).value.typ == op.typ
  {
    LoggedUpdateFound(fm, t, op, now);
    HeldUnder(t, CreateKey(op.typ, op.id));
    UpdateFollowsFate(fm, t, op.typ, EntryFor(op, now), now);
  }

  lemma CallFollowsFate(fm: Formats, t: Table, op: Op, now: int)
    requires Ready(t) && Recordable(fm, t, op, now)
    ensures var entry := EntryFor(op, now);
            && Accepted(fm, t.definitions, entry) && FollowsFate(fm, t, Perform(fm, t, op, now).0, entry)
            && forall id :: Effective(fm, t.definitions, HeldBy(t, id), entry, id)
  {
    if op.OpInsert? { LoggedInsert(fm, t, op, now); }
    else if op.OpUpdate? { LoggedUpdate(fm, t, op, now); }
    else { ResetFollowsFate(fm, t, op, now); }
  }

  /** Every bare id is where its fate says, and each operation was effective for it. */
  ghost predicate FateTells(fm: Formats, t: Table, log: seq<Op>, id: string) {
    HeldBy(t, id) == Fates(fm, t.definitions, None, log, id) && EffectiveFor(fm, t.definitions, log, id)
  }

  ghost predicate FatesTell(fm: Formats, t: Table, log: seq<Op>) {
    forall id {:trigger FateTells(fm, t, log, id)} :: NoColon(id) ==> FateTells(fm, t, log, id)
  }

  predicate LogAccepted(fm: Formats, definitions: Definitions, log: seq<Op>) {
    forall i :: 0 <= i < |log| ==> Accepted(fm, definitions, log[i])
  }

  /** The history leaves every bare id where its fate says, and logged only acceptable entries. */
  lemma {:induction false} HistoryFates(fm: Formats, start: Table, ops: seq<Op>, nows: seq<int>)
    requires Ready(start) && start.entities == map[] && History(fm, start, ops, nows)
    ensures var final, log := After(fm, start, ops, nows), LoggedOps(ops, nows);
            Ready(final) && final.definitions == start.definitions && FatesTell(fm, final, log)
                && LogAccepted(fm, start.definitions, log)
  {
    if ops == [] {
      forall id ensures FateTells(fm, start, [], id) {
      }
    } else {
      var n := |ops| - 1;
      HistoryPrefix(fm, start, ops, nows);
      HistoryFates(fm, start, ops[..n], nows[..n]);
      var t, log := After(fm, start, ops[..n], nows[..n]), LoggedOps(ops[..n], nows[..n]);
      LoggedOpsStep(ops, nows);
      CallFollowsFate(fm, t, ops[n], nows[n]);
      FatesTellStep(fm, t, Perform(fm, t, ops[n], nows[n]).0, log, EntryFor(ops[n], nows[n]));
    }
  }

  lemma HistoryPrefix(fm: Formats, start: Table, ops: seq<Op>, nows: seq<int>)
    requires History(fm, start, ops, nows) && ops != []
    ensures var n := |ops| - 1;
            History(fm, start, ops[..n], nows[..n]) && Recordable(fm, After(fm, start, ops[..n], nows[..n]), ops[n],
                nows[n])
  {
    var n := |ops| - 1;
    assert forall i :: 0 <= i < n ==> ops[..n][..i] == ops[..i] && nows[..n][..i] == nows[..i];
  }

  lemma FatesTellStep(fm: Formats, t: Table, t': Table, log: seq<Op>, entry: Op)
    requires FatesTell(fm, t, log) && FollowsFate(fm, t, t', entry)
    requires forall id :: Effective(fm, t.definitions, HeldBy(t, id), entry, id)
    ensures FatesTell(fm, t', log + [entry])
  {
    forall id | NoColon(id) ensures FateTells(fm, t', log + [entry], id) {
      assert FateTells(fm, t, log, id);
      ExtendFates(fm, t, t', log, entry, id);
    }
  }

  lemma ExtendFates(fm: Formats, t: Table, t': Table, log: seq<Op>, entry: Op, id: string)
    requires FateTells(fm, t, log, id) && t'.definitions == t.definitions
    requires HeldBy(t', id) == Fate(fm, t.definitions, HeldBy(t, id), entry, id)
    requires Effective(fm, t.definitions, HeldBy(t, id), entry, id)
    ensures FateTells(fm, t', log + [entry], id)
  {
    assert (log + [entry])[..|log|] == log;
    assert forall i :: 0 <= i < |log| ==> (log + [entry])[..i] == log[..i];
  }

  lemma {:induction false} ReplayFates(fm: Formats, t: Table, log: seq<Op>, moments: seq<Moment>)
    requires Ready(t) && |moments| == |log| && LogAccepted(fm, t.definitions, log)
    ensures var r := ReplayAll(fm, t, log, moments);
            && Ready(r) && r.definitions == t.definitions
            && forall id {:trigger HeldBy(r, id)} :: NoColon(id) ==>
                 HeldBy(r, id) == Fates(fm, t.definitions, HeldBy(t, id), log, id)
  {
    if log == [] {
    } else {
      var n := |log| - 1;
      ReplayFates(fm, t, log[..n], moments[..n]);
      var r := ReplayAll(fm, t, log[..n], moments[..n]);
      ReplayFollowsFate(fm, r, log[n], moments[n]);
      var r' := Replay(fm, r, log[n], moments[n]);
      forall id | NoColon(id) ensures HeldBy(r', id) == Fates(fm, t.definitions, HeldBy(t, id), log, id) {
        assert HeldBy(r, id) == Fates(fm, t.definitions, HeldBy(t, id), log[..n], id);
      }
    }
  }

  ghost predicate Alike(t1: Table, t2: Table) {
    forall id {:trigger HeldBy(t1, id)} {:trigger HeldBy(t2, id)} :: NoColon(id) ==> HeldBy(t1, id) == HeldBy(t2, id)
  }

  predicate StoredAlike(t1: Table, t2: Table, key: string)
    requires key in t1.entities
  {
    key in t2.entities && SameEntity(t1.entities[key], t2.entities[key])
  }

  lemma HeldThere(t1: Table, t2: Table, id: string)
    requires Ready(t1) && Ready(t2) && HeldBy(t1, id).Some?
    requires forall key :: key in t1.entities ==> StoredAlike(t1, t2, key)
    ensures HeldBy(t2, id) == HeldBy(t1, id)
  {
    var key := HeldIsStored(t1, id);
    assert StoredAlike(t1, t2, key);
    HeldUnder(t2, key);
  }

  lemma SameIsAlike(t1: Table, t2: Table, id: string)
    requires Ready(t1) && Ready(t2) && Same(t1, t2)
    ensures HeldBy(t1, id) == HeldBy(t2, id)
  {
    assert forall key :: key in t1.entities ==> SameEntity(t1.entities[key], t2.entities[key]);
    if HeldBy(t1, id).Some? {
      HeldThere(t1, t2, id);
    } else if HeldBy(t2, id).Some? {
      HeldThere(t2, t1, id);
    }
  }

  lemma StoredWhereHeld(t1: Table, t2: Table, key: string)
    requires Ready(t1) && Ready(t2) && key in t1.entities
        && HeldBy(t1, t1.entities[key].id) == HeldBy(t2, t1.entities[key].id)
    ensures StoredAlike(t1, t2, key)
  {
    HeldUnder(t1, key);
    var other := HeldIsStored(t2, t1.entities[key].id);
  }

  lemma AllStoredAlike(t1: Table, t2: Table)
    requires Ready(t1) && Ready(t2) && Alike(t1, t2)
    ensures forall key :: key in t1.entities ==> StoredAlike(t1, t2, key)
  {
    forall key | key in t1.entities ensures StoredAlike(t1, t2, key) {
      StoredWhereHeld(t1, t2, key);
    }
  }

  /** Stores are the same, up to time stamps, exactly when every bare id is held alike. */
  lemma SameIff(t1: Table, t2: Table)
    requires Ready(t1) && Ready(t2) && t1.definitions == t2.definitions
    ensures Same(t1, t2) <==> Alike(t1, t2)
  {
    if Same(t1, t2) {
      forall id ensures HeldBy(t1, id) == HeldBy(t2, id) { SameIsAlike(t1, t2, id); }
    }
    if Alike(t1, t2) {
      AllStoredAlike(t1, t2);
      AllStoredAlike(t2, t1);
      StoredAlikeIsSame(t1, t2);
    }
  }

  lemma StoredAlikeIsSame(t1: Table, t2: Table)
    requires t1.definitions == t2.definitions
    requires (forall key :: key in t1.entities ==> StoredAlike(t1, t2, key)) && t2.entities.Keys <= t1.entities.Keys
    ensures Same(t1, t2)
  {
  }

  /**
   * A second replay leaves the entity alone: the log removes it somewhere before it was stored for good, or every
   * update logged under its bare id, also for another type, fails its own type's validation or is already visible in
   * it.
   */
  predicate Unharmed(fm: Formats, definitions: Definitions, log: seq<Op>, e: Entity) {
    Forgets(log, e.typ, e.id) || Shows(e.fields, Changes(fm, definitions, log, e.typ, e.id))
  }

  lemma {:induction false} ChangesUnstamped(fm: Formats, definitions: Definitions, ops: seq<Op>, typ: string,
      id: string)
    ensures UPDATED_AT !in Changes(fm, definitions, ops, typ, id)
  {
    if ops == [] {
    } else {
      ChangesUnstamped(fm, definitions, ops[..|ops| - 1], typ, id);
    }
  }

  predicate IdUnharmed(fm: Formats, final: Table, log: seq<Op>, id: string) {
    forall key :: key in final.entities && final.entities[key].id == id ==>
        Unharmed(fm, final.definitions, log, final.entities[key])
  }

  lemma UnharmedIff(fm: Formats, final: Table, r: Table, log: seq<Op>, id: string)
    requires FateTells(fm, final, log, id) && Ready(final)
    requires HeldBy(r, id) == Fates(fm, final.definitions, HeldBy(final, id), log, id)
    ensures HeldBy(r, id) == HeldBy(final, id) <==> IdUnharmed(fm, final, log, id)
  {
    SecondFate(fm, final.definitions, log, id);
    if HeldBy(final, id).Some? {
      var key := HeldIsStored(final, id);
      ChangesUnstamped(fm, final.definitions, log, final.entities[key].typ, id);
    }
  }

  /**
   * Replaying a whole log on the store it produced, whatever the clock reads and however maps are walked, leaves that
   * store if and only if no stored entity is reached by an older update of its bare id. Definitions are fixed, no field
   * is unique, and no insert of the history reused a live bare id.
   */
  lemma ReplayIsIdempotentIff(fm: Formats, start: Table, ops: seq<Op>, nows: seq<int>, later: seq<Moment>)
    requires Ready(start) && start.entities == map[] && History(fm, start, ops, nows) && |later| == |ops|
    ensures var final, log := After(fm, start, ops, nows), LoggedOps(ops, nows);
            Same(ReplayAll(fm, final, log, later), final)
            <==> forall key :: key in final.entities ==> Unharmed(fm, final.definitions, log, final.entities[key])
  {
    var final, log := After(fm, start, ops, nows), LoggedOps(ops, nows);
    HistoryFates(fm, start, ops, nows);
    ReplayFates(fm, final, log, later);
    var r := ReplayAll(fm, final, log, later);
    SameIff(r, final);
    forall id | NoColon(id) ensures HeldBy(r, id) == HeldBy(final, id) <==> IdUnharmed(fm, final, log, id) {
      assert FateTells(fm, final, log, id);
      UnharmedIff(fm, final, r, log, id);
    }
  }

  lemma HarmIsFelt(
    fm: Formats, start: Table, ops: seq<Op>, nows: seq<int>, later: seq<Moment>, final: Table, key: string)
    requires Ready(start) && start.entities == map[] && History(fm, start, ops, nows) && |later| == |ops|
    requires final == After(fm, start, ops, nows) && key in final.entities
    requires !Unharmed(fm, start.definitions, LoggedOps(ops, nows), final.entities[key])
    ensures !Same(ReplayAll(fm, final, LoggedOps(ops, nows), later), final)
  {
    HistoryFates(fm, start, ops, nows);
    ReplayIsIdempotentIff(fm, start, ops, nows, later);
  }

  /** In particular when every stored entity's bare id was only ever used under its own type. */
  lemma ReplayIsIdempotent(fm: Formats, start: Table, ops: seq<Op>, nows: seq<int>, later: seq<Moment>)
    requires Ready(start) && start.entities == map[] && History(fm, start, ops, nows) && |later| == |ops|
    requires var final := After(fm, start, ops, nows);
             forall key :: key in final.entities ==>
                 OneType(LoggedOps(ops, nows), final.entities[key].typ, final.entities[key].id)
    ensures Same(ReplayAll(fm, After(fm, start, ops, nows), LoggedOps(ops, nows), later), After(fm, start, ops, nows))
  {
    var final, log := After(fm, start, ops, nows), LoggedOps(ops, nows);
    HistoryFates(fm, start, ops, nows);
    forall key | key in final.entities ensures Unharmed(fm, final.definitions, log, final.entities[key]) {
      var e := final.entities[key];
      HeldUnder(final, key);
      assert FateTells(fm, final, log, e.id);
      if !Forgets(log, e.typ, e.id) {
        OneTypeShows(fm, final.definitions, log, e.typ, e.id);
      }
    }
    ReplayIsIdempotentIff(fm, start, ops, nows, later);
  }
}
