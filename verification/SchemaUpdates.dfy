/** UpdateEntityType on the engine: migrating the entities and rebuilding the index structures in place. */
module SchemaUpdates {
  import opened Common
  import opened Keys
  import opened Validation
  import opened Store
  import opened Tables
  import opened Commits
  import opened Schema
  import opened Migrations
  import opened Engines
  import Persistence
  import opened A = Agreement

  // ---------- verifyUniqueConstraintCanBeAdded ----------

  /** One pass over the entities with a map of the keys seen so far finds a shared key exactly if there is one. */
  method VerifyUnique(engine: Engine, typ: string, name: string) returns (ok: bool)
    ensures ok <==> !Duplicated(engine.fm, engine.Table(), typ, name)
  {
    var seen: map<string, string> := map[];
    var rest := engine.entities.Keys;
    while rest != {}
      invariant rest <= engine.entities.Keys
      invariant forall k ::
          OfType(engine.entities, k, typ) && k !in rest && UniqueKey(engine.fm, engine.entities[k].fields, name).Some?
          ==> UniqueKey(engine.fm, engine.entities[k].fields, name).value in seen
      invariant forall key :: key in seen ==>
                  seen[key] !in rest && OfType(engine.entities, seen[key], typ)
                  && UniqueKey(engine.fm, engine.entities[seen[key]].fields, name) == Some(key)
      invariant forall k1, k2 ::
          k1 in engine.entities && k2 in engine.entities && k1 !in rest && k2 !in rest && k1 != k2
          ==> !Shares(engine.fm, engine.Table(), typ, name, k1, k2)
      decreases rest
    {
      var k :| k in rest;
      var e := engine.entities[k];
      if e.typ == typ && name in e.fields && e.fields[name] != Null {
        var key := UniqueIndexKey(engine.fm, e.fields[name]);
        if key in seen {
          assert Shares(engine.fm, engine.Table(), typ, name, k, seen[key]);
          return false;
        }
        seen := seen[key := k];
      }
      rest := rest - {k};
    }
    return true;
  }

  // ---------- the plan ----------

  datatype FieldChange = FieldChange(name: string, from: FieldType, to: FieldType)

  datatype MigrationPlan = MigrationPlan(added: set<string>, removed: set<string>, changed: seq<FieldChange>)

  /** The changes are exactly the retained fields among the given ones whose type differs, each once. */
  ghost predicate PlansChanges(original: seq<FieldDefinition>, updated: seq<FieldDefinition>,
      some: seq<FieldDefinition>, changed: seq<FieldChange>) {
    && (forall c :: c in changed <==>
        HasField(some, c.name) && ChangeOf(original, updated, c.name) == Some((c.from, c.to)))
    && (forall i, j :: 0 <= i < j < |changed| ==> changed[i].name != changed[j].name)
  }

  lemma PlanOneField(original: seq<FieldDefinition>, updated: seq<FieldDefinition>, i: nat, changed: seq<FieldChange>)
    requires DistinctNames(updated) && i < |updated| && PlansChanges(original, updated, updated[..i], changed)
    ensures PlansChanges(original, updated, updated[..i + 1],
              match ChangeOf(original, updated, updated[i].name)
              case None => changed
              case Some((from, to)) => changed + [FieldChange(updated[i].name, from, to)])
  {
    TakeField(updated, i);
    assert forall c :: c in changed ==> c.name != updated[i].name;
  }

  predicate RetainedOk(original: seq<FieldDefinition>, g: FieldDefinition) {
    var f := Find(original, g.name);
    f.Some? ==> (f.value.typ != g.typ ==> Compatible(f.value.typ, g.typ)) && (g.required ==> f.value.required)
  }

  lemma AcceptsIsRetainedOk(original: seq<FieldDefinition>, updated: seq<FieldDefinition>)
    requires DistinctNames(original)
    ensures Accepts(original, updated) <==> forall g :: g in updated ==> RetainedOk(original, g)
  {
    forall f | f in original ensures Find(original, f.name) == Some(f) {
      FindOwn(original, f);
    }
  }

  /** createMigrationPlan. */
  method CreatePlan(original: seq<FieldDefinition>, updated: seq<FieldDefinition>) returns (plan: Option<MigrationPlan>)
    requires DistinctNames(original) && DistinctNames(updated)
    ensures plan.Some? <==> Accepts(original, updated)
    ensures plan.Some? ==> PlansChanges(original, updated, updated, plan.value.changed)
    ensures plan.Some? ==> forall name :: name in plan.value.added <==>
        HasField(updated, name) && !HasField(original, name)
    ensures plan.Some? ==>
      forall name :: name in plan.value.removed <==> !HasField(updated, name) && exists f ::
          f in original && f.name == name && !f.internal
  {
    var added := set g | g in updated && Find(original, g.name).None? :: g.name;
    var removed := set f | f in original && Find(updated, f.name).None? && !f.internal :: f.name;
    var changed := CheckRetained(original, updated);
    if changed.None? { return None; }
    return Some(MigrationPlan(added, removed, changed.value));
  }

  /** The part of createMigrationPlan about fields in both definitions. */
  method CheckRetained(original: seq<FieldDefinition>, updated: seq<FieldDefinition>)
      returns (changes: Option<seq<FieldChange>>)
    requires DistinctNames(original) && DistinctNames(updated)
    ensures changes.Some? <==> Accepts(original, updated)
    ensures changes.Some? ==> PlansChanges(original, updated, updated, changes.value)
  {
    AcceptsIsRetainedOk(original, updated);
    var changed: seq<FieldChange> := [];
    for i := 0 to |updated|
      invariant forall g :: g in updated[..i] ==> RetainedOk(original, g)
      invariant PlansChanges(original, updated, updated[..i], changed)
    {
      var g := updated[i];
      var f := Find(original, g.name);
      FindOwn(updated, g);
      TakeField(updated, i);
      PlanOneField(original, updated, i, changed);
      if f.Some? {
        if f.value.typ != g.typ {
          if !Compatible(f.value.typ, g.typ) { return None; }
          changed := changed + [FieldChange(g.name, f.value.typ, g.typ)];
        }
        if !f.value.required && g.required { return None; }
      }
    }
    assert updated[..|updated|] == updated;
    return Some(changed);
  }

  lemma TakeField(fields: seq<FieldDefinition>, i: nat)
    requires i < |fields| && DistinctNames(fields)
    ensures forall g :: g in fields[..i + 1] <==> g in fields[..i] || g == fields[i]
    ensures forall name :: HasField(fields[..i + 1], name) <==> HasField(fields[..i], name) || name == fields[i].name
    ensures !HasField(fields[..i], fields[i].name)
  {
    assert fields[..i + 1] == fields[..i] + [fields[i]];
  }

  // ---------- migrating the entities ----------

  predicate Mentions(changed: seq<FieldChange>, name: string) {
    exists c :: c in changed && c.name == name
  }

  /** The fields once some of the planned changes have been made. */
  function PartlyConverted(original: seq<FieldDefinition>, updated: seq<FieldDefinition>, made: seq<FieldChange>,
      fields: Fields): Fields {
    map name | name in fields :: if Mentions(made, name) then ConvertedValue(original, updated, name, fields[name])
        else fields[name]
  }

  lemma ConvertNothing(original: seq<FieldDefinition>, updated: seq<FieldDefinition>, fields: Fields)
    ensures PartlyConverted(original, updated, [], fields) == fields
  {
  }

  lemma MentionsOneMore(changed: seq<FieldChange>, i: nat)
    requires i < |changed| && forall a, b :: 0 <= a < b < |changed| ==> changed[a].name != changed[b].name
    ensures !Mentions(changed[..i], changed[i].name)
    ensures forall name :: Mentions(changed[..i + 1], name) <==> Mentions(changed[..i], name) || name == changed[i].name
  {
    assert changed[..i + 1] == changed[..i] + [changed[i]];
    assert changed[i] in changed[..i + 1];
  }

  lemma PlannedConverts(original: seq<FieldDefinition>, updated: seq<FieldDefinition>, c: FieldChange, v: Value)
    requires ChangeOf(original, updated, c.name) == Some((c.from, c.to)) && Accepts(original, updated)
    ensures Convert(v, c.from, c.to) == Some(ConvertedValue(original, updated, c.name, v))
  {
    assert Compatible(c.from, c.to);
  }

  lemma ConvertOneMore(original: seq<FieldDefinition>, updated: seq<FieldDefinition>, changed: seq<FieldChange>, i: nat,
      fields: Fields)
    requires i < |changed| && PlansChanges(original, updated, updated, changed) && Accepts(original, updated)
    ensures var c := changed[i];
            var before := PartlyConverted(original, updated, changed[..i], fields);
            var after := PartlyConverted(original, updated, changed[..i + 1], fields);
            if c.name in fields then
              Convert(before[c.name], c.from, c.to).Some?
                  && after == before[c.name := Convert(before[c.name], c.from, c.to).value]
            else after == before
  {
    var c := changed[i];
    assert c in changed;
    MentionsOneMore(changed, i);
    if c.name in fields { PlannedConverts(original, updated, c, fields[c.name]); }
  }

  lemma ConvertAll(original: seq<FieldDefinition>, updated: seq<FieldDefinition>, changed: seq<FieldChange>,
      fields: Fields)
    requires PlansChanges(original, updated, updated, changed)
    ensures PartlyConverted(original, updated, changed, fields) == Converted(original, updated, fields)
  {
    forall name | ChangeOf(original, updated, name).Some? ensures Mentions(changed, name) {
      var change := ChangeOf(original, updated, name).value;
      assert FieldChange(name, change.0, change.1) in changed;
    }
  }

  /** The loop over the planned changes, on one entity: no conversion fails. */
  method ConvertFields(original: seq<FieldDefinition>, updated: seq<FieldDefinition>, changed: seq<FieldChange>,
      fields: Fields)
    returns (converted: Option<Fields>)
    requires Accepts(original, updated) && PlansChanges(original, updated, updated, changed)
    ensures converted == Some(Converted(original, updated, fields))
  {
    var result := fields;
    ConvertNothing(original, updated, fields);
    for i := 0 to |changed|
      invariant result == PartlyConverted(original, updated, changed[..i], fields)
    {
      var c := changed[i];
      ConvertOneMore(original, updated, changed, i, fields);
      if c.name in result {
        var value := Convert(result[c.name], c.from, c.to);
        if value.None? { return None; }
        result := result[c.name := value.value];
      }
    }
    assert changed[..|changed|] == changed;
    ConvertAll(original, updated, changed, fields);
    return Some(result);
  }

  lemma NthOfType(db: Db, typ: string, es: seq<Entity>, i: nat)
    requires ListsType(db, typ, es) && i < |es|
    ensures es[..i + 1][..i] == es[..i] && es[i].typ == typ
    ensures forall e :: e in es[..i + 1] ==> e.typ == typ
  {
    assert forall k :: 0 <= k < |es| ==> es[k] in es;
  }

  /** One round of executeMigrationPlan. */
  method MigrateOne(engine: Engine, typ: string, updated: seq<FieldDefinition>, changed: seq<FieldChange>, e: Entity)
      returns (ok: bool)
    requires typ in engine.definitions && typ in engine.indices && typ in engine.uniqueIndices && e.typ == typ
    requires DistinctNames(updated) && Accepts(engine.definitions[typ].fields, updated)
    requires PlansChanges(engine.definitions[typ].fields, updated, updated, changed)
    modifies engine`entities, engine`indices, engine`uniqueIndices
    ensures ok && engine.Db() == Replace(engine.fm, old(engine.Db()), e,
        Migrated(engine.definitions[typ].fields, updated, e))
  {
    var converted := ConvertFields(engine.definitions[typ].fields, updated, changed, e.fields);
    if converted.None? { return false; }
    engine.SwapEntity(e, e.(fields := converted.value));
    return true;
  }

  /** The loop of executeMigrationPlan, over the listed entities. */
  method MigrateListed(engine: Engine, typ: string, updated: seq<FieldDefinition>, changed: seq<FieldChange>,
      es: seq<Entity>) returns (ok: bool)
    requires engine.ListsExact() && typ in engine.definitions && DistinctNames(updated)
    requires ListsType(engine.Db(), typ, es)
    requires Accepts(engine.definitions[typ].fields, updated) && PlansChanges(engine.definitions[typ].fields, updated,
        updated, changed)
    modifies engine`entities, engine`indices, engine`uniqueIndices
    ensures ok && engine.Db() == MigrateAll(engine.fm, old(engine.Db()), typ, updated, es)
  {
    ghost var db := engine.Db();
    for i := 0 to |es|
      invariant engine.Db() == MigrateAll(engine.fm, db, typ, updated, es[..i])
    {
      NthOfType(db, typ, es, i);
      var done := MigrateOne(engine, typ, updated, changed, es[i]);
      if !done { return false; }
    }
    assert es[..|es|] == es;
    return true;
  }

  /**
   * executeMigrationPlan: every entity of the type is migrated, in whatever order the map yields them, and no
   * conversion fails.
   */
  method ExecutePlan(engine: Engine, typ: string, updated: seq<FieldDefinition>, changed: seq<FieldChange>)
    returns (ok: bool, ghost order: seq<Entity>)
    requires engine.ListsExact() && typ in engine.definitions && DistinctNames(updated)
    requires Accepts(engine.definitions[typ].fields, updated) && PlansChanges(engine.definitions[typ].fields, updated,
        updated, changed)
    modifies engine`entities, engine`indices, engine`uniqueIndices
    ensures ok && ListsType(old(engine.Db()), typ, order)
    ensures engine.Db() == MigrateAll(engine.fm, old(engine.Db()), typ, updated, order)
    ensures engine.entities == AllMigrated(engine.definitions[typ].fields, updated, old(engine.entities), typ)
    ensures engine.ListsExact() && (old(engine.Valid()) ==> OthersOwned(engine.fm, engine.Db(), typ))
  {
    var es := Persistence.ListEntities(engine, typ);
    order := es;
    MigrateKeepsLists(engine.fm, engine.Db(), typ, updated, es);
    if engine.Valid() { MigrateKeepsOthers(engine.fm, engine.Db(), typ, updated, es); }
    MigrateNoneOrAll(engine.definitions[typ].fields, updated, engine.Db(), typ, es);
    ok := MigrateListed(engine, typ, updated, changed, es);
  }

  // ---------- rebuilding the index structures ----------

  /** The index of one field lists, under every value, exactly the entities a scan finds. */
  ghost predicate FieldListed(fm: Formats, entities: map<string, Entity>, ix: TypeIndex, typ: string, name: string) {
    forall value {:trigger Ids(ix, name, value)} :: Lists(fm, entities, Ids(ix, name, value), typ, name, value)
  }

  ghost predicate AllListed(fm: Formats, entities: map<string, Entity>, ix: TypeIndex, typ: string,
      fields: seq<FieldDefinition>) {
    forall g :: g in fields && g.indexed ==> FieldListed(fm, entities, ix, typ, g.name)
  }

  ghost predicate AllOwned(fm: Formats, entities: map<string, Entity>, ux: TypeUnique, typ: string,
      fields: seq<FieldDefinition>) {
    forall g :: g in fields && g.unique ==> FieldOwned(fm, entities, ux, typ, g.name)
  }

  /** The entities outside rest are the ones listed so far. */
  ghost predicate ListedSoFar(
    fm: Formats, entities: map<string, Entity>, rest: set<string>, values: map<string, seq<string>>, typ: string,
        name: string)
  {
    forall value {:trigger value in values} ::
      var ids := if value in values then values[value] else [];
      Distinct(ids) && forall id :: id in ids <==>
          Carries(fm, entities, typ, name, value, id) && CreateKey(typ, id) !in rest
  }

  lemma ListOneMore(fm: Formats, entities: map<string, Entity>, rest: set<string>, values: map<string, seq<string>>,
                    typ: string, name: string, k: string)
    requires ListedSoFar(fm, entities, rest, values, typ, name) && k in rest && k in entities && k == KeyOf(entities[k])
    requires NoColon(typ) && NoColon(entities[k].typ)
    ensures var r := Rendered(fm, entities[k].fields, name);
            ListedSoFar(fm, entities, rest - {k},
              if entities[k].typ == typ && r.Some?
                  then values[r.value := (if r.value in values then values[r.value] else []) + [entities[k].id]]
              else values, typ, name)
  {
    var e := entities[k];
    forall id | CreateKey(typ, id) == k ensures typ == e.typ && id == e.id {
      KeyInjective(typ, id, e.typ, e.id);
    }
  }

  /** What the loop over the entities makes of an empty index, if it meets those of the type in the order es. */
  function BuiltIndex(fm: Formats, es: seq<Entity>, name: string): map<string, seq<string>> {
    if es == [] then map[]
    else
      var e := es[|es| - 1];
      var values := BuiltIndex(fm, es[..|es| - 1], name);
      match Rendered(fm, e.fields, name)
      case None => values
      case Some(value) => values[value := (if value in values then values[value] else []) + [e.id]]
  }

  function KeysOf(es: seq<Entity>): set<string> { set e | e in es :: KeyOf(e) }

  lemma {:induction false} BuiltSoFar(fm: Formats, db: Db, typ: string, name: string, es: seq<Entity>)
    requires WellKeyed(db.definitions, db.entities) && NoColon(typ) && Listed(db, typ, es)
    ensures ListedSoFar(fm, db.entities, db.entities.Keys - KeysOf(es), BuiltIndex(fm, es, name), typ, name)
  {
    if es == [] {
    } else {
      var n := |es| - 1;
      ListedFront(db, typ, es);
      BuiltSoFar(fm, db, typ, name, es[..n]);
      assert KeyOf(es[n]) !in KeysOf(es[..n]);
      assert db.entities.Keys - KeysOf(es) == db.entities.Keys - KeysOf(es[..n]) - {KeyOf(es[n])};
      ListOneMore(fm, db.entities, db.entities.Keys - KeysOf(es[..n]), BuiltIndex(fm, es[..n], name), typ, name,
          KeyOf(es[n]));
    }
  }

  /** Such an index lists exactly what a scan finds, whatever the order. */
  lemma BuiltIsRight(fm: Formats, db: Db, typ: string, name: string, es: seq<Entity>)
    requires WellKeyed(db.definitions, db.entities) && NoColon(typ) && ListsType(db, typ, es)
    ensures ListedSoFar(fm, db.entities, {}, BuiltIndex(fm, es, name), typ, name)
  {
    BuiltSoFar(fm, db, typ, name, es);
    forall value, id | Carries(fm, db.entities, typ, name, value, id) ensures CreateKey(typ, id) in KeysOf(es) {
      StoredUnderKey(db, typ, id);
      assert db.entities[CreateKey(typ, id)] in es;
    }
  }

  /** The loop that fills the index of one field from the stored entities. */
  method BuildIndex(fm: Formats, entities: map<string, Entity>, typ: string, name: string,
      ghost definitions: map<string, EntityDefinition>)
    returns (values: map<string, seq<string>>, ghost order: seq<Entity>)
    requires WellKeyed(definitions, entities) && NoColon(typ)
    ensures ListsType(Db(definitions, entities, map[], map[]), typ, order) && values == BuiltIndex(fm, order, name)
  {
    values, order := map[], [];
    var rest := entities.Keys;
    while rest != {}
      invariant rest <= entities.Keys && Distinct(order) && values == BuiltIndex(fm, order, name)
      invariant forall e :: e in order <==>
                  KeyOf(e) in entities && entities[KeyOf(e)] == e && e.typ == typ && KeyOf(e) !in rest
      decreases rest
    {
      var k :| k in rest;
      var e := entities[k];
      if e.typ == typ {
        assert (order + [e])[..|order|] == order;
        order := order + [e];
        if name in e.fields && e.fields[name] != Null {
          var value := IndexableValue(fm, e.fields[name]);
          var ids := if value in values then values[value] else [];
          values := values[value := ids + [e.id]];
        }
      }
      rest := rest - {k};
    }
  }

  predicate IndexedIn(fields: seq<FieldDefinition>, name: string) {
    Find(fields, name).Some? && Find(fields, name).value.indexed
  }

  lemma BuiltIsListed(fm: Formats, entities: map<string, Entity>, ix: TypeIndex, values: map<string, seq<string>>,
      typ: string, name: string)
    requires ListedSoFar(fm, entities, {}, values, typ, name)
    ensures FieldListed(fm, entities, ix[name := values], typ, name)
  {
    var ix' := ix[name := values];
    forall value ensures Lists(fm, entities, Ids(ix', name, value), typ, name, value) {
      assert value in values || value !in values;
    }
  }

  /** The order in which a field that becomes indexed meets the entities. */
  function ScanFor(scans: map<string, seq<Entity>>, name: string): seq<Entity> {
    if name in scans then scans[name] else []
  }

  /**
   * updateIndicesForSchemaChange, for one type: a field that the earlier definition does not have as indexed gets an
   * index built afresh, and one that loses the flag loses its index.
   */
  function ReindexedFields(fm: Formats, before: TypeIndex, original: seq<FieldDefinition>,
      updated: seq<FieldDefinition>, scans: map<string, seq<Entity>>): TypeIndex
  {
    if updated == [] then before
    else
      var g := updated[|updated| - 1];
      var ix := ReindexedFields(fm, before, original, updated[..|updated| - 1], scans);
      if g.indexed && !IndexedIn(original, g.name) then ix[g.name := BuiltIndex(fm, ScanFor(scans, g.name), g.name)]
      else if !g.indexed && IndexedIn(original, g.name) then ix - {g.name}
      else ix
  }

  predicate SameList(ix: TypeIndex, ix': TypeIndex, name: string) {
    (name in ix' <==> name in ix) && (name in ix ==> ix'[name] == ix[name])
  }

  lemma {:induction false} ReindexedElsewhere(fm: Formats, before: TypeIndex, original: seq<FieldDefinition>,
      updated: seq<FieldDefinition>, scans: map<string, seq<Entity>>, name: string)
    requires !HasField(updated, name)
    ensures SameList(before, ReindexedFields(fm, before, original, updated, scans), name)
  {
    if updated == [] {
    } else {
      SplitLast(updated);
      ReindexedElsewhere(fm, before, original, updated[..|updated| - 1], scans, name);
    }
  }

  /** What the loop leaves of one field it has passed. */
  predicate Settled(fm: Formats, before: TypeIndex, ix: TypeIndex, original: seq<FieldDefinition>,
      scans: map<string, seq<Entity>>, g: FieldDefinition) {
    if g.indexed && !IndexedIn(original, g.name)
    then g.name in ix && ix[g.name] == BuiltIndex(fm, ScanFor(scans, g.name), g.name)
    else if !g.indexed && IndexedIn(original, g.name) then g.name !in ix
    else SameList(before, ix, g.name)
  }

  lemma SettledStays(fm: Formats, before: TypeIndex, ix: TypeIndex, ix': TypeIndex, original: seq<FieldDefinition>,
      scans: map<string, seq<Entity>>, g: FieldDefinition)
    requires Settled(fm, before, ix, original, scans, g) && SameList(ix, ix', g.name)
    ensures Settled(fm, before, ix', original, scans, g)
  {
  }

  /** One round of the loop settles its own field and touches no other. */
  lemma LastReindexed(fm: Formats, before: TypeIndex, original: seq<FieldDefinition>, updated: seq<FieldDefinition>,
      scans: map<string, seq<Entity>>, name: string)
    requires updated != []
    ensures var front, last := updated[..|updated| - 1], updated[|updated| - 1];
            var ix0, ix := ReindexedFields(fm, before, original, front, scans),
                ReindexedFields(fm, before, original, updated, scans);
            && (name != last.name ==> SameList(ix0, ix, name))
            && (SameList(before, ix0, last.name) ==> Settled(fm, before, ix, original, scans, last))
  {
  }

  lemma {:induction false} ReindexedAt(fm: Formats, before: TypeIndex, original: seq<FieldDefinition>,
      updated: seq<FieldDefinition>, scans: map<string, seq<Entity>>, g: FieldDefinition)
    requires DistinctNames(updated) && g in updated
    ensures Settled(fm, before, ReindexedFields(fm, before, original, updated, scans), original, scans, g)
  {
    var front, last := updated[..|updated| - 1], updated[|updated| - 1];
    var ix0 := ReindexedFields(fm, before, original, front, scans);
    SplitLast(updated);
    LastReindexed(fm, before, original, updated, scans, g.name);
    if g == last {
      assert !HasField(front, g.name);
      ReindexedElsewhere(fm, before, original, front, scans, g.name);
    } else {
      ReindexedAt(fm, before, original, front, scans, g);
      SettledStays(fm, before, ix0, ReindexedFields(fm, before, original, updated, scans), original, scans, g);
    }
  }

  lemma {:induction false} OtherScansIgnored(fm: Formats, before: TypeIndex, original: seq<FieldDefinition>,
      updated: seq<FieldDefinition>, scans: map<string, seq<Entity>>, name: string, order: seq<Entity>)
    requires !HasField(updated, name)
    ensures ReindexedFields(fm, before, original, updated, scans[name := order])
            == ReindexedFields(fm, before, original, updated, scans)
  {
    if updated == [] {
    } else {
      SplitLast(updated);
      OtherScansIgnored(fm, before, original, updated[..|updated| - 1], scans, name, order);
    }
  }

  /** Each field that gets a fresh index meets all entities of the type, in some order. */
  ghost predicate ScansAll(db: Db, typ: string, original: seq<FieldDefinition>, updated: seq<FieldDefinition>,
      scans: map<string, seq<Entity>>) {
    forall g :: g in updated && g.indexed && !IndexedIn(original, g.name) ==>
      ListsType(db, typ, ScanFor(scans, g.name))
  }

  /** The lists a field kept by its flag has are right. */
  ghost predicate KeptListed(fm: Formats, entities: map<string, Entity>, before: TypeIndex, typ: string,
      original: seq<FieldDefinition>, updated: seq<FieldDefinition>) {
    forall g :: g in updated && g.indexed && IndexedIn(original, g.name) ==>
      FieldListed(fm, entities, before, typ, g.name)
  }

  lemma ReindexedListedIff(fm: Formats, db: Db, before: TypeIndex, typ: string, original: seq<FieldDefinition>,
      updated: seq<FieldDefinition>, scans: map<string, seq<Entity>>, g: FieldDefinition)
    requires WellKeyed(db.definitions, db.entities) && NoColon(typ) && DistinctNames(updated)
    requires ScansAll(db, typ, original, updated, scans) && g in updated && g.indexed
    ensures FieldListed(fm, db.entities, ReindexedFields(fm, before, original, updated, scans), typ, g.name)
            <==> (IndexedIn(original, g.name) ==> FieldListed(fm, db.entities, before, typ, g.name))
  {
    var ix := ReindexedFields(fm, before, original, updated, scans);
    ReindexedAt(fm, before, original, updated, scans, g);
    if IndexedIn(original, g.name) {
      OtherFieldListedIff(fm, db.entities, before, ix, typ, g.name);
    } else {
      var values := BuiltIndex(fm, ScanFor(scans, g.name), g.name);
      BuiltIsRight(fm, db, typ, g.name, ScanFor(scans, g.name));
      BuiltIsListed(fm, db.entities, ix, values, typ, g.name);
      assert ix[g.name := values] == ix;
    }
  }

  lemma OtherFieldListedIff(fm: Formats, entities: map<string, Entity>, ix: TypeIndex, ix': TypeIndex, typ: string,
      name: string)
    requires SameList(ix, ix', name)
    ensures FieldListed(fm, entities, ix, typ, name) <==> FieldListed(fm, entities, ix', typ, name)
  {
    forall value ensures Ids(ix', name, value) == Ids(ix, name, value) {
    }
  }

  /** Afterwards the indexed fields of the new definition are listed right exactly if the kept ones were. */
  lemma AllReindexedListedIff(fm: Formats, db: Db, before: TypeIndex, typ: string, original: seq<FieldDefinition>,
      updated: seq<FieldDefinition>, scans: map<string, seq<Entity>>)
    requires WellKeyed(db.definitions, db.entities) && NoColon(typ) && DistinctNames(updated)
    requires ScansAll(db, typ, original, updated, scans)
    ensures AllListed(fm, db.entities, ReindexedFields(fm, before, original, updated, scans), typ, updated)
            <==> KeptListed(fm, db.entities, before, typ, original, updated)
  {
    var ix := ReindexedFields(fm, before, original, updated, scans);
    forall g | g in updated && g.indexed
      ensures FieldListed(fm, db.entities, ix, typ, g.name)
              <==> (IndexedIn(original, g.name) ==> FieldListed(fm, db.entities, before, typ, g.name))
    {
      ReindexedListedIff(fm, db, before, typ, original, updated, scans, g);
    }
  }

  /** updateIndicesForSchemaChange: indexes appear and disappear as the flags change. */
  method ReindexFields(fm: Formats, definitions: map<string, EntityDefinition>, entities: map<string, Entity>,
      before: TypeIndex, typ: string, original: seq<FieldDefinition>, updated: seq<FieldDefinition>)
    returns (ix: TypeIndex, ghost scans: map<string, seq<Entity>>)
    requires WellKeyed(definitions, entities) && NoColon(typ) && DistinctNames(updated)
    ensures ix == ReindexedFields(fm, before, original, updated, scans)
    ensures ScansAll(Db(definitions, entities, map[], map[]), typ, original, updated, scans)
    ensures AllListed(fm, entities, ix, typ, updated) <==>
              KeptListed(fm, entities, before, typ, original, updated)
    ensures AllListed(fm, entities, before, typ, original) ==> AllListed(fm, entities, ix, typ, updated)
  {
    ghost var db := Db(definitions, entities, map[], map[]);
    ix, scans := before, map[];
    for i := 0 to |updated|
      invariant ix == ReindexedFields(fm, before, original, updated[..i], scans)
      invariant ScansAll(db, typ, original, updated[..i], scans)
    {
      var g := updated[i];
      TakeField(updated, i);
      assert updated[..i + 1][..i] == updated[..i];
      if g.indexed && !IndexedIn(original, g.name) {
        var values;
        ghost var order;
        values, order := BuildIndex(fm, entities, typ, g.name, definitions);
        OtherScansIgnored(fm, before, original, updated[..i], scans, g.name, order);
        ix, scans := ix[g.name := values], scans[g.name := order];
      }
      if !g.indexed && IndexedIn(original, g.name) {
        ix := ix - {g.name};
      }
    }
    assert updated[..|updated|] == updated;
    AllReindexedListedIff(fm, db, before, typ, original, updated, scans);
  }

  /** The loop that fills the unique index of one field; of two entities with one key, the later is its owner. */
  method BuildUnique(fm: Formats, entities: map<string, Entity>, typ: string, name: string,
      ghost definitions: map<string, EntityDefinition>)
    returns (owners: map<string, string>)
    requires WellKeyed(definitions, entities) && NoColon(typ)
    ensures Built(fm, entities, owners, typ, name)
  {
    owners := map[];
    var rest := entities.Keys;
    while rest != {}
      invariant rest <= entities.Keys
      invariant forall key :: key in owners ==> Owns(fm, entities, typ, name, key, owners[key])
      invariant forall key, id {:trigger Owns(fm, entities, typ, name, key, id)} ::
                  Owns(fm, entities, typ, name, key, id) && CreateKey(typ, id) !in rest ==> key in owners
      decreases rest
    {
      var k :| k in rest;
      var e := entities[k];
      assert k == CreateKey(e.typ, e.id);
      if e.typ == typ && name in e.fields && e.fields[name] != Null {
        var key := UniqueIndexKey(fm, e.fields[name]);
        assert Owns(fm, entities, typ, name, key, e.id);
        owners := owners[key := e.id];
      } else {
        forall key, id | Owns(fm, entities, typ, name, key, id) && CreateKey(typ, id) == k ensures false {
          KeyInjective(typ, id, e.typ, e.id);
        }
      }
      rest := rest - {k};
    }
  }

  predicate SameField(before: TypeUnique, after: TypeUnique, name: string) {
    (name in after <==> name in before) && (name in before ==> after[name] == before[name])
  }

  /** A field that was unique keeps its index; one that becomes unique gets one, right exactly if no key is shared. */
  ghost predicate Reindexed(fm: Formats, t: Table, before: TypeUnique, after: TypeUnique, typ: string,
                            original: seq<FieldDefinition>, name: string)
  {
    if UniqueIn(original, name) then SameField(before, after, name)
    else FieldOwned(fm, t.entities, after, typ, name) <==> !Duplicated(fm, t, typ, name)
  }

  ghost predicate AllReindexed(fm: Formats, t: Table, before: TypeUnique, after: TypeUnique, typ: string,
                               original: seq<FieldDefinition>, fields: seq<FieldDefinition>)
  {
    forall g :: g in fields && g.unique ==> Reindexed(fm, t, before, after, typ, original, g.name)
  }

  lemma SameFieldOwned(fm: Formats, entities: map<string, Entity>, ux: TypeUnique, ux': TypeUnique, typ: string,
      name: string)
    requires SameField(ux, ux', name)
    ensures FieldOwned(fm, entities, ux, typ, name) <==> FieldOwned(fm, entities, ux', typ, name)
  {
    forall key ensures Owner(ux', name, key) == Owner(ux, name, key) {
    }
  }

  lemma ReindexedStays(fm: Formats, t: Table, before: TypeUnique, ux: TypeUnique, ux': TypeUnique, typ: string,
                       original: seq<FieldDefinition>, name: string)
    requires Reindexed(fm, t, before, ux, typ, original, name) && SameField(ux, ux', name)
    ensures Reindexed(fm, t, before, ux', typ, original, name)
  {
    SameFieldOwned(fm, t.entities, ux, ux', typ, name);
  }

  /** One round of the loop over the fields that adds and drops unique indexes. */
  method ReindexUnique(fm: Formats, definitions: map<string, EntityDefinition>, entities: map<string, Entity>,
      ghost before: TypeUnique,
                       ux: TypeUnique, typ: string, original: seq<FieldDefinition>, g: FieldDefinition)
    returns (ux': TypeUnique)
    requires WellKeyed(definitions, entities) && NoColon(typ) && SameField(before, ux, g.name)
    ensures g.unique ==> Reindexed(fm, Table(definitions, entities), before, ux', typ, original, g.name)
    ensures !g.unique && UniqueIn(original, g.name) ==> g.name !in ux'
    ensures !g.unique && !UniqueIn(original, g.name) ==> ux' == ux
    ensures forall name :: name != g.name ==> SameField(ux, ux', name)
  {
    ux' := ux;
    if g.unique {
      if !UniqueIn(original, g.name) {
        var owners := BuildUnique(fm, entities, typ, g.name, definitions);
        BuiltOwnsIff(fm, Table(definitions, entities), ux, owners, typ, g.name);
        ux' := ux[g.name := owners];
      }
    } else if UniqueIn(original, g.name) {
      ux' := ux - {g.name};
    }
  }

  /** The unique indexes the new definition does not ask for go, or stay if the field itself goes. */
  ghost predicate RestReindexed(before: TypeUnique, after: TypeUnique, original: seq<FieldDefinition>,
      fields: seq<FieldDefinition>) {
    && (forall g :: g in fields && !g.unique && UniqueIn(original, g.name) ==> g.name !in after)
    && (forall name :: !HasField(fields, name) ==> SameField(before, after, name))
  }

  lemma OneMoreReindexed(fm: Formats, t: Table, before: TypeUnique, ux: TypeUnique, ux': TypeUnique, typ: string,
      original: seq<FieldDefinition>, updated: seq<FieldDefinition>, i: nat)
    requires DistinctNames(updated) && i < |updated|
    requires AllReindexed(fm, t, before, ux, typ, original, updated[..i])
        && RestReindexed(before, ux, original, updated[..i])
    requires updated[i].unique ==> Reindexed(fm, t, before, ux', typ, original, updated[i].name)
    requires !updated[i].unique && UniqueIn(original, updated[i].name) ==> updated[i].name !in ux'
    requires forall name :: name != updated[i].name ==> SameField(ux, ux', name)
    ensures AllReindexed(fm, t, before, ux', typ, original, updated[..i + 1])
    ensures RestReindexed(before, ux', original, updated[..i + 1])
  {
    TakeField(updated, i);
    forall h | h in updated[..i] && h.unique ensures Reindexed(fm, t, before, ux', typ, original, h.name) {
      ReindexedStays(fm, t, before, ux, ux', typ, original, h.name);
    }
    forall h | h in updated[..i] && !h.unique && UniqueIn(original, h.name) ensures h.name !in ux' {
      assert SameField(ux, ux', h.name);
    }
    forall name | !HasField(updated[..i + 1], name) ensures SameField(before, ux', name) {
      assert SameField(before, ux, name) && SameField(ux, ux', name);
    }
  }

  /** The part of UpdateEntityType that adds and drops unique indexes. */
  method ReindexUniques(fm: Formats, definitions: map<string, EntityDefinition>, entities: map<string, Entity>,
      before: TypeUnique, typ: string, original: seq<FieldDefinition>, updated: seq<FieldDefinition>)
    returns (ux: TypeUnique)
    requires WellKeyed(definitions, entities) && NoColon(typ) && DistinctNames(updated)
    ensures AllReindexed(fm, Table(definitions, entities), before, ux, typ, original, updated)
    ensures RestReindexed(before, ux, original, updated)
  {
    ux := before;
    ghost var t := Table(definitions, entities);
    for i := 0 to |updated|
      invariant AllReindexed(fm, t, before, ux, typ, original, updated[..i])
      invariant RestReindexed(before, ux, original, updated[..i])
    {
      TakeField(updated, i);
      var next := ReindexUnique(fm, definitions, entities, before, ux, typ, original, updated[i]);
      OneMoreReindexed(fm, t, before, ux, next, typ, original, updated, i);
      ux := next;
    }
    assert updated[..|updated|] == updated;
  }

  function Adopted(db: Db, def: EntityDefinition, ix: TypeIndex, ux: TypeUnique): Db {
    Db(db.definitions[def.name := def], db.entities, db.indices[def.name := ix], db.uniqueIndices[def.name := ux])
  }

  lemma IndexMeansListed(fm: Formats, db: Db, typ: string)
    requires ListsExact(fm, db) && typ in db.definitions
    ensures AllListed(fm, db.entities, db.indices[typ], typ, db.definitions[typ].fields)
  {
    forall f: FieldDefinition, value | f in db.definitions[typ].fields && f.indexed
      ensures Lists(fm, db.entities, Ids(db.indices[typ], f.name, value), typ, f.name, value)
    {
      assert ListedRight(fm, db, typ, f, value);
    }
  }

  /** A new definition whose indexed fields are all listed keeps every id list exact. */
  lemma AdoptionKeepsLists(fm: Formats, db: Db, def: EntityDefinition, ix: TypeIndex, ux: TypeUnique)
    requires ListsExact(fm, db) && def.name in db.definitions && DistinctNames(def.fields)
    requires AllListed(fm, db.entities, ix, def.name, def.fields)
    ensures ListsExact(fm, Adopted(db, def, ix, ux))
  {
    var db' := Adopted(db, def, ix, ux);
    forall typ, f: FieldDefinition, value | typ in db'.definitions && f in db'.definitions[typ].fields && f.indexed
      ensures ListedRight(fm, db', typ, f, value)
    {
      if typ != def.name { assert ListedRight(fm, db, typ, f, value); }
    }
  }

  /** With a new definition every id list is exact exactly if its own indexed fields are listed right. */
  lemma AdoptionListsIff(fm: Formats, db: Db, def: EntityDefinition, ix: TypeIndex, ux: TypeUnique)
    requires ListsExact(fm, db) && def.name in db.definitions && DistinctNames(def.fields)
    ensures Structured(Adopted(db, def, ix, ux))
    ensures ListsExact(fm, Adopted(db, def, ix, ux)) <==> AllListed(fm, db.entities, ix, def.name, def.fields)
  {
    if AllListed(fm, db.entities, ix, def.name, def.fields) { AdoptionKeepsLists(fm, db, def, ix, ux); }
    if ListsExact(fm, Adopted(db, def, ix, ux)) { IndexMeansListed(fm, Adopted(db, def, ix, ux), def.name); }
  }

  // ---------- putting the old definition back ----------

  /** Some entity of the type has a value of the field that an index would list. */
  predicate HasValue(fm: Formats, entities: map<string, Entity>, typ: string, name: string) {
    exists key :: key in entities && entities[key].typ == typ && Rendered(fm, entities[key].fields, name).Some?
  }

  lemma ConvertedNull(original: seq<FieldDefinition>, updated: seq<FieldDefinition>, name: string, v: Value)
    requires Accepts(original, updated)
    ensures ConvertedValue(original, updated, name, v) == Null <==> v == Null
  {
  }

  /** A migration turns no value into a null or back. */
  lemma MigrationKeepsValues(fm: Formats, original: seq<FieldDefinition>, updated: seq<FieldDefinition>,
      entities: map<string, Entity>, typ: string, name: string)
    requires Accepts(original, updated)
    ensures HasValue(fm, AllMigrated(original, updated, entities, typ), typ, name)
            <==> HasValue(fm, entities, typ, name)
  {
    var migrated := AllMigrated(original, updated, entities, typ);
    forall key | key in entities && entities[key].typ == typ
      ensures Rendered(fm, migrated[key].fields, name).Some? <==> Rendered(fm, entities[key].fields, name).Some?
    {
      if name in entities[key].fields { ConvertedNull(original, updated, name, entities[key].fields[name]); }
    }
  }

  /** A field without a list is listed right exactly if there is nothing to list. */
  lemma NoListIff(fm: Formats, db: Db, ix: TypeIndex, typ: string, name: string)
    requires WellKeyed(db.definitions, db.entities) && NoColon(typ) && name !in ix
    ensures FieldListed(fm, db.entities, ix, typ, name) <==> !HasValue(fm, db.entities, typ, name)
  {
    if key :| key in db.entities && db.entities[key].typ == typ && Rendered(fm, db.entities[key].fields, name).Some? {
      var value := Rendered(fm, db.entities[key].fields, name).value;
      assert Carries(fm, db.entities, typ, name, value, db.entities[key].id);
      assert Ids(ix, name, value) == [];
    } else {
      forall value ensures Lists(fm, db.entities, Ids(ix, name, value), typ, name, value) {
        forall id ensures !Carries(fm, db.entities, typ, name, value, id) {
          StoredUnderKey(db, typ, id);
          assert CreateKey(typ, id) in db.entities ==> db.entities[CreateKey(typ, id)].typ == typ;
        }
      }
    }
  }

  /** A field that original has as indexed stays in the new definition, without the flag, and has a value to list. */
  predicate DropsList(fm: Formats, entities: map<string, Entity>, typ: string, original: seq<FieldDefinition>,
      updated: seq<FieldDefinition>) {
    exists g :: g in updated && !g.indexed && IndexedIn(original, g.name) && HasValue(fm, entities, typ, g.name)
  }

  lemma FieldPutBackIff(fm: Formats, db: Db, before: TypeIndex, typ: string, original: seq<FieldDefinition>,
      updated: seq<FieldDefinition>, scans: map<string, seq<Entity>>, f: FieldDefinition)
    requires WellKeyed(db.definitions, db.entities) && NoColon(typ) && DistinctNames(updated)
    requires FieldListed(fm, db.entities, before, typ, f.name) && IndexedIn(original, f.name)
    ensures FieldListed(fm, db.entities, ReindexedFields(fm, before, original, updated, scans), typ, f.name)
            <==> !exists g :: g in updated && g.name == f.name && !g.indexed && HasValue(fm, db.entities, typ, f.name)
  {
    var ix := ReindexedFields(fm, before, original, updated, scans);
    match Find(updated, f.name)
    case None =>
      ReindexedElsewhere(fm, before, original, updated, scans, f.name);
      OtherFieldListedIff(fm, db.entities, before, ix, typ, f.name);
    case Some(g) =>
      ReindexedAt(fm, before, original, updated, scans, g);
      assert forall h :: h in updated && h.name == f.name ==> h == g;
      if g.indexed { OtherFieldListedIff(fm, db.entities, before, ix, typ, f.name); }
      else { NoListIff(fm, db, ix, typ, f.name); }
  }

  /** The lists a schema update leaves are right for the old definition exactly if it dropped none that was needed. */
  lemma PutBackListedIff(fm: Formats, db: Db, before: TypeIndex, typ: string, original: seq<FieldDefinition>,
      updated: seq<FieldDefinition>, scans: map<string, seq<Entity>>)
    requires WellKeyed(db.definitions, db.entities) && NoColon(typ) && DistinctNames(original)
    requires DistinctNames(updated) && AllListed(fm, db.entities, before, typ, original)
    ensures AllListed(fm, db.entities, ReindexedFields(fm, before, original, updated, scans), typ, original)
            <==> !DropsList(fm, db.entities, typ, original, updated)
  {
    var ix := ReindexedFields(fm, before, original, updated, scans);
    forall f | f in original && f.indexed
      ensures IndexedIn(original, f.name)
      ensures FieldListed(fm, db.entities, ix, typ, f.name) <==>
        !exists g :: g in updated && g.name == f.name && !g.indexed && HasValue(fm, db.entities, typ, f.name)
    {
      FindOwn(original, f);
      FieldPutBackIff(fm, db, before, typ, original, updated, scans, f);
    }
    if DropsList(fm, db.entities, typ, original, updated) {
      var g :| g in updated && !g.indexed && IndexedIn(original, g.name) && HasValue(fm, db.entities, typ, g.name);
      assert Find(original, g.name).value in original;
    }
  }

  /** And every owner exactly if those of its own unique fields are right. */
  lemma AdoptionOwnsIff(fm: Formats, db: Db, def: EntityDefinition, ix: TypeIndex, ux: TypeUnique)
    requires Structured(db) && OthersOwned(fm, db, def.name) && def.name in db.definitions
    ensures UniqueAgrees(fm, Adopted(db, def, ix, ux)) <==> AllOwned(fm, db.entities, ux, def.name, def.fields)
  {
    var db' := Adopted(db, def, ix, ux);
    if AllOwned(fm, db.entities, ux, def.name, def.fields) {
      forall typ, f: FieldDefinition, key | typ in db'.definitions && f in db'.definitions[typ].fields && f.unique
        ensures OwnedRight(fm, db', typ, f, key)
      {
        if typ != def.name { assert OwnedRight(fm, db, typ, f, key); }
      }
    }
    if UniqueAgrees(fm, db') {
      forall f: FieldDefinition, key, id | f in def.fields && f.unique
        ensures Owner(ux, f.name, key) == Some(id) <==> Owns(fm, db.entities, def.name, f.name, key, id)
      {
        assert OwnedRight(fm, db', def.name, f, key);
      }
    }
  }

  /** The definition of a type is replaced and nothing else. */
  function PutBack(db: Db, def: EntityDefinition): Db { db.(definitions := db.definitions[def.name := def]) }

  /** What putting the old definition back after the update leaves right; the walk is over, and its store is db. */
  lemma PutBackIff(fm: Formats, db: Db, def: EntityDefinition, ix: TypeIndex, ux: TypeUnique,
      scans: map<string, seq<Entity>>)
    requires ListsExact(fm, db) && def.name in db.definitions && DistinctNames(def.fields)
    requires ix == ReindexedFields(fm, db.indices[def.name], db.definitions[def.name].fields, def.fields, scans)
    ensures var original := db.definitions[def.name]; var back := PutBack(Adopted(db, def, ix, ux), original);
            && (ListsExact(fm, back) <==> !DropsList(fm, db.entities, def.name, original.fields, def.fields))
            && (OthersOwned(fm, db, def.name) ==>
                  (UniqueAgrees(fm, back) <==> AllOwned(fm, db.entities, ux, def.name, original.fields)))
  {
    var original := db.definitions[def.name];
    PutTwice(db.definitions, def.name, def, original);
    assert PutBack(Adopted(db, def, ix, ux), original) == Adopted(db, original, ix, ux);
    IndexMeansListed(fm, db, def.name);
    PutBackListedIff(fm, db, db.indices[def.name], def.name, original.fields, def.fields, scans);
    AdoptionListsIff(fm, db, original, ix, ux);
    if OthersOwned(fm, db, def.name) { AdoptionOwnsIff(fm, db, original, ix, ux); }
  }

  /** The field stays in the new definition, but no longer unique. */
  predicate LosesUnique(updated: seq<FieldDefinition>, name: string) {
    exists g :: g in updated && g.name == name && !g.unique
  }

  /** A field without owners has them right exactly if there are no keys. */
  lemma NoOwnersIff(fm: Formats, db: Db, ux: TypeUnique, typ: string, name: string)
    requires WellKeyed(db.definitions, db.entities) && NoColon(typ) && name !in ux
    ensures FieldOwned(fm, db.entities, ux, typ, name) <==> !HasValue(fm, db.entities, typ, name)
  {
    if key :| key in db.entities && db.entities[key].typ == typ && Rendered(fm, db.entities[key].fields, name).Some? {
      var k := UniqueKey(fm, db.entities[key].fields, name).value;
      assert Owns(fm, db.entities, typ, name, k, db.entities[key].id);
      assert Owner(ux, name, k) == None;
    } else {
      forall k, id ensures !Owns(fm, db.entities, typ, name, k, id) {
        StoredUnderKey(db, typ, id);
        assert CreateKey(typ, id) in db.entities ==> db.entities[CreateKey(typ, id)].typ == typ;
      }
    }
  }

  // ---------- UpdateEntityType ----------

  /** The checks of fields that become unique. */
  method CheckNewUniques(engine: Engine, original: EntityDefinition, updated: EntityDefinition) returns (ok: bool)
    requires original.name == updated.name
    ensures ok <==> NewUniquesClean(engine.fm, engine.Table(), updated.name, original.fields, updated.fields)
  {
    for i := 0 to |updated.fields|
      invariant NewUniquesClean(engine.fm, engine.Table(), original.name, original.fields, updated.fields[..i])
    {
      var g := updated.fields[i];
      if g.unique && !UniqueIn(original.fields, g.name) {
        var free := VerifyUnique(engine, updated.name, g.name);
        if !free { return false; }
      }
    }
    assert updated.fields[..|updated.fields|] == updated.fields;
    return true;
  }

  /**
   * Of one unique field: the old index as the walk left it, or the new one, is right exactly if the walk moved its keys
   * apart.
   */
  lemma ReindexedOwnsIff(fm: Formats, db: Db, typ: string, updated: seq<FieldDefinition>, order: seq<Entity>,
      ux: TypeUnique, name: string)
    requires A.Valid(fm, db) && typ in db.definitions && ListsType(db, typ, order)
    requires var r := MigrateAll(fm, db, typ, updated, order); var original := db.definitions[typ].fields;
             && r.entities == AllMigrated(original, updated, db.entities, typ)
             && Reindexed(fm, View(r), r.uniqueIndices[typ], ux, typ, original, name)
    ensures FieldOwned(fm, AllMigrated(db.definitions[typ].fields, updated, db.entities, typ), ux, typ, name)
            <==> WalkStaysApart(fm, db.definitions[typ].fields, updated, order, name)
  {
    var original, r := db.definitions[typ].fields, MigrateAll(fm, db, typ, updated, order);
    if UniqueIn(original, name) {
      var f :| f in original && f.name == name && f.unique;
      MigrationOwnsIff(fm, db, typ, updated, order, f);
      SameFieldOwned(fm, r.entities, r.uniqueIndices[typ], ux, typ, name);
    } else {
      TargetsDifferIff(fm, db, typ, updated, order, name);
    }
  }

  lemma InternalsNotUnique(updated: seq<FieldDefinition>)
    ensures forall g :: g in WithInternalFields(updated) && g.unique <==> g in updated && g.unique
  {
  }

  lemma AllOwnedIff(fm: Formats, db: Db, typ: string, updated: seq<FieldDefinition>, order: seq<Entity>, ux: TypeUnique)
    requires A.Valid(fm, db) && typ in db.definitions && ListsType(db, typ, order)
    requires var r := MigrateAll(fm, db, typ, updated, order); var original := db.definitions[typ].fields;
             && r.entities == AllMigrated(original, updated, db.entities, typ)
             && AllReindexed(fm, View(r), r.uniqueIndices[typ], ux, typ, original, updated)
    ensures AllOwned(fm, AllMigrated(db.definitions[typ].fields, updated, db.entities, typ), ux, typ, updated)
            <==> WalkKeepsUniques(fm, db.definitions[typ].fields, updated, order)
  {
    var original := db.definitions[typ].fields;
    forall g | g in updated && g.unique
      ensures FieldOwned(fm, AllMigrated(original, updated, db.entities, typ), ux, typ, g.name)
              <==> WalkStaysApart(fm, original, updated, order, g.name)
    {
      ReindexedOwnsIff(fm, db, typ, updated, order, ux, g.name);
    }
  }

  /** After the walk the old definition's unique fields are right: those kept as the walk moves them, others empty. */
  ghost predicate OldUniquesHold(fm: Formats, entities: map<string, Entity>, typ: string,
      original: seq<FieldDefinition>, updated: seq<FieldDefinition>, stored: seq<FieldDefinition>, order: seq<Entity>) {
    forall f :: f in original && f.unique ==>
      if LosesUnique(stored, f.name) then !HasValue(fm, entities, typ, f.name)
      else WalkStaysApart(fm, original, updated, order, f.name)
  }

  lemma OldOwnedIff(fm: Formats, db: Db, typ: string, updated: seq<FieldDefinition>, stored: seq<FieldDefinition>,
      order: seq<Entity>, ux: TypeUnique, f: FieldDefinition)
    requires A.Valid(fm, db) && typ in db.definitions && ListsType(db, typ, order) && DistinctNames(stored)
    requires f in db.definitions[typ].fields && f.unique
    requires var r := MigrateAll(fm, db, typ, updated, order); var original := db.definitions[typ].fields;
             && WellKeyed(r.definitions, r.entities) && r.entities == AllMigrated(original, updated, db.entities, typ)
             && AllReindexed(fm, View(r), r.uniqueIndices[typ], ux, typ, original, stored)
             && RestReindexed(r.uniqueIndices[typ], ux, original, stored)
    ensures var entities := AllMigrated(db.definitions[typ].fields, updated, db.entities, typ);
            FieldOwned(fm, entities, ux, typ, f.name) <==>
            if LosesUnique(stored, f.name) then !HasValue(fm, entities, typ, f.name)
            else WalkStaysApart(fm, db.definitions[typ].fields, updated, order, f.name)
  {
    var original, r := db.definitions[typ].fields, MigrateAll(fm, db, typ, updated, order);
    assert UniqueIn(original, f.name);
    if g :| g in stored && g.name == f.name && !g.unique {
      NoOwnersIff(fm, r, ux, typ, f.name);
    } else {
      if HasField(stored, f.name) {
        var g :| g in stored && g.name == f.name;
        assert Reindexed(fm, View(r), r.uniqueIndices[typ], ux, typ, original, g.name);
      }
      MigrationOwnsIff(fm, db, typ, updated, order, f);
      SameFieldOwned(fm, r.entities, r.uniqueIndices[typ], ux, typ, f.name);
    }
  }

  lemma AllOldOwnedIff(fm: Formats, db: Db, typ: string, updated: seq<FieldDefinition>, stored: seq<FieldDefinition>,
      order: seq<Entity>, ux: TypeUnique)
    requires A.Valid(fm, db) && typ in db.definitions && ListsType(db, typ, order) && DistinctNames(stored)
    requires var r := MigrateAll(fm, db, typ, updated, order); var original := db.definitions[typ].fields;
             && WellKeyed(r.definitions, r.entities) && r.entities == AllMigrated(original, updated, db.entities, typ)
             && AllReindexed(fm, View(r), r.uniqueIndices[typ], ux, typ, original, stored)
             && RestReindexed(r.uniqueIndices[typ], ux, original, stored)
    ensures var original := db.definitions[typ].fields;
            var entities := AllMigrated(original, updated, db.entities, typ);
            AllOwned(fm, entities, ux, typ, original)
            <==> OldUniquesHold(fm, entities, typ, original, updated, stored, order)
  {
    var original := db.definitions[typ].fields;
    var entities := AllMigrated(original, updated, db.entities, typ);
    forall f | f in original && f.unique
      ensures FieldOwned(fm, entities, ux, typ, f.name) <==>
              if LosesUnique(stored, f.name) then !HasValue(fm, entities, typ, f.name)
              else WalkStaysApart(fm, original, updated, order, f.name)
    {
      OldOwnedIff(fm, db, typ, updated, stored, order, ux, f);
    }
  }

  /** The index structures the new definition asks for. */
  method Reindex(engine: Engine, original: seq<FieldDefinition>, def: EntityDefinition)
      returns (ix: TypeIndex, ux: TypeUnique, ghost scans: map<string, seq<Entity>>)
    requires engine.ListsExact() && DistinctNames(def.fields)
    requires def.name in engine.definitions && engine.definitions[def.name].fields == original
    ensures ix == ReindexedFields(engine.fm, engine.indices[def.name], original, def.fields, scans)
    ensures AllListed(engine.fm, engine.entities, ix, def.name, def.fields)
    ensures AllReindexed(engine.fm, engine.Table(), engine.uniqueIndices[def.name], ux, def.name, original, def.fields)
    ensures RestReindexed(engine.uniqueIndices[def.name], ux, original, def.fields)
  {
    IndexMeansListed(engine.fm, engine.Db(), def.name);
    ix, scans := ReindexFields(engine.fm, engine.definitions, engine.entities, engine.indices[def.name], def.name,
        original, def.fields);
    ux := ReindexUniques(engine.fm, engine.definitions, engine.entities, engine.uniqueIndices[def.name], def.name,
        original, def.fields);
  }

  lemma AdoptionValidIff(fm: Formats, db: Db, def: EntityDefinition, ix: TypeIndex, ux: TypeUnique)
    requires ListsExact(fm, db) && def.name in db.definitions && DistinctNames(def.fields)
        && AllListed(fm, db.entities, ix, def.name, def.fields)
    ensures ListsExact(fm, Adopted(db, def, ix, ux))
    ensures OthersOwned(fm, db, def.name) ==>
        (A.Valid(fm, Adopted(db, def, ix, ux)) <==> AllOwned(fm, db.entities, ux, def.name, def.fields))
  {
    AdoptionListsIff(fm, db, def, ix, ux);
    if OthersOwned(fm, db, def.name) { AdoptionOwnsIff(fm, db, def, ix, ux); }
  }

  method StoreDefinition(engine: Engine, def: EntityDefinition, ix: TypeIndex, ux: TypeUnique)
    modifies engine`definitions, engine`indices, engine`uniqueIndices
    ensures engine.Db() == Adopted(old(engine.Db()), def, ix, ux)
  {
    engine.definitions := engine.definitions[def.name := def];
    engine.indices := engine.indices[def.name := ix];
    engine.uniqueIndices := engine.uniqueIndices[def.name := ux];
  }

  /** Storing the new definition and bringing both index structures in line with it. */
  method AdoptDefinition(engine: Engine, original: EntityDefinition, def: EntityDefinition)
      returns (ghost ux: TypeUnique)
    requires engine.ListsExact() && DistinctNames(def.fields) && def.name in engine.definitions
        && engine.definitions[def.name] == original
    modifies engine`definitions, engine`indices, engine`uniqueIndices
    ensures engine.definitions == old(engine.definitions)[def.name := def]
    ensures engine.ListsExact()
    ensures AllReindexed(engine.fm, old(engine.Table()), old(engine.uniqueIndices[def.name]), ux, def.name,
        original.fields, def.fields)
    ensures RestReindexed(old(engine.uniqueIndices[def.name]), ux, original.fields, def.fields)
    ensures old(OthersOwned(engine.fm, engine.Db(), def.name)) ==>
        (engine.Valid() <==> AllOwned(engine.fm, engine.entities, ux, def.name, def.fields))
    ensures A.ListsExact(engine.fm, PutBack(engine.Db(), original)) <==>
        !DropsList(engine.fm, engine.entities, def.name, original.fields, def.fields)
    ensures old(OthersOwned(engine.fm, engine.Db(), def.name)) ==>
        (UniqueAgrees(engine.fm, PutBack(engine.Db(), original)) <==>
            AllOwned(engine.fm, engine.entities, ux, def.name, original.fields))
  {
    var newIndex, newUnique;
    ghost var scans;
    newIndex, newUnique, scans := Reindex(engine, original.fields, def);
    ux := newUnique;
    AdoptionValidIff(engine.fm, engine.Db(), def, newIndex, newUnique);
    PutBackIff(engine.fm, engine.Db(), def, newIndex, newUnique, scans);
    StoreDefinition(engine, def, newIndex, newUnique);
  }

  lemma UpdateTypeAccepted(fm: Formats, t: Table, updated: EntityDefinition)
    requires updated.name in t.definitions && Accepts(t.definitions[updated.name].fields, updated.fields)
    requires NewUniquesClean(fm, t, updated.name, t.definitions[updated.name].fields, updated.fields)
    ensures var original := t.definitions[updated.name];
            UpdateType(fm, t, updated).0 ==
            Table(t.definitions[updated.name := Upgraded(original, updated)],
                AllMigrated(original.fields, updated.fields, t.entities, updated.name))
  {
  }

  /** The part of UpdateEntityType under the write lock. The ghost result is the order of the walk. */
  method CommitUpdate(engine: Engine, updated: EntityDefinition, changed: seq<FieldChange>)
      returns (ok: bool, ghost order: seq<Entity>)
    requires engine.ListsExact() && updated.name in engine.definitions && DistinctNames(updated.fields)
    requires Accepts(engine.definitions[updated.name].fields, updated.fields)
    requires NewUniquesClean(engine.fm, engine.Table(), updated.name, engine.definitions[updated.name].fields,
        updated.fields)
    requires PlansChanges(engine.definitions[updated.name].fields, updated.fields, updated.fields, changed)
    modifies engine
    ensures ok && engine.Table() == UpdateType(engine.fm, old(engine.Table()), updated).0
    ensures engine.ListsExact()
    ensures ListsType(old(engine.Db()), updated.name, order)
    ensures old(engine.Valid()) ==>
        (engine.Valid() <==> WalkKeepsUniques(engine.fm, old(engine.definitions[updated.name].fields),
            updated.fields, order))
    ensures var original := old(engine.definitions[updated.name]); var stored := Upgraded(original, updated).fields;
            var back := PutBack(engine.Db(), original);
            && (A.ListsExact(engine.fm, back) <==>
                  !DropsList(engine.fm, engine.entities, updated.name, original.fields, stored))
            && (old(engine.Valid()) ==>
                  (UniqueAgrees(engine.fm, back) <==> OldUniquesHold(engine.fm, engine.entities, updated.name,
                      original.fields, updated.fields, stored, order)))
  {
    ghost var db := engine.Db();
    var original := engine.definitions[updated.name];
    var completed := engine.Complete(updated);
    var def := completed.(idGenerator := original.idGenerator);
    CompletedDistinct(updated);
    UpdateTypeAccepted(engine.fm, engine.Table(), updated);
    var migrated;
    migrated, order := ExecutePlan(engine, updated.name, updated.fields, changed);
    if !migrated { return false, order; }
    ghost var ux := AdoptDefinition(engine, original, def);
    InternalsNotUnique(updated.fields);
    if A.Valid(engine.fm, db) {
      AllOwnedIff(engine.fm, db, updated.name, updated.fields, order, ux);
      AllOldOwnedIff(engine.fm, db, updated.name, updated.fields, def.fields, order, ux);
    }
    return true, order;
  }

  /** What a failed update leaves right when only the definition is put back. */
  ghost predicate PutBackHolds(fm: Formats, t: Table, original: EntityDefinition, updated: EntityDefinition,
      order: seq<Entity>, db: Db) {
    var stored := Upgraded(original, updated).fields;
    && (A.ListsExact(fm, db) <==> !DropsList(fm, t.entities, updated.name, original.fields, stored))
    && (A.Valid(fm, db) <==>
          && !DropsList(fm, t.entities, updated.name, original.fields, stored)
          && OldUniquesHold(fm, t.entities, updated.name, original.fields, updated.fields, stored, order))
  }

  /** The log write after the locked part, and the second locked part when it fails. */
  method CommitAndPersist(engine: Engine, updated: EntityDefinition, changed: seq<FieldChange>, persisted: bool)
      returns (ok: bool, ghost order: seq<Entity>)
    requires engine.ListsExact() && updated.name in engine.definitions && DistinctNames(updated.fields)
    requires Accepts(engine.definitions[updated.name].fields, updated.fields)
    requires NewUniquesClean(engine.fm, engine.Table(), updated.name, engine.definitions[updated.name].fields,
        updated.fields)
    requires PlansChanges(engine.definitions[updated.name].fields, updated.fields, updated.fields, changed)
    modifies engine
    ensures ok && ListsType(old(engine.Db()), updated.name, order)
    ensures var t := UpdateType(engine.fm, old(engine.Table()), updated).0;
            engine.Table() == if persisted then t else t.(definitions := old(engine.definitions))
    ensures persisted ==> engine.ListsExact()
    ensures persisted && old(engine.Valid()) ==>
        (engine.Valid() <==> WalkKeepsUniques(engine.fm, old(engine.definitions[updated.name].fields),
            updated.fields, order))
    ensures !persisted ==>
        (engine.ListsExact() <==> !DropsList(engine.fm, engine.entities, updated.name,
            old(engine.definitions[updated.name].fields),
            Upgraded(old(engine.definitions[updated.name]), updated).fields))
    ensures !persisted && old(engine.Valid()) ==>
        PutBackHolds(engine.fm, engine.Table(), old(engine.definitions[updated.name]), updated, order, engine.Db())
  {
    var original := engine.definitions[updated.name];
    ok, order := CommitUpdate(engine, updated, changed);
    if !persisted {
      PutTwice(old(engine.definitions), updated.name, engine.definitions[updated.name], original);
      PutSame(old(engine.definitions), updated.name);
      assert original.name == updated.name;
      ghost var back := PutBack(engine.Db(), original);
      engine.definitions := engine.definitions[updated.name := original];
      assert engine.Db() == back;
    }
  }

  /**
   * UpdateEntityType; persisted says whether the persistence layer takes the new definition. After a successful update
   * every id list is exact, and the unique indexes are right exactly if the order in which the entities were walked
   * moved their keys apart. When the definition is not taken, only it is put back: the id lists are exact then exactly
   * if no field that lost its index has a value, and the unique indexes exactly if no field that lost its own has one
   * and the walk moved the keys of the others apart.
   */
  method UpdateEntityType(engine: Engine, updated: EntityDefinition, persisted: bool)
      returns (o: Outcome, ghost order: seq<Entity>)
    requires engine.ListsExact() && DistinctNames(updated.fields)
    modifies engine
    ensures var (t, due) := UpdateType(engine.fm, old(engine.Table()), updated);
            && o == (if due == Done && !persisted then Failed(PersistenceFailed) else due)
            && engine.entities == t.entities
            && engine.definitions == if o == Done then t.definitions else old(engine.definitions)
    ensures o == Done ==> engine.ListsExact()
    ensures o == Done || o == Failed(PersistenceFailed) ==> ListsType(old(engine.Db()), updated.name, order)
    ensures o == Done && old(engine.Valid()) ==>
      (engine.Valid() <==> WalkKeepsUniques(engine.fm, old(engine.definitions)[updated.name].fields, updated.fields,
          order))
    ensures o == Done && old(engine.Valid()) && old(KeysStayApart(engine.fm, engine.Table(), updated.name,
        engine.definitions[updated.name].fields, updated.fields))
            ==> engine.Valid()
    ensures o.Failed? && o.error != PersistenceFailed ==> engine.Db() == old(engine.Db())
    ensures o == Failed(PersistenceFailed) ==>
        (engine.ListsExact() <==> !DropsList(engine.fm, engine.entities, updated.name,
            old(engine.definitions)[updated.name].fields,
            Upgraded(old(engine.definitions)[updated.name], updated).fields))
    ensures o == Failed(PersistenceFailed) && old(engine.Valid()) ==>
        PutBackHolds(engine.fm, engine.Table(), old(engine.definitions)[updated.name], updated, order, engine.Db())
  {
    order := [];
    if updated.name !in engine.definitions { return Failed(EntityTypeNotFound), order; }
    ghost var db := engine.Db();
    var original := engine.definitions[updated.name];
    var allowed := engine.ValidateEntityTypeFields(updated.fields, true);
    if !allowed { return Failed(ValidationFailed), order; }
    var clean := CheckNewUniques(engine, original, updated);
    if !clean { return Failed(UniqueViolation), order; }
    var plan := CreatePlan(original.fields, updated.fields);
    if plan.None? { return Failed(IncompatibleSchema), order; }
    UpdateTypeAccepted(engine.fm, engine.Table(), updated);
    if engine.Valid() { EveryWalkKeysIff(engine.fm, db, updated.name, updated.fields); }
    var migrated;
    migrated, order := CommitAndPersist(engine, updated, plan.value.changed, persisted);
    if !migrated { return Failed(ValidationFailed), order; }
    return if persisted then Done else Failed(PersistenceFailed), order;
  }
}
