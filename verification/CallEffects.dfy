/** What each call on the store answers and leaves, field by field and value by value. */
module CallEffects {
  import opened Common
  import opened Keys
  import opened IdFormats
  import opened Validation
  import opened Store
  import opened Agreement
  import opened Tables
  import opened Schema
  import opened EqualValues

  // ---------- data that fits ----------

  ghost predicate BeginsWithUnderscore(name: string) { exists rest :: name == "_" + rest }

  /** Reserved names only where marked internal; null only where allowed, and else a value of the field's type. */
  ghost predicate Fits(fm: Formats, def: EntityDefinition, fields: Fields) {
    && (forall name :: name in fields && BeginsWithUnderscore(name) ==>
          exists f :: f in def.fields && f.name == name && f.internal)
    && (forall f :: f in def.fields && f.name in fields ==>
          if fields[f.name].Null? then f.nullable else f.typ in TypesOf(fm, fields[f.name]))
  }

  ghost predicate Complete(def: EntityDefinition, fields: Fields) {
    forall f :: f in def.fields && f.required ==> f.name in fields
  }

  ghost predicate Declared(def: EntityDefinition, fields: Fields) {
    forall name :: name in fields ==> exists f :: f in def.fields && f.name == name
  }

  lemma ReservedIff(name: string)
    ensures Reserved(name) <==> BeginsWithUnderscore(name)
  {
    if Reserved(name) { assert name == "_" + name[1..]; }
  }

  lemma FitsIff(fm: Formats, def: EntityDefinition, fields: Fields)
    ensures EntityDataOk(fm, def, fields) <==> Fits(fm, def, fields) && Complete(def, fields)
    ensures UpdateDataOk(fm, def, fields) <==> Fits(fm, def, fields) && Declared(def, fields)
  {
    forall name ensures Reserved(name) <==> BeginsWithUnderscore(name) { ReservedIff(name); }
    forall typ, v ensures TypeAccepts(fm, typ, v) <==> typ in TypesOf(fm, v) { TypesOfAccept(fm, typ, v); }
  }

  // ---------- insert ----------

  /** The data with the times of creation and change: what an insert stores. */
  predicate Dated(data: Fields, now: int, fields: Fields) {
    && fields.Keys == data.Keys + {"_created_at", "_updated_at"}
    && fields["_updated_at"] == Time(now)
    && fields["_created_at"] == (if "_created_at" in data then data["_created_at"] else Time(now))
    && forall name :: name in data && name != "_updated_at" ==> fields[name] == data[name]
  }

  ghost predicate InStore(t: Table, typ: string, id: string) {
    exists key :: key in t.entities && t.entities[key].typ == typ && t.entities[key].id == id
  }

  lemma InStoreIff(t: Table, typ: string, id: string)
    requires WellFormed(t) && NoColon(typ)
    ensures InStore(t, typ, id) <==> CreateKey(typ, id) in t.entities
  {
    if CreateKey(typ, id) in t.entities { StoredUnderKey(Db(t.definitions, t.entities, map[], map[]), typ, id); }
  }

  lemma DatedIsStamped(data: Fields, now: int, fields: Fields)
    ensures Dated(data, now, fields) <==> fields == Stamped(data, now)
  {
  }

  /** Which error an insert answers, in the order of its checks. */
  lemma InsertOutcome(fm: Formats, t: Table, typ: string, id: string, data: Fields, now: int, fields: Fields)
    requires WellFormed(t) && Dated(data, now, fields)
    ensures Insert(fm, t, typ, id, data, now).1 ==
            if typ !in t.definitions then Failed(EntityTypeNotFound)
            else if !ValidId(t.definitions[typ].idGenerator, id) then Failed(InvalidId)
            else if !(Fits(fm, t.definitions[typ], fields) && Complete(t.definitions[typ], fields))
              then Failed(ValidationFailed)
            else if SomeHeldByOther(fm, t, typ, fields, "") then Failed(UniqueViolation)
            else if InStore(t, typ, id) then Failed(AlreadyExists)
            else Done
  {
    DatedIsStamped(data, now, fields);
    if typ in t.definitions {
      FitsIff(fm, t.definitions[typ], fields);
      ClashesIff(fm, t, typ, fields, "");
      InStoreIff(t, typ, id);
    }
  }

  /** A successful insert adds the one entity with the dated data; a failed one changes nothing. */
  lemma InsertStores(fm: Formats, t: Table, typ: string, id: string, data: Fields, now: int, fields: Fields)
    requires WellFormed(t) && Dated(data, now, fields)
    ensures var (t', o) := Insert(fm, t, typ, id, data, now);
            && t'.definitions == t.definitions
            && (forall e :: e in t'.entities.Values <==>
                  e in t.entities.Values || (o == Done && e == Entity(id, typ, fields)))
            && (o != Done ==> t' == t)
  {
    DatedIsStamped(data, now, fields);
    var (t', o) := Insert(fm, t, typ, id, data, now);
    if o == Done {
      var key := CreateKey(typ, id);
      assert t'.entities[key] == Entity(id, typ, fields) && key !in t.entities;
      forall e ensures e in t'.entities.Values <==> e in t.entities.Values || e == Entity(id, typ, fields) {
        if e in t.entities.Values {
          var k :| k in t.entities && t.entities[k] == e;
          assert t'.entities[k] == e;
        }
      }
    }
  }

  // ---------- update ----------

  /** What an update checks: the data without a creation time, with the time of change. */
  predicate Changing(data: Fields, now: int, changes: Fields) {
    && changes.Keys == data.Keys + {"_updated_at"} - {"_created_at"}
    && changes["_updated_at"] == Time(now)
    && forall name :: name in data && name != "_updated_at" && name != "_created_at" ==> changes[name] == data[name]
  }

  /** Old fields with some changed: the creation time is as it was, the rest as the data says or as it was. */
  predicate Changed(prior: Fields, data: Fields, now: int, fields: Fields) {
    && fields.Keys == prior.Keys + (data.Keys - {"_created_at"}) + {"_updated_at"}
    && fields["_updated_at"] == Time(now)
    && ("_created_at" in prior ==> fields["_created_at"] == prior["_created_at"])
    && (forall name :: name in data && name != "_updated_at" && name != "_created_at" ==> fields[name] == data[name])
    && (forall name :: name in prior && name !in data && name != "_updated_at" ==> fields[name] == prior[name])
  }

  lemma ChangingIsRestamped(data: Fields, now: int, changes: Fields)
    ensures Changing(data, now, changes) <==> changes == Restamped(data, now)
  {
  }

  lemma ChangedIsOverlaid(prior: Fields, data: Fields, now: int, fields: Fields)
    ensures Changed(prior, data, now, fields) <==> fields == prior + Restamped(data, now)
  {
  }

  /** Which error an update answers. Unique keys are checked of the entity as it would be afterwards. */
  lemma UpdateOutcome(fm: Formats, t: Table, typ: string, id: string, data: Fields, now: int, changes: Fields,
      e: Entity, fields: Fields)
    requires WellFormed(t) && NoColon(typ) && Changing(data, now, changes)
    requires InStore(t, typ, id) ==> e in t.entities.Values && e.typ == typ && e.id == id
    requires InStore(t, typ, id) ==> Changed(e.fields, data, now, fields)
    ensures Update(fm, t, typ, id, data, now).1 ==
            if !InStore(t, typ, id) then Failed(NotFound)
            else if !(typ in t.definitions && Fits(fm, t.definitions[typ], changes)
                && Declared(t.definitions[typ], changes)) then Failed(ValidationFailed)
            else if SomeHeldByOther(fm, t, typ, fields, id) then Failed(UniqueViolation)
            else Done
  {
    InStoreIff(t, typ, id);
    ChangingIsRestamped(data, now, changes);
    if InStore(t, typ, id) {
      StoredUnderKey(Db(t.definitions, t.entities, map[], map[]), typ, id);
      ChangedIsOverlaid(e.fields, data, now, fields);
      FitsIff(fm, t.definitions[typ], changes);
      ClashesIff(fm, t, typ, fields, id);
    }
  }

  /** A successful update replaces the one entity; a failed one changes nothing. */
  lemma UpdateStores(fm: Formats, t: Table, typ: string, id: string, data: Fields, now: int, e: Entity, fields: Fields)
    requires WellFormed(t) && NoColon(typ) && e in t.entities.Values && e.typ == typ && e.id == id
    requires Changed(e.fields, data, now, fields)
    ensures var (t', o) := Update(fm, t, typ, id, data, now);
            && t'.definitions == t.definitions
            && (o == Done ==> forall x :: x in t'.entities.Values <==>
                  (x in t.entities.Values && x != e) || x == Entity(id, typ, fields))
            && (o != Done ==> t' == t)
  {
    ChangedIsOverlaid(e.fields, data, now, fields);
    var (t', o) := Update(fm, t, typ, id, data, now);
    if o == Done { ReplacedValues(t.entities, t'.entities, CreateKey(typ, id), Entity(id, typ, fields)); }
  }

  lemma ReplacedValues(before: map<string, Entity>, after: map<string, Entity>, key: string, e: Entity)
    requires key in before && after == before[key := e]
    requires forall k :: k in before ==> k == CreateKey(before[k].typ, before[k].id)
    ensures forall x :: x in after.Values <==> (x in before.Values && x != before[key]) || x == e
  {
    forall x ensures x in after.Values <==> (x in before.Values && x != before[key]) || x == e {
      if x in before.Values && x != before[key] {
        var k :| k in before && before[k] == x;
        assert after[k] == x;
      }
      assert after[key] == e;
    }
  }

  // ---------- delete and truncate ----------

  lemma DroppedValues(before: map<string, Entity>, after: map<string, Entity>, gone: Entity -> bool)
    requires forall k :: k in after <==> k in before && !gone(before[k])
    requires forall k :: k in after ==> after[k] == before[k]
    ensures forall x :: x in after.Values <==> x in before.Values && !gone(x)
  {
    forall x | x in before.Values && !gone(x) ensures x in after.Values {
      var k :| k in before && before[k] == x;
      assert after[k] == x;
    }
  }

  /** A delete takes out exactly the entity with the type and id, or finds none. */
  lemma DeleteEffect(t: Table, typ: string, id: string)
    requires WellFormed(t) && NoColon(typ)
    ensures var (t', o) := Delete(t, typ, id);
            && o == (if InStore(t, typ, id) then Done else Failed(NotFound))
            && t'.definitions == t.definitions
            && forall x :: x in t'.entities.Values <==> x in t.entities.Values && !(x.typ == typ && x.id == id)
  {
    InStoreIff(t, typ, id);
    var (t', o) := Delete(t, typ, id);
    StoredUnderKey(Db(t.definitions, t.entities, map[], map[]), typ, id);
    DroppedValues(t.entities, t'.entities, (x: Entity) => x.typ == typ && x.id == id);
  }

  /** A truncate takes out exactly the entities of the type; one of the whole database, all of them. */
  lemma TruncateEffect(t: Table, typ: string)
    ensures var (t', o) := TruncateType(t, typ);
            && o == (if typ in t.definitions then Done else Failed(EntityTypeNotFound))
            && t'.definitions == t.definitions
            && forall x :: x in t'.entities.Values <==> x in t.entities.Values && !(o == Done && x.typ == typ)
    ensures TruncateDatabase(t) == (Table(t.definitions, map[]), Done)
  {
    if typ in t.definitions {
      DroppedValues(t.entities, TruncateType(t, typ).0.entities, (x: Entity) => x.typ == typ);
    }
  }

  // ---------- register ----------

  predicate Names(fields: seq<FieldDefinition>, name: string) { exists f :: f in fields && f.name == name }

  /** The stored fields: those given, in order, then the engine's own times unless they are among them. */
  ghost predicate StoredFields(given: seq<FieldDefinition>, stored: seq<FieldDefinition>) {
    && given <= stored
    && (forall f :: f in stored[|given|..] ==>
          f == FieldDefinition(f.name, TDateTime, true, true, false, true, false)
          && (f.name == "_created_at" || f.name == "_updated_at"))
    && Names(stored, "_created_at") && Names(stored, "_updated_at")
    && (DistinctNames(given) ==> DistinctNames(stored))
  }

  lemma CompletionStores(given: seq<FieldDefinition>)
    ensures StoredFields(given, WithInternalFields(given))
  {
    HasOwnTime(given, "_created_at");
    HasOwnTime(given, "_updated_at");
  }

  lemma HasOwnTime(given: seq<FieldDefinition>, name: string)
    requires name == CREATED_AT || name == UPDATED_AT
    ensures Names(WithInternalFields(given), name)
  {
    if HasField(given, name) {
      var f :| f in given && f.name == name;
      assert f in WithInternalFields(given);
    } else {
      assert InternalDefinition(name) in WithInternalFields(given);
    }
  }

  /** A registration adds the definition with the times and, if none is given, the counting id generator. */
  lemma RegisterEffect(t: Table, def: EntityDefinition)
    ensures var (t', o) := Register(t, def);
            && o == (if def.name in t.definitions then Failed(EntityTypeExists) else Done)
            && t'.entities == t.entities && (o != Done ==> t' == t)
            && (o == Done ==>
                  && t'.definitions.Keys == t.definitions.Keys + {def.name}
                  && (forall name :: name in t.definitions ==> t'.definitions[name] == t.definitions[name])
                  && var stored := t'.definitions[def.name];
                     && stored.name == def.name && StoredFields(def.fields, stored.fields)
                     && stored.idGenerator == if def.idGenerator == Unspecified then AutoIncrement else def.idGenerator)
  {
    CompletionStores(def.fields);
  }

  // ---------- schema updates ----------

  /** The type changes a schema update allows. */
  predicate Widens(from: FieldType, to: FieldType) {
    (from, to) in {(TInteger, TFloat), (TString, TText), (TDate, TDateTime)}
  }

  /** Every field kept by name keeps its type or widens it, and is not newly required. */
  ghost predicate Follows(original: seq<FieldDefinition>, updated: seq<FieldDefinition>) {
    forall f, g :: f in original && g in updated && f.name == g.name ==>
      (f.typ == g.typ || Widens(f.typ, g.typ)) && (g.required ==> f.required)
  }

  /** Two entities of the type hold equal values in the field. */
  ghost predicate SharedValue(fm: Formats, t: Table, typ: string, name: string, k1: string, k2: string) {
    && k1 in t.entities && k2 in t.entities && k1 != k2
    && t.entities[k1].typ == typ && t.entities[k2].typ == typ
    && Filled(t.entities[k1].fields, name) && Filled(t.entities[k2].fields, name)
    && Equal(fm, fm.floatG, t.entities[k1].fields[name], t.entities[k2].fields[name])
  }

  ghost predicate SomeShared(fm: Formats, t: Table, typ: string, name: string) {
    exists k1, k2 :: SharedValue(fm, t, typ, name, k1, k2)
  }

  lemma DuplicatedIff(fm: Formats, t: Table, typ: string, name: string)
    ensures Duplicated(fm, t, typ, name) <==> SomeShared(fm, t, typ, name)
  {
    forall k1, k2 | k1 in t.entities && k2 in t.entities && k1 != k2
      ensures Shares(fm, t, typ, name, k1, k2) <==> SharedValue(fm, t, typ, name, k1, k2)
    {
      if Filled(t.entities[k1].fields, name) && Filled(t.entities[k2].fields, name) {
        UniqueKeysEqualIff(fm, t.entities[k1].fields[name], t.entities[k2].fields[name]);
      }
    }
  }

  /** Which error a schema update answers. */
  lemma UpdateTypeOutcome(fm: Formats, t: Table, updated: EntityDefinition)
    ensures UpdateType(fm, t, updated).1 ==
            if updated.name !in t.definitions then Failed(EntityTypeNotFound)
            else
              var original := t.definitions[updated.name].fields;
              if exists g :: g in updated.fields && g.unique && SomeShared(fm, t, updated.name, g.name)
                  && forall f :: f in original && f.name == g.name ==> !f.unique then Failed(UniqueViolation)
              else if !Follows(original, updated.fields) then Failed(IncompatibleSchema)
              else Done
  {
    forall name ensures Duplicated(fm, t, updated.name, name) <==> SomeShared(fm, t, updated.name, name) {
      DuplicatedIff(fm, t, updated.name, name);
    }
  }

  /** What a value becomes when its field goes from one type to another. */
  predicate Becomes(from: FieldType, to: FieldType, before: Value, after: Value) {
    if from == TInteger && to == TFloat && before.Whole? && before.kind in {Int, Int32, Int64}
    then after == Float64(before.n as real)
    else after == before
  }

  /** A field that both definitions have becomes what its change of type says; every other stays as it was. */
  ghost predicate FieldsMove(original: seq<FieldDefinition>, updated: seq<FieldDefinition>, before: Fields,
      after: Fields) {
    && after.Keys == before.Keys
    && (forall f, g :: f in original && g in updated && f.name == g.name && g.name in before ==>
          Becomes(f.typ, g.typ, before[g.name], after[g.name]))
    && forall name :: name in before && (!Names(original, name) || !Names(updated, name)) ==>
         after[name] == before[name]
  }

  lemma ConvertedMove(original: seq<FieldDefinition>, updated: seq<FieldDefinition>, fields: Fields)
    requires DistinctNames(original) && DistinctNames(updated) && Accepts(original, updated)
    ensures FieldsMove(original, updated, fields, Converted(original, updated, fields))
  {
    var after := Converted(original, updated, fields);
    forall f, g | f in original && g in updated && f.name == g.name && g.name in fields
      ensures Becomes(f.typ, g.typ, fields[g.name], after[g.name])
    {
      FindOwn(original, f);
      FindOwn(updated, g);
    }
    forall name | name in fields && (!Names(original, name) || !Names(updated, name))
      ensures after[name] == fields[name]
    {
      UnchangedValue(original, updated, name, fields[name]);
    }
  }

  /** An accepted schema update keeps every entity with its id and type, and moves the fields of those of the type. */
  lemma UpdateTypeStores(fm: Formats, t: Table, updated: EntityDefinition)
    requires WellFormed(t) && DistinctNames(updated.fields) && UpdateType(fm, t, updated).1 == Done
    ensures var (original, t') := (t.definitions[updated.name].fields, UpdateType(fm, t, updated).0);
            && t'.entities.Keys == t.entities.Keys
            && forall key :: key in t.entities ==>
                 && t'.entities[key].id == t.entities[key].id && t'.entities[key].typ == t.entities[key].typ
                 && if t.entities[key].typ == updated.name
                    then FieldsMove(original, updated.fields, t.entities[key].fields, t'.entities[key].fields)
                    else t'.entities[key] == t.entities[key]
  {
    forall key | key in t.entities && t.entities[key].typ == updated.name
      ensures FieldsMove(t.definitions[updated.name].fields, updated.fields, t.entities[key].fields,
                  UpdateType(fm, t, updated).0.entities[key].fields)
    {
      ConvertedMove(t.definitions[updated.name].fields, updated.fields, t.entities[key].fields);
    }
  }

  /** And of the definitions exactly the updated one changes: its fields, not its id generator. */
  lemma UpdateTypeDefines(fm: Formats, t: Table, updated: EntityDefinition)
    requires WellFormed(t) && UpdateType(fm, t, updated).1 == Done
    ensures var t' := UpdateType(fm, t, updated).0;
            && t'.definitions.Keys == t.definitions.Keys
            && (forall name :: name in t.definitions && name != updated.name ==>
                  t'.definitions[name] == t.definitions[name])
            && var stored := t'.definitions[updated.name];
               && stored.name == updated.name && StoredFields(updated.fields, stored.fields)
               && stored.idGenerator == t.definitions[updated.name].idGenerator
  {
    CompletionStores(updated.fields);
  }
}
