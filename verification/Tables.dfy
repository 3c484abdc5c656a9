/** The reference store: definitions and entities only, every check a scan. The engine is proved to refine it. */
module Tables {
  import opened Common
  import opened Keys
  import opened IdFormats
  import opened Validation
  import opened Store
  import opened Agreement

  datatype Table = Table(definitions: map<string, EntityDefinition>, entities: map<string, Entity>)

  const EMPTY_TABLE := Table(map[], map[])

  function View(db: Db): Table { Table(db.definitions, db.entities) }

  predicate WellFormed(t: Table) { WellKeyed(t.definitions, t.entities) }

  // ---------- definitions ----------

  function InternalDefinition(name: string): FieldDefinition {
    FieldDefinition(name, TDateTime, true, true, false, true, false)
  }

  predicate HasField(fields: seq<FieldDefinition>, name: string) {
    exists f :: f in fields && f.name == name
  }

  /** addInternalFieldDefinitions. */
  function WithInternalFields(fields: seq<FieldDefinition>): seq<FieldDefinition> {
    fields
    + (if HasField(fields, CREATED_AT) then [] else [InternalDefinition(CREATED_AT)])
    + (if HasField(fields, UPDATED_AT) then [] else [InternalDefinition(UPDATED_AT)])
  }

  /** The definition RegisterEntityType stores. */
  function Completed(def: EntityDefinition): EntityDefinition {
    EntityDefinition(def.name, WithInternalFields(def.fields),
                     if def.idGenerator == Unspecified then AutoIncrement else def.idGenerator)
  }

  /** What the engine asks of a definition: no colon in the name, no field named twice. */
  predicate Registrable(def: EntityDefinition) {
    NoColon(def.name) && DistinctNames(def.fields)
  }

  lemma CompletedDistinct(def: EntityDefinition)
    requires DistinctNames(def.fields)
    ensures DistinctNames(Completed(def).fields)
  {
  }

  function Register(t: Table, def: EntityDefinition): (Table, Outcome) {
    if def.name in t.definitions then (t, Failed(EntityTypeExists))
    else (t.(definitions := t.definitions[def.name := Completed(def)]), Done)
  }

  // ---------- entities ----------

  /** addInternalFields. */
  function Stamped(data: Fields, now: int): Fields {
    (if CREATED_AT in data then data else data[CREATED_AT := Time(now)])[UPDATED_AT := Time(now)]
  }

  /** Update replaces _updated_at and refuses to touch _created_at. */
  function Restamped(data: Fields, now: int): Fields {
    data[UPDATED_AT := Time(now)] - {CREATED_AT}
  }

  function InsertError(fm: Formats, t: Table, typ: string, id: string, data: Fields): Option<Error> {
    if typ !in t.definitions then Some(EntityTypeNotFound)
    else if !ValidId(t.definitions[typ].idGenerator, id) then Some(InvalidId)
    else if !EntityDataOk(fm, t.definitions[typ], data) then Some(ValidationFailed)
    else if Clashes(fm, t.definitions[typ], t.entities, data, "") then Some(UniqueViolation)
    else if CreateKey(typ, id) in t.entities then Some(AlreadyExists)
    else None
  }

  function Insert(fm: Formats, t: Table, typ: string, id: string, data: Fields, now: int): (Table, Outcome) {
    match InsertError(fm, t, typ, id, Stamped(data, now))
    case Some(error) => (t, Failed(error))
    case None => (t.(entities := t.entities[CreateKey(typ, id) := Entity(id, typ, Stamped(data, now))]), Done)
  }

  function Updated(e: Entity, data: Fields): Entity { e.(fields := e.fields + data) }

  function UpdateError(fm: Formats, t: Table, typ: string, id: string, data: Fields): Option<Error> {
    if CreateKey(typ, id) !in t.entities then Some(NotFound)
    else if typ !in t.definitions then Some(ValidationFailed)
    else if !UpdateDataOk(fm, t.definitions[typ], data) then Some(ValidationFailed)
    else if Clashes(fm, t.definitions[typ], t.entities, t.entities[CreateKey(typ, id)].fields + data, id)
        then Some(UniqueViolation)
    else None
  }

  function Update(fm: Formats, t: Table, typ: string, id: string, data: Fields, now: int): (Table, Outcome) {
    match UpdateError(fm, t, typ, id, Restamped(data, now))
    case Some(error) => (t, Failed(error))
    case None =>
      var key := CreateKey(typ, id);
      (t.(entities := t.entities[key := Updated(t.entities[key], Restamped(data, now))]), Done)
  }

  function Delete(t: Table, typ: string, id: string): (Table, Outcome) {
    var key := CreateKey(typ, id);
    if key !in t.entities || t.entities[key].typ != typ || t.entities[key].id != id then (t, Failed(NotFound))
    else (t.(entities := t.entities - {key}), Done)
  }

  predicate OfType(entities: map<string, Entity>, key: string, typ: string) {
    key in entities && entities[key].typ == typ
  }

  function TruncateType(t: Table, typ: string): (Table, Outcome) {
    if typ !in t.definitions then (t, Failed(EntityTypeNotFound))
    else (t.(entities := map key | key in t.entities && t.entities[key].typ != typ :: t.entities[key]), Done)
  }

  function TruncateDatabase(t: Table): (Table, Outcome) {
    (t.(entities := map[]), Done)
  }

  // ---------- schema validity ----------

  /** The stored entity validates under its definition, and its id under its generator. */
  predicate EntityValid(fm: Formats, t: Table, key: string)
    requires key in t.entities && t.entities[key].typ in t.definitions
  {
    var def := t.definitions[t.entities[key].typ];
    EntityDataOk(fm, def, t.entities[key].fields) && ValidId(def.idGenerator, t.entities[key].id)
  }

  /** Two stored entities of one type share no unique key. */
  predicate KeysDiffer(fm: Formats, t: Table, k1: string, k2: string)
    requires k1 in t.entities && k2 in t.entities
  {
    t.entities[k1].typ == t.entities[k2].typ && t.entities[k1].typ in t.definitions ==>
      forall f ::
        f in t.definitions[t.entities[k1].typ].fields && f.unique
        && UniqueKey(fm, t.entities[k1].fields, f.name).Some? ==>
          UniqueKey(fm, t.entities[k1].fields, f.name) != UniqueKey(fm, t.entities[k2].fields, f.name)
  }

  /** Every stored entity still validates, and no two of a type hold the same unique key. */
  ghost predicate Sound(fm: Formats, t: Table) {
    && WellFormed(t)
    && (forall key {:trigger EntityValid(fm, t, key)} :: key in t.entities ==> EntityValid(fm, t, key))
    && (forall k1, k2 {:trigger KeysDiffer(fm, t, k1, k2)} ::
          k1 in t.entities && k2 in t.entities && k1 != k2 ==> KeysDiffer(fm, t, k1, k2))
  }

  /** Adding or replacing one entity keeps the store sound if it validates and takes no other entity's unique key. */
  lemma PutKeepsSound(fm: Formats, t: Table, e: Entity)
    requires Sound(fm, t) && e.typ in t.definitions && e.id != ""
    requires EntityDataOk(fm, t.definitions[e.typ], e.fields) && ValidId(t.definitions[e.typ].idGenerator, e.id)
    requires !Clashes(fm, t.definitions[e.typ], t.entities, e.fields, e.id)
    ensures Sound(fm, t.(entities := t.entities[KeyOf(e) := e]))
  {
    var t' := t.(entities := t.entities[KeyOf(e) := e]);
    forall key | key in t'.entities ensures EntityValid(fm, t', key) {
      assert key != KeyOf(e) ==> EntityValid(fm, t, key);
    }
    forall k1, k2 | k1 in t'.entities && k2 in t'.entities && k1 != k2 ensures KeysDiffer(fm, t', k1, k2) {
      if k1 != KeyOf(e) && k2 != KeyOf(e) {
        assert KeysDiffer(fm, t, k1, k2);
      }
    }
  }

  /** Dropping entities keeps the store sound. */
  lemma SubsetKeepsSound(fm: Formats, t: Table, t': Table)
    requires Sound(fm, t) && t'.definitions == t.definitions && t'.entities.Keys <= t.entities.Keys
    requires forall key :: key in t'.entities ==> t'.entities[key] == t.entities[key]
    ensures Sound(fm, t')
  {
    forall key | key in t'.entities ensures EntityValid(fm, t', key) {
      assert EntityValid(fm, t, key);
    }
    forall k1, k2 | k1 in t'.entities && k2 in t'.entities && k1 != k2 ensures KeysDiffer(fm, t', k1, k2) {
      assert KeysDiffer(fm, t, k1, k2);
    }
  }

  lemma ClashOnlyWithOthers(fm: Formats, def: EntityDefinition, entities: map<string, Entity>, data: Fields, id: string)
    requires !Clashes(fm, def, entities, data, "") && forall k :: k in entities ==> entities[k].id != ""
    ensures !Clashes(fm, def, entities, data, id)
  {
  }

  lemma InsertKeepsSound(fm: Formats, t: Table, typ: string, id: string, data: Fields, now: int)
    requires Sound(fm, t)
    ensures Sound(fm, Insert(fm, t, typ, id, data, now).0)
  {
    if InsertError(fm, t, typ, id, Stamped(data, now)).None? {
      ClashOnlyWithOthers(fm, t.definitions[typ], t.entities, Stamped(data, now), id);
      PutKeepsSound(fm, t, Entity(id, typ, Stamped(data, now)));
    }
  }

  lemma UpdateKeepsSound(fm: Formats, t: Table, typ: string, id: string, data: Fields, now: int)
    requires Sound(fm, t) && NoColon(typ)
    ensures Sound(fm, Update(fm, t, typ, id, data, now).0)
  {
    var key := CreateKey(typ, id);
    if UpdateError(fm, t, typ, id, Restamped(data, now)).None? {
      var e := t.entities[key];
      KeyInjective(typ, id, e.typ, e.id);
      assert EntityValid(fm, t, key);
      UpdateKeepsDataOk(fm, t.definitions[typ], e.fields, Restamped(data, now));
      PutKeepsSound(fm, t, Updated(e, Restamped(data, now)));
    }
  }

  lemma RemovalKeepsSound(fm: Formats, t: Table, typ: string, id: string)
    requires Sound(fm, t)
    ensures Sound(fm, Delete(t, typ, id).0) && Sound(fm, TruncateType(t, typ).0) && Sound(fm, TruncateDatabase(t).0)
  {
    SubsetKeepsSound(fm, t, Delete(t, typ, id).0);
    SubsetKeepsSound(fm, t, TruncateType(t, typ).0);
    SubsetKeepsSound(fm, t, TruncateDatabase(t).0);
  }

  lemma RegisterKeepsSound(fm: Formats, t: Table, def: EntityDefinition)
    requires Sound(fm, t) && Registrable(def)
    ensures Sound(fm, Register(t, def).0)
  {
    CompletedDistinct(def);
    var t' := Register(t, def).0;
    forall key | key in t'.entities ensures EntityValid(fm, t', key) {
      assert EntityValid(fm, t, key);
    }
    forall k1, k2 | k1 in t'.entities && k2 in t'.entities && k1 != k2 ensures KeysDiffer(fm, t', k1, k2) {
      assert KeysDiffer(fm, t, k1, k2);
    }
  }
}
