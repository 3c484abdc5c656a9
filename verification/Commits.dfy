/** The steps the engine takes under its write lock, and why each keeps the indexes exact. */
module Commits {
  import opened Common
  import opened Keys
  import opened Validation
  import opened Store
  import opened Agreement
  import opened Tables

  /** Storing an entity keeps the id lists exact whatever unique keys it takes. */
  lemma AttachKeepsLists(fm: Formats, db: Db, e: Entity)
    requires ListsExact(fm, db) && e.typ in db.definitions && e.id != "" && KeyOf(e) !in db.entities
    ensures ListsExact(fm, Attach(fm, db, e))
  {
    AttachIndexAgrees(fm, db, e);
  }

  /** So does dropping one, whoever the unique index takes for the owner of its keys. */
  lemma DetachKeepsLists(fm: Formats, db: Db, e: Entity)
    requires ListsExact(fm, db) && KeyOf(e) in db.entities && db.entities[KeyOf(e)] == e
    ensures ListsExact(fm, Detach(fm, db, e))
  {
    DetachIndexAgrees(fm, db, e);
  }

  /** Swaps one stored entity for another with the same type and id. */
  function Replace(fm: Formats, db: Db, e: Entity, e': Entity): (r: Db)
    requires e.typ in db.definitions && e.typ in db.indices && e.typ in db.uniqueIndices && e'.typ == e.typ
    ensures r.definitions == db.definitions && r.indices.Keys == db.indices.Keys
        && r.uniqueIndices.Keys == db.uniqueIndices.Keys
  {
    Attach(fm, Detach(fm, db, e), e')
  }

  lemma ReplaceKeepsValid(fm: Formats, db: Db, e: Entity, e': Entity)
    requires Valid(fm, db) && KeyOf(e) in db.entities && db.entities[KeyOf(e)] == e
    requires e'.typ == e.typ && e'.id == e.id
    requires !Clashes(fm, db.definitions[e.typ], db.entities, e'.fields, e.id)
    ensures Valid(fm, Replace(fm, db, e, e'))
    ensures View(Replace(fm, db, e, e')) == View(db).(entities := db.entities[KeyOf(e) := e'])
  {
    DetachKeepsValid(fm, db, e);
    var without := Detach(fm, db, e);
    FewerClashes(fm, db.definitions[e.typ], db.entities, without.entities, e'.fields, e.id);
    AttachKeepsValid(fm, without, e');
    RemoveThenPut(db.entities, KeyOf(e), e');
  }

  lemma ReplaceStructured(fm: Formats, db: Db, e: Entity, e': Entity)
    requires Structured(db) && KeyOf(e) in db.entities && db.entities[KeyOf(e)] == e
    requires e'.typ == e.typ && e'.id == e.id
    ensures Structured(Detach(fm, db, e)) && Structured(Replace(fm, db, e, e'))
    ensures View(Replace(fm, db, e, e')) == View(db).(entities := db.entities[KeyOf(e) := e'])
  {
    RemoveThenPut(db.entities, KeyOf(e), e');
  }

  /** The id lists stay exact even when the new entity takes another's unique key. */
  lemma ReplaceKeepsLists(fm: Formats, db: Db, e: Entity, e': Entity)
    requires ListsExact(fm, db) && KeyOf(e) in db.entities && db.entities[KeyOf(e)] == e
    requires e'.typ == e.typ && e'.id == e.id
    ensures ListsExact(fm, Replace(fm, db, e, e'))
  {
    ReplaceStructured(fm, db, e, e');
    DetachIndexAgrees(fm, db, e);
    AttachIndexAgrees(fm, Detach(fm, db, e), e');
  }

  /**
   * The replaced entity gives up its old unique key and takes the new one, whoever had it; no other key changes hands.
   */
  lemma ReplaceOwner(fm: Formats, db: Db, e: Entity, e': Entity, f: FieldDefinition, key: string)
    requires Structured(db) && e.typ in db.definitions && e'.typ == e.typ && e'.id == e.id
    requires f in db.definitions[e.typ].fields && f.unique
    ensures Owner(Replace(fm, db, e, e').uniqueIndices[e.typ], f.name, key) ==
            if UniqueKey(fm, e'.fields, f.name) == Some(key) then Some(e.id)
            else if UniqueKey(fm, e.fields, f.name) == Some(key) then None
            else Owner(db.uniqueIndices[e.typ], f.name, key)
  {
    var fields := db.definitions[e.typ].fields;
    UniqueFieldsAt(fm, db.uniqueIndices[e.typ], fields, e, false, f.name, key);
    UniqueFieldsAt(fm, Detach(fm, db, e).uniqueIndices[e.typ], fields, e', true, f.name, key);
  }

  lemma FewerClashes(fm: Formats, def: EntityDefinition, entities: map<string, Entity>, fewer: map<string, Entity>,
      data: Fields, id: string)
    requires fewer.Keys <= entities.Keys && forall k :: k in fewer ==> fewer[k] == entities[k]
    requires !Clashes(fm, def, entities, data, id)
    ensures !Clashes(fm, def, fewer, data, id)
  {
  }

  // ---------- truncation ----------

  /** Drops the given entities one after another. */
  function DetachAll(fm: Formats, db: Db, es: seq<Entity>): Db
    requires forall e :: e in es ==> e.typ in db.definitions && e.typ in db.indices && e.typ in db.uniqueIndices
    ensures DetachAll(fm, db, es).definitions == db.definitions
    ensures DetachAll(fm, db, es).indices.Keys == db.indices.Keys
    ensures DetachAll(fm, db, es).uniqueIndices.Keys == db.uniqueIndices.Keys
  {
    if es == [] then db else Detach(fm, DetachAll(fm, db, es[..|es| - 1]), es[|es| - 1])
  }

  /** Some order of all the entities of a type. */
  ghost predicate ListsType(db: Db, typ: string, es: seq<Entity>) {
    && Distinct(es)
    && forall e :: e in es <==> KeyOf(e) in db.entities && db.entities[KeyOf(e)] == e && e.typ == typ
  }

  lemma {:induction false} DetachAllKeepsValid(fm: Formats, db: Db, es: seq<Entity>)
    requires Valid(fm, db) && Distinct(es)
    requires forall e :: e in es ==> KeyOf(e) in db.entities && db.entities[KeyOf(e)] == e
    ensures Valid(fm, DetachAll(fm, db, es))
    ensures DetachAll(fm, db, es).entities == Without(db.entities, es)
  {
    if es == [] {
      assert Without(db.entities, es) == db.entities;
    } else {
      var front, e := es[..|es| - 1], es[|es| - 1];
      SplitLast(es);
      DetachAllKeepsValid(fm, db, front);
      WithoutStep(db.entities, front, e);
      DetachKeepsValid(fm, DetachAll(fm, db, front), e);
    }
  }

  function Without(entities: map<string, Entity>, es: seq<Entity>): map<string, Entity> {
    map key | key in entities && entities[key] !in es :: entities[key]
  }

  lemma WithoutStep(entities: map<string, Entity>, front: seq<Entity>, e: Entity)
    requires forall key :: key in entities ==> key == KeyOf(entities[key])
    requires KeyOf(e) in entities && entities[KeyOf(e)] == e
    ensures Without(entities, front + [e]) == Without(entities, front) - {KeyOf(e)}
    ensures e !in front ==> KeyOf(e) in Without(entities, front) && Without(entities, front)[KeyOf(e)] == e
  {
  }

  /** Truncating a type, in any order, leaves exactly the entities of the other types. */
  lemma TruncateKeepsValid(fm: Formats, db: Db, typ: string, es: seq<Entity>)
    requires Valid(fm, db) && typ in db.definitions && ListsType(db, typ, es)
    ensures Valid(fm, DetachAll(fm, db, es))
    ensures View(DetachAll(fm, db, es)) == TruncateType(View(db), typ).0
  {
    DetachAllKeepsValid(fm, db, es);
    WithoutType(db, typ, es);
  }

  lemma WithoutType(db: Db, typ: string, es: seq<Entity>)
    requires WellKeyed(db.definitions, db.entities) && typ in db.definitions && ListsType(db, typ, es)
    ensures Without(db.entities, es) == TruncateType(View(db), typ).0.entities
  {
    assert forall key :: key in db.entities ==> (db.entities[key] in es <==> db.entities[key].typ == typ);
  }

  function EmptyIndex(def: EntityDefinition): TypeIndex {
    map f | f in def.fields && f.indexed :: f.name := map[]
  }

  function EmptyUnique(def: EntityDefinition): TypeUnique {
    map f | f in def.fields && f.unique :: f.name := map[]
  }

  /** TruncateDatabase: no entities, and every index structure reset. */
  function Cleared(db: Db): Db {
    Db(db.definitions, map[],
       map typ | typ in db.indices :: if typ in db.definitions then EmptyIndex(db.definitions[typ]) else map[],
       map typ | typ in db.uniqueIndices :: if typ in db.definitions then EmptyUnique(db.definitions[typ]) else map[])
  }

  /** Whatever was in the index structures, the fresh ones agree with the empty store. */
  lemma ClearedIsValid(fm: Formats, db: Db)
    requires Structured(db)
    ensures Valid(fm, Cleared(db))
  {
  }
}
