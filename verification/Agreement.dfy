/** The engine's main invariant: both index structures say exactly what a scan of the entities says. */
module Agreement {
  import opened Common
  import opened Keys
  import opened IdFormats
  import opened Validation
  import opened Store

  /** A scan finds entity (typ, id) with a non-null value of the field that renders as value. */
  predicate Carries(fm: Formats, entities: map<string, Entity>, typ: string, name: string, value: string, id: string) {
    CreateKey(typ, id) in entities && Rendered(fm, entities[CreateKey(typ, id)].fields, name) == Some(value)
  }

  predicate Owns(fm: Formats, entities: map<string, Entity>, typ: string, name: string, key: string, id: string) {
    CreateKey(typ, id) in entities && UniqueKey(fm, entities[CreateKey(typ, id)].fields, name) == Some(key)
  }

  /** The id list holds, without duplicates, exactly the entities a scan finds. */
  ghost predicate Lists(fm: Formats, entities: map<string, Entity>, ids: seq<string>, typ: string, name: string,
      value: string) {
    Distinct(ids) && forall id :: id in ids <==> Carries(fm, entities, typ, name, value, id)
  }

  ghost predicate ListedRight(fm: Formats, db: Db, typ: string, f: FieldDefinition, value: string)
    requires typ in db.indices
  {
    Lists(fm, db.entities, Ids(db.indices[typ], f.name, value), typ, f.name, value)
  }

  ghost predicate IndexAgrees(fm: Formats, db: Db) {
    forall typ, f, value {:trigger ListedRight(fm, db, typ, f, value)} ::
      typ in db.definitions && typ in db.indices && f in db.definitions[typ].fields && f.indexed ==>
        ListedRight(fm, db, typ, f, value)
  }

  /** The key has the one owner a scan finds, and no owner when the scan finds none. */
  ghost predicate OwnedRight(fm: Formats, db: Db, typ: string, f: FieldDefinition, key: string)
    requires typ in db.uniqueIndices
  {
    forall id :: Owner(db.uniqueIndices[typ], f.name, key) == Some(id) <==> Owns(fm, db.entities, typ, f.name, key, id)
  }

  ghost predicate UniqueAgrees(fm: Formats, db: Db) {
    forall typ, f, key {:trigger OwnedRight(fm, db, typ, f, key)} ::
      typ in db.definitions && typ in db.uniqueIndices && f in db.definitions[typ].fields && f.unique ==>
        OwnedRight(fm, db, typ, f, key)
  }

  predicate WellKeyed(definitions: map<string, EntityDefinition>, entities: map<string, Entity>) {
    && (forall typ :: typ in definitions ==>
        NoColon(typ) && definitions[typ].name == typ && DistinctNames(definitions[typ].fields))
    && (forall key :: key in entities ==>
          && key == CreateKey(entities[key].typ, entities[key].id)
          && entities[key].typ in definitions
          && entities[key].id != "")
  }

  /** Each entity sits under its own key, and each type has its two index structures, whatever is in them. */
  predicate Structured(db: Db) {
    && WellKeyed(db.definitions, db.entities)
    && db.indices.Keys == db.definitions.Keys
    && db.uniqueIndices.Keys == db.definitions.Keys
  }

  /** What not even a schema update can spoil: every id list is exact. */
  ghost predicate ListsExact(fm: Formats, db: Db) {
    Structured(db) && IndexAgrees(fm, db)
  }

  ghost predicate Valid(fm: Formats, db: Db) {
    ListsExact(fm, db) && UniqueAgrees(fm, db)
  }

  // ---------- storing and dropping one entity ----------

  function KeyOf(e: Entity): string { CreateKey(e.typ, e.id) }

  /** Stores e and adds it to both index structures. */
  function Attach(fm: Formats, db: Db, e: Entity): Db
    requires e.typ in db.definitions && e.typ in db.indices && e.typ in db.uniqueIndices
  {
    var fields := db.definitions[e.typ].fields;
    Db(db.definitions,
       db.entities[KeyOf(e) := e],
       db.indices[e.typ := IndexFields(fm, db.indices[e.typ], fields, e, true)],
       db.uniqueIndices[e.typ := UniqueFields(fm, db.uniqueIndices[e.typ], fields, e, true)])
  }

  /** Drops e and removes it from both index structures. */
  function Detach(fm: Formats, db: Db, e: Entity): Db
    requires e.typ in db.definitions && e.typ in db.indices && e.typ in db.uniqueIndices
  {
    var fields := db.definitions[e.typ].fields;
    Db(db.definitions,
       db.entities - {KeyOf(e)},
       db.indices[e.typ := IndexFields(fm, db.indices[e.typ], fields, e, false)],
       db.uniqueIndices[e.typ := UniqueFields(fm, db.uniqueIndices[e.typ], fields, e, false)])
  }

  /** Some other entity of the type already holds one of the unique keys in data. */
  predicate Clashes(fm: Formats, def: EntityDefinition, entities: map<string, Entity>, data: Fields, id: string) {
    exists f, k ::
      && f in def.fields && f.unique && k in entities
      && entities[k].typ == def.name && entities[k].id != id
      && UniqueKey(fm, data, f.name).Some?
      && UniqueKey(fm, data, f.name) == UniqueKey(fm, entities[k].fields, f.name)
  }

  /** An entity found under the key of (typ, id) has that type and id. */
  lemma StoredUnderKey(db: Db, typ: string, id: string)
    requires WellKeyed(db.definitions, db.entities) && NoColon(typ)
    ensures CreateKey(typ, id) in db.entities ==>
              db.entities[CreateKey(typ, id)].typ == typ && db.entities[CreateKey(typ, id)].id == id
  {
    if CreateKey(typ, id) in db.entities {
      var e := db.entities[CreateKey(typ, id)];
      KeyInjective(typ, id, e.typ, e.id);
    }
  }

  lemma AttachIndexAgrees(fm: Formats, db: Db, e: Entity)
    requires Structured(db) && IndexAgrees(fm, db) && e.typ in db.definitions && KeyOf(e) !in db.entities
    ensures IndexAgrees(fm, Attach(fm, db, e))
  {
    var db' := Attach(fm, db, e);
    forall typ, f: FieldDefinition, value | typ in db'.definitions && f in db'.definitions[typ].fields && f.indexed
      ensures ListedRight(fm, db', typ, f, value)
    {
      assert ListedRight(fm, db, typ, f, value);
      if typ == e.typ {
        IndexFieldsAt(fm, db.indices[typ], db.definitions[typ].fields, e, true, f.name, value);
      }
      forall id ensures Carries(fm, db'.entities, typ, f.name, value, id) <==>
          Carries(fm, db.entities, typ, f.name, value, id)
              || (typ == e.typ && id == e.id && Rendered(fm, e.fields, f.name) == Some(value))
      {
        if CreateKey(typ, id) == KeyOf(e) { KeyInjective(typ, id, e.typ, e.id); }
      }
      assert !Carries(fm, db.entities, e.typ, f.name, value, e.id);
    }
  }

  lemma AttachUniqueAgrees(fm: Formats, db: Db, e: Entity)
    requires Valid(fm, db) && e.typ in db.definitions && KeyOf(e) !in db.entities
    requires !Clashes(fm, db.definitions[e.typ], db.entities, e.fields, e.id)
    ensures UniqueAgrees(fm, Attach(fm, db, e))
  {
    var db' := Attach(fm, db, e);
    forall typ, f: FieldDefinition, key | typ in db'.definitions && f in db'.definitions[typ].fields && f.unique
      ensures OwnedRight(fm, db', typ, f, key)
    {
      assert OwnedRight(fm, db, typ, f, key);
      if typ == e.typ {
        UniqueFieldsAt(fm, db.uniqueIndices[typ], db.definitions[typ].fields, e, true, f.name, key);
      }
      forall id ensures Owner(db'.uniqueIndices[typ], f.name, key) == Some(id)
          <==> Owns(fm, db'.entities, typ, f.name, key, id)
      {
        if CreateKey(typ, id) == KeyOf(e) { KeyInjective(typ, id, e.typ, e.id); }
        StoredUnderKey(db, typ, id);
      }
    }
  }

  /** Storing an entity under a fresh key, with no unique key taken, keeps both index structures exact. */
  lemma AttachKeepsValid(fm: Formats, db: Db, e: Entity)
    requires Valid(fm, db) && e.typ in db.definitions && e.id != "" && KeyOf(e) !in db.entities
    requires !Clashes(fm, db.definitions[e.typ], db.entities, e.fields, e.id)
    ensures Valid(fm, Attach(fm, db, e))
  {
    AttachIndexAgrees(fm, db, e);
    AttachUniqueAgrees(fm, db, e);
  }

  lemma DetachIndexAgrees(fm: Formats, db: Db, e: Entity)
    requires Structured(db) && IndexAgrees(fm, db) && KeyOf(e) in db.entities && db.entities[KeyOf(e)] == e
    ensures IndexAgrees(fm, Detach(fm, db, e))
  {
    var db' := Detach(fm, db, e);
    forall typ, f: FieldDefinition, value | typ in db'.definitions && f in db'.definitions[typ].fields && f.indexed
      ensures ListedRight(fm, db', typ, f, value)
    {
      var ids := Ids(db.indices[typ], f.name, value);
      assert ListedRight(fm, db, typ, f, value);
      RemoveFirstRemoves(ids, e.id);
      if typ == e.typ {
        IndexFieldsAt(fm, db.indices[typ], db.definitions[typ].fields, e, false, f.name, value);
      }
      forall id ensures Carries(fm, db'.entities, typ, f.name, value, id) <==>
          Carries(fm, db.entities, typ, f.name, value, id) && !(typ == e.typ && id == e.id)
      {
        if CreateKey(typ, id) == KeyOf(e) { KeyInjective(typ, id, e.typ, e.id); }
      }
    }
  }

  lemma DetachUniqueAgrees(fm: Formats, db: Db, e: Entity)
    requires Valid(fm, db) && KeyOf(e) in db.entities && db.entities[KeyOf(e)] == e
    ensures UniqueAgrees(fm, Detach(fm, db, e))
  {
    var db' := Detach(fm, db, e);
    forall typ, f: FieldDefinition, key | typ in db'.definitions && f in db'.definitions[typ].fields && f.unique
      ensures OwnedRight(fm, db', typ, f, key)
    {
      assert OwnedRight(fm, db, typ, f, key);
      if typ == e.typ {
        UniqueFieldsAt(fm, db.uniqueIndices[typ], db.definitions[typ].fields, e, false, f.name, key);
        assert Owner(db.uniqueIndices[typ], f.name, key) == Some(e.id)
            <==> Owns(fm, db.entities, typ, f.name, key, e.id);
      }
      forall id ensures Owner(db'.uniqueIndices[typ], f.name, key) == Some(id)
          <==> Owns(fm, db'.entities, typ, f.name, key, id)
      {
        if CreateKey(typ, id) == KeyOf(e) { KeyInjective(typ, id, e.typ, e.id); }
      }
    }
  }

  /** Dropping a stored entity keeps both index structures exact. */
  lemma DetachKeepsValid(fm: Formats, db: Db, e: Entity)
    requires Valid(fm, db) && KeyOf(e) in db.entities && db.entities[KeyOf(e)] == e
    ensures Valid(fm, Detach(fm, db, e))
  {
    DetachIndexAgrees(fm, db, e);
    DetachUniqueAgrees(fm, db, e);
  }

  // ---------- the uniqueness check ----------

  /** validateUniqueness: every unique key in data is free, or owned by id itself. It reads only the unique index. */
  predicate UniqueFree(fm: Formats, db: Db, typ: string, data: Fields, id: string)
    requires typ in db.definitions && typ in db.uniqueIndices
  {
    forall f :: f in db.definitions[typ].fields && f.unique && UniqueKey(fm, data, f.name).Some? ==>
      var owner := Owner(db.uniqueIndices[typ], f.name, UniqueKey(fm, data, f.name).value);
      owner == None || owner == Some(id)
  }

  /** The index lookup answers exactly what a scan for another holder of the key would. */
  lemma UniqueFreeIsScan(fm: Formats, db: Db, typ: string, data: Fields, id: string)
    requires Valid(fm, db) && typ in db.definitions
    ensures UniqueFree(fm, db, typ, data, id) <==> !Clashes(fm, db.definitions[typ], db.entities, data, id)
  {
    var def, ux := db.definitions[typ], db.uniqueIndices[typ];
    if Clashes(fm, def, db.entities, data, id) {
      var f, k :| && f in def.fields && f.unique && k in db.entities
                  && db.entities[k].typ == def.name && db.entities[k].id != id
                  && UniqueKey(fm, data, f.name).Some?
                  && UniqueKey(fm, data, f.name) == UniqueKey(fm, db.entities[k].fields, f.name);
      var other := db.entities[k].id;
      assert OwnedRight(fm, db, typ, f, UniqueKey(fm, data, f.name).value);
      assert Owns(fm, db.entities, typ, f.name, UniqueKey(fm, data, f.name).value, other);
      assert Owner(ux, f.name, UniqueKey(fm, data, f.name).value) == Some(other);
    }
    forall f | !Clashes(fm, def, db.entities, data, id) && f in def.fields && f.unique
        && UniqueKey(fm, data, f.name).Some?
      ensures var owner := Owner(ux, f.name, UniqueKey(fm, data, f.name).value); owner == None || owner == Some(id)
    {
      var key := UniqueKey(fm, data, f.name).value;
      var owner := Owner(ux, f.name, key);
      assert OwnedRight(fm, db, typ, f, key);
      if owner.Some? {
        assert Owns(fm, db.entities, typ, f.name, key, owner.value);
        StoredUnderKey(db, typ, owner.value);
      }
    }
  }

  /** No two entities of a type share a unique key. */
  lemma UniqueKeysDiffer(fm: Formats, db: Db, typ: string, f: FieldDefinition, id1: string, id2: string, key: string)
    requires Valid(fm, db) && typ in db.definitions && f in db.definitions[typ].fields && f.unique
    requires Owns(fm, db.entities, typ, f.name, key, id1) && Owns(fm, db.entities, typ, f.name, key, id2)
    ensures id1 == id2
  {
    assert OwnedRight(fm, db, typ, f, key);
    assert Owner(db.uniqueIndices[typ], f.name, key) == Some(id1);
  }

  /** Definitions and entities determine both index structures, up to the order within an id list. */
  lemma IndexesDetermined(fm: Formats, db1: Db, db2: Db, typ: string, f: FieldDefinition, value: string)
    requires Valid(fm, db1) && Valid(fm, db2)
    requires db1.definitions == db2.definitions && db1.entities == db2.entities
    requires typ in db1.definitions && f in db1.definitions[typ].fields
    ensures f.indexed ==>
        multiset(Ids(db1.indices[typ], f.name, value))
        == multiset(Ids(db2.indices[typ], f.name, value))
    ensures f.unique ==> Owner(db1.uniqueIndices[typ], f.name, value) == Owner(db2.uniqueIndices[typ], f.name, value)
  {
    if f.indexed {
      var ids1, ids2 := Ids(db1.indices[typ], f.name, value), Ids(db2.indices[typ], f.name, value);
      assert ListedRight(fm, db1, typ, f, value) && ListedRight(fm, db2, typ, f, value);
      SameElements(ids1, ids2);
    }
    if f.unique {
      var o1, o2 := Owner(db1.uniqueIndices[typ], f.name, value), Owner(db2.uniqueIndices[typ], f.name, value);
      assert OwnedRight(fm, db1, typ, f, value) && OwnedRight(fm, db2, typ, f, value);
      if o1.Some? { assert Owns(fm, db1.entities, typ, f.name, value, o1.value); }
      if o2.Some? { assert Owns(fm, db2.entities, typ, f.name, value, o2.value); }
    }
  }

  /** The same ids in some order, and the same owner. */
  ghost predicate FieldAlike(db1: Db, db2: Db, typ: string, f: FieldDefinition, value: string)
    requires typ in db1.indices && typ in db1.uniqueIndices && typ in db2.indices && typ in db2.uniqueIndices
  {
    && (f.indexed ==> multiset(Ids(db1.indices[typ], f.name, value)) == multiset(Ids(db2.indices[typ], f.name, value)))
    && (f.unique ==> Owner(db1.uniqueIndices[typ], f.name, value) == Owner(db2.uniqueIndices[typ], f.name, value))
  }

  /** Lookups in the two stores answer alike. */
  ghost predicate LookupsAlike(db1: Db, db2: Db) {
    && db1.definitions == db2.definitions && Structured(db1) && Structured(db2)
    && forall typ, f, value {:trigger FieldAlike(db1, db2, typ, f, value)} ::
         typ in db1.definitions && f in db1.definitions[typ].fields ==> FieldAlike(db1, db2, typ, f, value)
  }

  /** Taking back what a call did to the entities takes back what it did to the lookups. */
  lemma RestoredAlike(fm: Formats, db1: Db, db2: Db)
    requires Valid(fm, db1) && Valid(fm, db2)
    ensures db1.definitions == db2.definitions && db1.entities == db2.entities ==> LookupsAlike(db1, db2)
  {
    if db1.definitions == db2.definitions && db1.entities == db2.entities {
      forall typ, f: FieldDefinition, value | typ in db1.definitions && f in db1.definitions[typ].fields
        ensures FieldAlike(db1, db2, typ, f, value)
      {
        IndexesDetermined(fm, db1, db2, typ, f, value);
      }
    }
  }
}
