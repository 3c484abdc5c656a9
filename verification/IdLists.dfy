/** The id lists in every reachable state: what the engine does under its write lock, and what of it spoils a list. */
module IdLists {
  import opened Common
  import opened Keys
  import opened IdFormats
  import opened Validation
  import opened Store
  import opened Agreement
  import opened Tables
  import opened Commits
  import opened Schema
  import opened Migrations
  import opened Engines
  import opened SchemaUpdates

  // ---------- the sections under the write lock ----------

  /**
   * One stretch of a call under the write lock. A call whose log write fails takes the lock a second time to undo what
   * it did, and other clients may have had it in between. An insert that is undone takes its entity out as the fields
   * have become by then; an update of a type goes by the definition seen before the lock.
   */
  datatype Section =
    | Inserts(e: Entity, generated: bool)
    | InsertUndone(gone: Entity)
    | Updates(typ: string, id: string, changes: Fields)
    | UpdateUndone(original: Entity)
    | Deletes(e: Entity)
    | DeleteUndone(original: Entity)
    | Registers(def: EntityDefinition)
    | RegisterUndone(name: string)
    | Truncates(typ: string, order: seq<Entity>)
    | Clears
    | Migrates(seen: EntityDefinition, updated: EntityDefinition, order: seq<Entity>, scans: map<string, seq<Entity>>,
        ux: TypeUnique)
    | MigrateUndone(seen: EntityDefinition)

  /** What the checks before the lock have established, and the orders in which the section walks the entity map. */
  ghost predicate Enabled(fm: Formats, db: Db, section: Section)
    requires Structured(db)
  {
    match section
    case Inserts(e, _) => e.id != "" && NoColon(e.typ)
    case InsertUndone(gone) => gone.id != "" && NoColon(gone.typ)
    case Updates(typ, _, _) => NoColon(typ)
    case UpdateUndone(original) => original.id != "" && NoColon(original.typ)
    case Deletes(e) => NoColon(e.typ)
    case DeleteUndone(original) => original.id != "" && NoColon(original.typ)
    case Registers(def) => NoColon(def.name) && DistinctNames(def.fields)
    case RegisterUndone(_) => true
    case Truncates(typ, order) => typ in db.definitions ==> ListsType(db, typ, order)
    case Clears => true
    case Migrates(seen, updated, order, scans, _) =>
      && updated.name in db.definitions && DistinctNames(updated.fields) && Accepts(seen.fields, updated.fields)
      && ListsType(db, updated.name, order)
      && ScansAll(Walked(fm, db, seen, updated, order), updated.name, seen.fields, Upgraded(seen, updated).fields,
             scans)
    case MigrateUndone(seen) => NoColon(seen.name) && DistinctNames(seen.fields)
  }

  /** The store once the walk of a schema update is over. */
  ghost function Walked(fm: Formats, db: Db, seen: EntityDefinition, updated: EntityDefinition, order: seq<Entity>): Db
    requires Structured(db) && updated.name in db.definitions && ListsType(db, updated.name, order)
  {
    WalkAll(fm, db, updated.name, seen.fields, updated.fields, order)
  }

  function FreshIndex(def: EntityDefinition): TypeIndex {
    map f | f in def.fields && (f.indexed || f.unique) :: f.name := map[]
  }

  /** Takes the entity out of the indexes if its type is there, and drops whatever is under its key. */
  function TakenOut(fm: Formats, db: Db, e: Entity): Db
    requires Structured(db)
  {
    if e.typ in db.definitions then Detach(fm, db, e) else db.(entities := db.entities - {KeyOf(e)})
  }

  /** Stores the entity over whatever is under its key, and adds it to the indexes if its type is there. */
  function PutIn(fm: Formats, db: Db, e: Entity): Db
    requires Structured(db)
  {
    if e.typ in db.definitions then Attach(fm, db, e) else db.(entities := db.entities[KeyOf(e) := e])
  }

  /** The state when the lock is released. */
  ghost function Released(fm: Formats, db: Db, section: Section): Db
    requires Structured(db) && Enabled(fm, db, section)
  {
    match section
    case Inserts(e, generated) => if InsertBarred(fm, db, e, generated).Some? then db else Attach(fm, db, e)
    case InsertUndone(gone) => TakenOut(fm, db, gone)
    case Updates(typ, id, changes) =>
      if typ !in db.definitions || UpdateBarred(fm, db, typ, id, changes).Some? then db
      else
        StoredUnderKey(db, typ, id);
        var e := db.entities[CreateKey(typ, id)];
        Replace(fm, db, e, Updated(e, changes))
    case UpdateUndone(original) =>
      PutIn(fm, if KeyOf(original) in db.entities then Detach(fm, db, db.entities[KeyOf(original)]) else db, original)
    case Deletes(e) => if !StillThere(db, e) then db else Detach(fm, db, db.entities[KeyOf(e)])
    case DeleteUndone(original) => PutIn(fm, db, original)
    case Registers(def) =>
      if def.name in db.definitions then db
      else
        Db(db.definitions[def.name := def], db.entities, db.indices[def.name := FreshIndex(def)],
           db.uniqueIndices[def.name := EmptyUnique(def)])
    case RegisterUndone(name) =>
      Db(db.definitions - {name}, db.entities, db.indices - {name}, db.uniqueIndices - {name})
    case Truncates(typ, order) => if typ !in db.definitions then db else DetachAll(fm, db, order)
    case Clears => Cleared(db)
    case Migrates(seen, updated, order, scans, ux) =>
      var walked, def := Walked(fm, db, seen, updated, order), Upgraded(seen, updated);
      Adopted(walked, def, ReindexedFields(fm, walked.indices[def.name], seen.fields, def.fields, scans), ux)
    case MigrateUndone(seen) => PutBack(db, seen)
  }

  // ---------- what spoils a list ----------

  /** Each indexed value of the stored entity is one the other has too, so taking the other out leaves none behind. */
  predicate CoveredBy(fm: Formats, fields: seq<FieldDefinition>, stored: Entity, other: Fields) {
    forall f :: f in fields && f.indexed && Rendered(fm, stored.fields, f.name).Some? ==>
      Rendered(fm, other, f.name) == Rendered(fm, stored.fields, f.name)
  }

  /** A field has the flag by the definition seen, has lost it since, and what is left of its lists is not right. */
  ghost predicate StaleField(fm: Formats, db: Db, entities: map<string, Entity>, typ: string,
      seen: seq<FieldDefinition>, name: string)
    requires Structured(db) && typ in db.definitions
  {
    && IndexedIn(seen, name) && !IndexedIn(db.definitions[typ].fields, name)
    && !FieldListed(fm, entities, db.indices[typ], typ, name)
  }

  ghost predicate AnyStale(fm: Formats, db: Db, entities: map<string, Entity>, typ: string,
      seen: seq<FieldDefinition>, fields: seq<FieldDefinition>)
    requires Structured(db) && typ in db.definitions
  {
    exists g :: g in fields && g.indexed && StaleField(fm, db, entities, typ, seen, g.name)
  }

  /**
   * The section leaves some id list wrong, or an entity without its type. Undoing an insert: what is stored there has
   * an indexed value that the insert does not take out. Undoing a delete: what has been stored there since has an
   * indexed value. Undoing an update or a delete: the type has gone. Undoing a registration: entities have been stored.
   * Updating a type, or putting its definition back: a field that is to be indexed is stale.
   */
  ghost predicate Spoils(fm: Formats, db: Db, section: Section)
    requires Structured(db) && Enabled(fm, db, section)
  {
    match section
    case InsertUndone(gone) => Uncovered(fm, db, KeyOf(gone), gone.fields)
    case UpdateUndone(original) => original.typ !in db.definitions
    case DeleteUndone(original) => original.typ !in db.definitions || Uncovered(fm, db, KeyOf(original), map[])
    case RegisterUndone(name) => exists key :: key in db.entities && db.entities[key].typ == name
    case Migrates(seen, updated, order, _, _) =>
      AnyStale(fm, db, AllMigrated(seen.fields, updated.fields, db.entities, updated.name), updated.name, seen.fields,
          Upgraded(seen, updated).fields)
    case MigrateUndone(seen) =>
      seen.name !in db.definitions || AnyStale(fm, db, db.entities, seen.name, seen.fields, seen.fields)
    case _ => false
  }

  /** What is stored under the key has an indexed value that the fields do not have. */
  predicate Uncovered(fm: Formats, db: Db, key: string, fields: Fields)
    requires Structured(db)
  {
    key in db.entities && !CoveredBy(fm, db.definitions[db.entities[key].typ].fields, db.entities[key], fields)
  }

  // ---------- taking out and putting in whatever is there ----------

  lemma SameType(db: Db, e: Entity)
    requires WellKeyed(db.definitions, db.entities) && NoColon(e.typ) && KeyOf(e) in db.entities
    ensures db.entities[KeyOf(e)].typ == e.typ && db.entities[KeyOf(e)].id == e.id && e.typ in db.definitions
  {
    StoredUnderKey(db, e.typ, e.id);
  }

  /** A value of the entity that was there before, in the list the section leaves. */
  lemma OneListAfter(fm: Formats, db: Db, db': Db, e: Entity, add: bool, f: FieldDefinition, value: string)
    requires Structured(db) && e.typ in db.definitions && f in db.definitions[e.typ].fields && f.indexed
    requires db' == if add then Attach(fm, db, e) else Detach(fm, db, e)
    ensures var ids, ids' := Ids(db.indices[e.typ], f.name, value), Ids(db'.indices[e.typ], f.name, value);
            ids' == if Rendered(fm, e.fields, f.name) != Some(value) then ids
                    else if add then ids + [e.id] else RemoveFirst(ids, e.id)
  {
    IndexFieldsAt(fm, db.indices[e.typ], db.definitions[e.typ].fields, e, add, f.name, value);
  }

  lemma OtherListAfter(fm: Formats, db: Db, db': Db, e: Entity, add: bool, typ: string, f: FieldDefinition,
      value: string)
    requires ListsExact(fm, db) && e.typ in db.definitions && NoColon(e.typ) && typ != e.typ
    requires db' == if add then Attach(fm, db, e) else Detach(fm, db, e)
    requires typ in db.definitions && f in db.definitions[typ].fields && f.indexed
    ensures ListedRight(fm, db', typ, f, value)
  {
    assert ListedRight(fm, db, typ, f, value);
    forall id ensures Carries(fm, db'.entities, typ, f.name, value, id) <==>
        Carries(fm, db.entities, typ, f.name, value, id)
    {
      if CreateKey(typ, id) == KeyOf(e) { KeyInjective(typ, id, e.typ, e.id); }
    }
  }

  lemma CarriesAfter(fm: Formats, db: Db, db': Db, e: Entity, add: bool, name: string, value: string, id: string)
    requires Structured(db) && e.typ in db.definitions
    requires db' == if add then Attach(fm, db, e) else Detach(fm, db, e)
    ensures Carries(fm, db'.entities, e.typ, name, value, id) <==>
            if id == e.id then add && Rendered(fm, e.fields, name) == Some(value)
            else Carries(fm, db.entities, e.typ, name, value, id)
  {
    if CreateKey(e.typ, id) == KeyOf(e) { KeyInjective(e.typ, id, e.typ, e.id); }
  }

  lemma OwnListAfter(fm: Formats, db: Db, db': Db, e: Entity, add: bool, f: FieldDefinition, value: string)
    requires ListsExact(fm, db) && e.typ in db.definitions
    requires db' == if add then Attach(fm, db, e) else Detach(fm, db, e)
    requires f in db.definitions[e.typ].fields && f.indexed
    requires !Uncovered(fm, db, KeyOf(e), if add then map[] else e.fields)
    ensures ListedRight(fm, db', e.typ, f, value)
  {
    var ids := Ids(db.indices[e.typ], f.name, value);
    assert ListedRight(fm, db, e.typ, f, value);
    OneListAfter(fm, db, db', e, add, f, value);
    RemoveFirstRemoves(ids, e.id);
    if KeyOf(e) in db.entities { SameType(db, e); }
    forall id ensures id in Ids(db'.indices[e.typ], f.name, value)
        <==> Carries(fm, db'.entities, e.typ, f.name, value, id)
    {
      CarriesAfter(fm, db, db', e, add, f.name, value, id);
    }
  }

  lemma UncoveredIsLeft(fm: Formats, db: Db, db': Db, e: Entity, add: bool)
    requires ListsExact(fm, db) && e.typ in db.definitions && db'.definitions == db.definitions
    requires db' == if add then Attach(fm, db, e) else Detach(fm, db, e)
    requires Uncovered(fm, db, KeyOf(e), if add then map[] else e.fields)
    ensures !IndexAgrees(fm, db')
  {
    SameType(db, e);
    var stored := db.entities[KeyOf(e)];
    var f :| f in db.definitions[e.typ].fields && f.indexed && Rendered(fm, stored.fields, f.name).Some?
             && (add || Rendered(fm, e.fields, f.name) != Rendered(fm, stored.fields, f.name));
    var value := Rendered(fm, stored.fields, f.name).value;
    var ids, ids' := Ids(db.indices[e.typ], f.name, value), Ids(db'.indices[e.typ], f.name, value);
    assert ListedRight(fm, db, e.typ, f, value);
    assert Carries(fm, db.entities, e.typ, f.name, value, e.id);
    OneListAfter(fm, db, db', e, add, f, value);
    CarriesAfter(fm, db, db', e, add, f.name, value, e.id);
    var i :| 0 <= i < |ids| && ids[i] == e.id;
    assert ids'[i] == e.id && (add && Rendered(fm, e.fields, f.name) == Some(value) ==> ids'[|ids|] == e.id);
    assert !ListedRight(fm, db', e.typ, f, value);
  }

  /** Taking an entity out, or storing it, over whatever is there keeps the lists exactly if no value is left behind. */
  lemma OverwriteIff(fm: Formats, db: Db, db': Db, e: Entity, add: bool)
    requires ListsExact(fm, db) && e.typ in db.definitions && NoColon(e.typ) && e.id != ""
    requires db' == if add then Attach(fm, db, e) else Detach(fm, db, e)
    ensures ListsExact(fm, db') <==> !Uncovered(fm, db, KeyOf(e), if add then map[] else e.fields)
  {
    if Uncovered(fm, db, KeyOf(e), if add then map[] else e.fields) {
      UncoveredIsLeft(fm, db, db', e, add);
    } else {
      forall typ, f: FieldDefinition, value | typ in db'.definitions && f in db'.definitions[typ].fields && f.indexed
        ensures ListedRight(fm, db', typ, f, value)
      {
        if typ == e.typ { OwnListAfter(fm, db, db', e, add, f, value); }
        else { OtherListAfter(fm, db, db', e, add, typ, f, value); }
      }
    }
  }

  // ---------- each section ----------

  lemma InsertUndoneIff(fm: Formats, db: Db, gone: Entity)
    requires ListsExact(fm, db) && gone.id != "" && NoColon(gone.typ)
    ensures ListsExact(fm, TakenOut(fm, db, gone)) <==> !Uncovered(fm, db, KeyOf(gone), gone.fields)
  {
    if gone.typ in db.definitions {
      OverwriteIff(fm, db, Detach(fm, db, gone), gone, false);
    } else {
      if KeyOf(gone) in db.entities { SameType(db, gone); }
      assert TakenOut(fm, db, gone) == db;
    }
  }

  lemma PutInIff(fm: Formats, db: Db, e: Entity)
    requires ListsExact(fm, db) && e.id != "" && NoColon(e.typ)
    ensures ListsExact(fm, PutIn(fm, db, e)) <==> e.typ in db.definitions && !Uncovered(fm, db, KeyOf(e), map[])
  {
    if e.typ in db.definitions {
      OverwriteIff(fm, db, Attach(fm, db, e), e, true);
    } else {
      assert PutIn(fm, db, e).entities[KeyOf(e)] == e;
    }
  }

  lemma UpdateUndoneIff(fm: Formats, db: Db, original: Entity)
    requires ListsExact(fm, db) && Enabled(fm, db, UpdateUndone(original))
    ensures ListsExact(fm, Released(fm, db, UpdateUndone(original))) <==> original.typ in db.definitions
  {
    var key := KeyOf(original);
    if key in db.entities {
      SameType(db, original);
      DetachKeepsLists(fm, db, db.entities[key]);
      PutInIff(fm, Detach(fm, db, db.entities[key]), original);
    } else {
      PutInIff(fm, db, original);
    }
  }

  lemma RegisterUndoneIff(fm: Formats, db: Db, name: string)
    requires ListsExact(fm, db)
    ensures ListsExact(fm, Released(fm, db, RegisterUndone(name)))
            <==> !exists key :: key in db.entities && db.entities[key].typ == name
  {
    var db' := Released(fm, db, RegisterUndone(name));
    if key :| key in db.entities && db.entities[key].typ == name {
      assert db'.entities[key].typ !in db'.definitions;
    } else {
      forall typ, f: FieldDefinition, value | typ in db'.definitions && f in db'.definitions[typ].fields && f.indexed
        ensures ListedRight(fm, db', typ, f, value)
      {
        assert ListedRight(fm, db, typ, f, value);
      }
    }
  }

  lemma {:induction false} DetachAllKeepsLists(fm: Formats, db: Db, es: seq<Entity>)
    requires ListsExact(fm, db) && Distinct(es)
    requires forall e :: e in es ==> KeyOf(e) in db.entities && db.entities[KeyOf(e)] == e
    ensures ListsExact(fm, DetachAll(fm, db, es)) && DetachAll(fm, db, es).entities == Without(db.entities, es)
  {
    if es == [] {
      assert Without(db.entities, es) == db.entities;
    } else {
      var front, e := es[..|es| - 1], es[|es| - 1];
      SplitLast(es);
      DetachAllKeepsLists(fm, db, front);
      WithoutStep(db.entities, front, e);
      DetachKeepsLists(fm, DetachAll(fm, db, front), e);
    }
  }

  /** The walk leaves alone the lists of a field the store's own definition has not as indexed. */
  lemma {:induction false} WalkIgnoresUnindexed(fm: Formats, db: Db, typ: string, original: seq<FieldDefinition>,
      updated: seq<FieldDefinition>, es: seq<Entity>, name: string, value: string)
    requires ListsExact(fm, db) && typ in db.definitions && Listed(db, typ, es)
    requires !IndexedIn(db.definitions[typ].fields, name)
    ensures Ids(WalkAll(fm, db, typ, original, updated, es).indices[typ], name, value)
            == Ids(db.indices[typ], name, value)
  {
    if es == [] {
    } else {
      var n, fields := |es| - 1, db.definitions[typ].fields;
      ListedFront(db, typ, es);
      WalkIgnoresUnindexed(fm, db, typ, original, updated, es[..n], name, value);
      var front := WalkAll(fm, db, typ, original, updated, es[..n]);
      forall f | f in fields && f.name == name ensures !f.indexed { FindOwn(fields, f); }
      IndexFieldsAt(fm, front.indices[typ], fields, es[n], false, name, value);
      IndexFieldsAt(fm, Detach(fm, front, es[n]).indices[typ], fields, Migrated(original, updated, es[n]), true, name,
          value);
    }
  }

  lemma WalkedEntities(fm: Formats, db: Db, section: Section)
    requires ListsExact(fm, db) && section.Migrates? && Enabled(fm, db, section)
    ensures var walked := Walked(fm, db, section.seen, section.updated, section.order);
            && ListsExact(fm, walked)
            && walked.entities
               == AllMigrated(section.seen.fields, section.updated.fields, db.entities, section.updated.name)
  {
    WalkKeepsLists(fm, db, section.updated.name, section.seen.fields, section.updated.fields, section.order);
    MigrateNoneOrAll(section.seen.fields, section.updated.fields, db, section.updated.name, section.order);
  }

  /** A field kept by its flag is listed right after the walk exactly if it is not stale. */
  lemma KeptFieldIff(fm: Formats, db: Db, section: Section, name: string)
    requires ListsExact(fm, db) && section.Migrates? && Enabled(fm, db, section)
    requires IndexedIn(section.seen.fields, name)
    ensures var typ := section.updated.name; var walked := Walked(fm, db, section.seen, section.updated, section.order);
            FieldListed(fm, walked.entities, walked.indices[typ], typ, name)
            <==> !StaleField(fm, db, walked.entities, typ, section.seen.fields, name)
  {
    var typ, seen, updated := section.updated.name, section.seen.fields, section.updated.fields;
    var walked := Walked(fm, db, section.seen, section.updated, section.order);
    WalkedEntities(fm, db, section);
    if IndexedIn(db.definitions[typ].fields, name) {
      IndexMeansListed(fm, walked, typ);
    } else {
      forall value ensures Ids(walked.indices[typ], name, value) == Ids(db.indices[typ], name, value) {
        WalkIgnoresUnindexed(fm, db, typ, seen, updated, section.order, name, value);
      }
    }
  }

  /** After the walk the fields kept by their flag are listed right exactly if none is stale. */
  lemma KeptListedIff(fm: Formats, db: Db, section: Section)
    requires ListsExact(fm, db) && section.Migrates? && Enabled(fm, db, section)
    ensures var typ := section.updated.name; var walked := Walked(fm, db, section.seen, section.updated, section.order);
            KeptListed(fm, walked.entities, walked.indices[typ], typ, section.seen.fields,
                Upgraded(section.seen, section.updated).fields)
            <==> !Spoils(fm, db, section)
  {
    var walked := Walked(fm, db, section.seen, section.updated, section.order);
    WalkedEntities(fm, db, section);
    forall g | g in Upgraded(section.seen, section.updated).fields && g.indexed
        && IndexedIn(section.seen.fields, g.name)
      ensures var typ := section.updated.name;
              FieldListed(fm, walked.entities, walked.indices[typ], typ, g.name)
              <==> !StaleField(fm, db, walked.entities, typ, section.seen.fields, g.name)
    {
      KeptFieldIff(fm, db, section, g.name);
    }
  }

  /** An update of a type leaves the lists exact exactly if those of the fields kept by their flag are right by then. */
  lemma MigratesIff(fm: Formats, db: Db, section: Section)
    requires ListsExact(fm, db) && section.Migrates? && Enabled(fm, db, section)
    ensures ListsExact(fm, Released(fm, db, section)) <==> !Spoils(fm, db, section)
    ensures section.seen == db.definitions[section.updated.name] ==> ListsExact(fm, Released(fm, db, section))
  {
    var seen, updated := section.seen, section.updated;
    var walked, def := Walked(fm, db, seen, updated, section.order), Upgraded(seen, updated);
    var before := walked.indices[def.name];
    WalkedEntities(fm, db, section);
    CompletedDistinct(updated);
    AllReindexedListedIff(fm, walked, before, def.name, seen.fields, def.fields, section.scans);
    AdoptionListsIff(fm, walked, def, ReindexedFields(fm, before, seen.fields, def.fields, section.scans), section.ux);
    KeptListedIff(fm, db, section);
  }

  /** What an update of a type leaves: the new definition, the migrated entities, and no list where the flag went. */
  lemma MigratedState(fm: Formats, db: Db, section: Section)
    requires ListsExact(fm, db) && section.Migrates? && Enabled(fm, db, section)
    ensures var after, seen, updated := Released(fm, db, section), section.seen, section.updated;
            && after.definitions == db.definitions[updated.name := Upgraded(seen, updated)]
            && after.entities == AllMigrated(seen.fields, updated.fields, db.entities, updated.name)
            && forall g :: g in Upgraded(seen, updated).fields && !g.indexed && IndexedIn(seen.fields, g.name) ==>
                 g.name !in after.indices[updated.name]
  {
    var seen, def := section.seen, Upgraded(section.seen, section.updated);
    var walked := Walked(fm, db, seen, section.updated, section.order);
    WalkedEntities(fm, db, section);
    CompletedDistinct(section.updated);
    forall g | g in def.fields && !g.indexed && IndexedIn(seen.fields, g.name)
      ensures g.name !in ReindexedFields(fm, walked.indices[def.name], seen.fields, def.fields, section.scans)
    {
      ReindexedAt(fm, walked.indices[def.name], seen.fields, def.fields, section.scans, g);
    }
  }

  /** The fields of a definition put back are listed right exactly if none that has its flag is stale. */
  lemma PutBackStaleIff(fm: Formats, db: Db, seen: EntityDefinition)
    requires ListsExact(fm, db) && seen.name in db.definitions && DistinctNames(seen.fields)
    ensures AllListed(fm, db.entities, db.indices[seen.name], seen.name, seen.fields)
            <==> !AnyStale(fm, db, db.entities, seen.name, seen.fields, seen.fields)
  {
    IndexMeansListed(fm, db, seen.name);
    forall f | f in seen.fields && f.indexed
      ensures FieldListed(fm, db.entities, db.indices[seen.name], seen.name, f.name)
              <==> !StaleField(fm, db, db.entities, seen.name, seen.fields, f.name)
    {
      FindOwn(seen.fields, f);
    }
  }

  lemma MigrateUndoneIff(fm: Formats, db: Db, seen: EntityDefinition)
    requires ListsExact(fm, db) && Enabled(fm, db, MigrateUndone(seen))
    ensures ListsExact(fm, Released(fm, db, MigrateUndone(seen))) <==> !Spoils(fm, db, MigrateUndone(seen))
  {
    if seen.name in db.definitions {
      PutBackStaleIff(fm, db, seen);
      AdoptionListsIff(fm, db, seen, db.indices[seen.name], db.uniqueIndices[seen.name]);
      PutSame(db.indices, seen.name);
      PutSame(db.uniqueIndices, seen.name);
      assert PutBack(db, seen) == Adopted(db, seen, db.indices[seen.name], db.uniqueIndices[seen.name]);
    } else {
      assert seen.name in PutBack(db, seen).definitions && seen.name !in db.indices;
    }
  }

  /** A field whose lists another update has deleted is stale exactly if some entity has a value to list. */
  lemma DeletedListIff(fm: Formats, db: Db, seen: EntityDefinition, updated: seq<FieldDefinition>, typ: string,
      name: string)
    requires Structured(db) && typ in db.definitions && Accepts(seen.fields, updated)
    requires IndexedIn(seen.fields, name) && !IndexedIn(db.definitions[typ].fields, name) && name !in db.indices[typ]
    ensures StaleField(fm, db, AllMigrated(seen.fields, updated, db.entities, typ), typ, seen.fields, name)
            <==> HasValue(fm, db.entities, typ, name)
    ensures StaleField(fm, db, db.entities, typ, seen.fields, name) <==> HasValue(fm, db.entities, typ, name)
  {
    var migrated := AllMigrated(seen.fields, updated, db.entities, typ);
    MigratedWellKeyed(seen.fields, updated, db, typ);
    NoListIff(fm, db, db.indices[typ], typ, name);
    NoListIff(fm, db.(entities := migrated), db.indices[typ], typ, name);
    MigrationKeepsValues(fm, seen.fields, updated, db.entities, typ, name);
  }

  lemma UndoingIff(fm: Formats, db: Db, section: Section)
    requires ListsExact(fm, db) && Enabled(fm, db, section)
    requires section.InsertUndone? || section.UpdateUndone? || section.DeleteUndone? || section.RegisterUndone?
    ensures ListsExact(fm, Released(fm, db, section)) <==> !Spoils(fm, db, section)
  {
    match section
    case InsertUndone(gone) => InsertUndoneIff(fm, db, gone);
    case UpdateUndone(original) => UpdateUndoneIff(fm, db, original);
    case DeleteUndone(original) => PutInIff(fm, db, original);
    case RegisterUndone(name) => RegisterUndoneIff(fm, db, name);
  }

  lemma CommittingKeepsLists(fm: Formats, db: Db, section: Section)
    requires ListsExact(fm, db) && Enabled(fm, db, section)
    requires section.Inserts? || section.Updates? || section.Deletes? || section.Registers? || section.Truncates?
        || section.Clears?
    ensures ListsExact(fm, Released(fm, db, section))
  {
    match section
    case Inserts(e, generated) => if InsertBarred(fm, db, e, generated).None? { AttachKeepsLists(fm, db, e); }
    case Updates(typ, id, changes) =>
      if CreateKey(typ, id) in db.entities {
        StoredUnderKey(db, typ, id);
        UpdateKeepsLists(fm, db, db.entities[CreateKey(typ, id)], changes);
      }
    case Deletes(e) => if StillThere(db, e) { DetachKeepsLists(fm, db, db.entities[KeyOf(e)]); }
    case Registers(def) =>
      if def.name !in db.definitions { NewTypeKeepsLists(fm, db, def, FreshIndex(def), EmptyUnique(def)); }
    case Truncates(typ, order) => if typ in db.definitions { DetachAllKeepsLists(fm, db, order); }
    case Clears => ClearedIsValid(fm, db);
  }

  /** From exact lists each section leads to exact lists if and only if it does not spoil one. */
  lemma SectionKeepsListsIff(fm: Formats, db: Db, section: Section)
    requires ListsExact(fm, db) && Enabled(fm, db, section)
    ensures ListsExact(fm, Released(fm, db, section)) <==> !Spoils(fm, db, section)
  {
    match section
    case Migrates(_, _, _, _, _) => MigratesIff(fm, db, section);
    case MigrateUndone(seen) => MigrateUndoneIff(fm, db, seen);
    case InsertUndone(_) => UndoingIff(fm, db, section);
    case UpdateUndone(_) => UndoingIff(fm, db, section);
    case DeleteUndone(_) => UndoingIff(fm, db, section);
    case RegisterUndone(_) => UndoingIff(fm, db, section);
    case _ => CommittingKeepsLists(fm, db, section);
  }

  // ---------- undoing at once ----------

  /** What the call does when its log write fails. */
  function UndoOf(fm: Formats, db: Db, section: Section): Option<Section>
    requires Structured(db)
  {
    match section
    case Inserts(e, generated) =>
      if InsertBarred(fm, db, e, generated).Some? then None else Some(InsertUndone(e))
    case Updates(typ, id, changes) =>
      if typ !in db.definitions || UpdateBarred(fm, db, typ, id, changes).Some? then None
      else Some(UpdateUndone(db.entities[CreateKey(typ, id)]))
    case Deletes(e) => if StillThere(db, e) then Some(DeleteUndone(db.entities[KeyOf(e)])) else None
    case Registers(def) => if def.name in db.definitions then None else Some(RegisterUndone(def.name))
    case _ => None
  }

  /** If no other client had the lock in between, undoing an insert, update, delete or registration spoils nothing. */
  lemma UndoneAtOnce(fm: Formats, db: Db, section: Section)
    requires ListsExact(fm, db) && Enabled(fm, db, section) && UndoOf(fm, db, section).Some?
    ensures var after, undo := Released(fm, db, section), UndoOf(fm, db, section).value;
            ListsExact(fm, after) && Enabled(fm, after, undo) && !Spoils(fm, after, undo)
  {
    CommittingKeepsLists(fm, db, section);
    match section
    case Updates(typ, id, changes) =>
      StoredUnderKey(db, typ, id);
    case Deletes(e) =>
      StoredUnderKey(db, e.typ, e.id);
    case Registers(def) =>
    case _ =>
  }

  lemma DropsSameLists(fm: Formats, original: seq<FieldDefinition>, updated: seq<FieldDefinition>,
      entities: map<string, Entity>, typ: string, stored: seq<FieldDefinition>)
    requires Accepts(original, updated)
    ensures DropsList(fm, AllMigrated(original, updated, entities, typ), typ, original, stored)
            <==> DropsList(fm, entities, typ, original, stored)
  {
    forall name ensures HasValue(fm, AllMigrated(original, updated, entities, typ), typ, name)
                        <==> HasValue(fm, entities, typ, name)
    {
      MigrationKeepsValues(fm, original, updated, entities, typ, name);
    }
  }

  /** The definition back in place of the new one, the index structures as the update left them. */
  lemma PutBackAtOnce(fm: Formats, db: Db, section: Section)
    requires ListsExact(fm, db) && section.Migrates? && Enabled(fm, db, section)
    requires section.seen == db.definitions[section.updated.name]
    ensures ListsExact(fm, PutBack(Released(fm, db, section), section.seen)) <==>
            !DropsList(fm, db.entities, section.seen.name, section.seen.fields,
                Upgraded(section.seen, section.updated).fields)
  {
    var seen, def := section.seen, Upgraded(section.seen, section.updated);
    var walked := Walked(fm, db, seen, section.updated, section.order);
    WalkedEntities(fm, db, section);
    CompletedDistinct(section.updated);
    PutBackIff(fm, walked, def,
        ReindexedFields(fm, walked.indices[def.name], seen.fields, def.fields, section.scans), section.ux,
        section.scans);
    DropsSameLists(fm, seen.fields, section.updated.fields, db.entities, def.name, def.fields);
  }

  /**
   * Undoing an update of a type at once: the lists are exact exactly if no field that the update took the flag from has
   * a value.
   */
  lemma MigrationUndoneAtOnceIff(fm: Formats, db: Db, section: Section)
    requires ListsExact(fm, db) && section.Migrates? && Enabled(fm, db, section)
    requires section.seen == db.definitions[section.updated.name]
    ensures var after, undo := Released(fm, db, section), MigrateUndone(section.seen);
            && ListsExact(fm, after) && Enabled(fm, after, undo)
            && (ListsExact(fm, Released(fm, after, undo)) <==>
                  !DropsList(fm, db.entities, section.seen.name, section.seen.fields,
                      Upgraded(section.seen, section.updated).fields))
  {
    MigratesIff(fm, db, section);
    PutBackAtOnce(fm, db, section);
  }

  // ---------- runs ----------

  /** Locked sections of any clients, one after another, from the empty store. */
  ghost predicate LockedRun(fm: Formats, states: seq<Db>, sections: seq<Section>) {
    && |states| == |sections| + 1 && states[0] == EMPTY_DB
    && forall i :: 0 <= i < |sections| ==> Follows(fm, states, sections, i)
  }

  ghost predicate Follows(fm: Formats, states: seq<Db>, sections: seq<Section>, i: nat)
    requires i < |sections| && |states| == |sections| + 1
  {
    && Structured(states[i]) && Enabled(fm, states[i], sections[i])
    && states[i + 1] == Released(fm, states[i], sections[i])
  }

  ghost predicate SpoilsAt(fm: Formats, states: seq<Db>, sections: seq<Section>, i: nat)
    requires i < |sections| && |states| == |sections| + 1 && Follows(fm, states, sections, i)
  {
    Spoils(fm, states[i], sections[i])
  }

  /** A run goes on with any section that is enabled in its last state. */
  lemma RunGrows(fm: Formats, states: seq<Db>, sections: seq<Section>, section: Section)
    requires LockedRun(fm, states, sections)
    requires Structured(states[|sections|]) && Enabled(fm, states[|sections|], section)
    ensures LockedRun(fm, states + [Released(fm, states[|sections|], section)], sections + [section])
  {
    var states', sections' := states + [Released(fm, states[|sections|], section)], sections + [section];
    forall i | 0 <= i < |sections'| ensures Follows(fm, states', sections', i) {
      if i < |sections| { assert Follows(fm, states, sections, i); }
    }
  }

  lemma {:induction false} UnspoiledIsExact(fm: Formats, states: seq<Db>, sections: seq<Section>, n: nat)
    requires LockedRun(fm, states, sections) && n <= |sections|
    requires forall i :: 0 <= i < n ==> !SpoilsAt(fm, states, sections, i)
    ensures ListsExact(fm, states[n])
  {
    if n == 0 {
    } else {
      UnspoiledIsExact(fm, states, sections, n - 1);
      assert Follows(fm, states, sections, n - 1) && !SpoilsAt(fm, states, sections, n - 1);
      SectionKeepsListsIff(fm, states[n - 1], sections[n - 1]);
    }
  }

  /**
   * However the sections of any clients interleave, every id list holds exactly the ids a scan finds in every state of
   * the run, if and only if no section of the run spoils one.
   */
  lemma ListsStayExactIff(fm: Formats, states: seq<Db>, sections: seq<Section>)
    requires LockedRun(fm, states, sections)
    ensures (forall n :: 0 <= n < |states| ==> ListsExact(fm, states[n]))
            <==> forall i :: 0 <= i < |sections| ==> !SpoilsAt(fm, states, sections, i)
  {
    if forall i :: 0 <= i < |sections| ==> !SpoilsAt(fm, states, sections, i) {
      forall n | 0 <= n < |states| ensures ListsExact(fm, states[n]) { UnspoiledIsExact(fm, states, sections, n); }
    }
    if forall n :: 0 <= n < |states| ==> ListsExact(fm, states[n]) {
      forall i | 0 <= i < |sections| ensures !SpoilsAt(fm, states, sections, i) {
        assert Follows(fm, states, sections, i) && ListsExact(fm, states[i]) && ListsExact(fm, states[i + 1]);
        SectionKeepsListsIff(fm, states[i], sections[i]);
      }
    }
  }
}
