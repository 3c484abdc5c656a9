/** The engine and its write-ahead log as objects updated in place, proved to behave as the reference store says. */
module Engines {
  import opened Common
  import opened Keys
  import opened IdFormats
  import opened Validation
  import opened Store
  import opened Tables
  import opened Journals
  import opened Commits
  import opened A = Agreement

  /** The durable part of the persistence engine. */
  class WalFile {
    var sequence: nat
    var wal: Wal
    var snapshot: Option<seq<DumpItem>>

    ghost function State(): Journal reads this { Journal(sequence, wal, snapshot) }

    /** NewPersistenceEngine: whatever the database holds, numbering starts again at zero. */
    constructor (wal: Wal, snapshot: Option<seq<DumpItem>>)
      ensures State() == Journal(0, wal, snapshot)
    {
      this.sequence, this.wal, this.snapshot := 0, wal, snapshot;
    }

    /** WriteWALEntry; disk says whether the database transaction succeeds. The number is used up either way. */
    method WriteEntry(op: Op, disk: bool) returns (ok: bool)
      modifies this
      ensures ok == disk
      ensures State() == Attempted(old(State()), op, disk)
    {
      sequence := sequence + 1;
      var number := sequence;
      if disk {
        wal := wal[KeyFor(number, op) := WalEntry(number, "", op, false)];
      }
      ok := disk;
    }

    /** PruneWALBeforeTimestamp: collect the keys, then delete them. */
    method Prune(timestamp: nat)
      modifies this
      ensures State() == old(State()).(wal := Pruned(old(wal), timestamp))
    {
      var doomed: set<WalKey> := {};
      var rest := wal.Keys;
      while rest != {}
        invariant rest <= wal.Keys && doomed <= wal.Keys
        invariant forall key :: key in wal && key !in rest ==> (key in doomed <==> key.sequence <= timestamp)
        invariant forall key :: key in doomed ==> key.sequence <= timestamp
        decreases rest
      {
        var key :| key in rest;
        if key.sequence <= timestamp {
          doomed := doomed + {key};
        }
        rest := rest - {key};
      }
      wal := wal - doomed;
      assert wal == Pruned(old(wal), timestamp);
    }
  }

  /** What Insert finds wrong when it looks again under the write lock; a generated id that exists is another error. */
  function InsertBarred(fm: Formats, db: Db, e: Entity, generated: bool): Option<Error>
    requires e.typ in db.definitions ==> e.typ in db.uniqueIndices
  {
    if e.typ !in db.definitions then Some(EntityTypeNotFound)
    else if KeyOf(e) in db.entities then Some(if generated then IdGenerationFailed else AlreadyExists)
    else if !UniqueFree(fm, db, e.typ, e.fields, "") then Some(UniqueViolation)
    else None
  }

  /** What Update finds wrong when it looks again: the entity has gone, or another holds a key of the merged fields. */
  function UpdateBarred(fm: Formats, db: Db, typ: string, id: string, changes: Fields): Option<Error>
    requires typ in db.definitions && typ in db.uniqueIndices
  {
    if CreateKey(typ, id) !in db.entities then Some(NotFound)
    else if !UniqueFree(fm, db, typ, db.entities[CreateKey(typ, id)].fields + changes, id) then Some(UniqueViolation)
    else None
  }

  predicate StillThere(db: Db, e: Entity) {
    KeyOf(e) in db.entities && db.entities[KeyOf(e)].id == e.id && db.entities[KeyOf(e)].typ == e.typ
  }

  class Engine {
    const fm: Formats
    const file: WalFile?
    var definitions: map<string, EntityDefinition>
    var entities: map<string, Entity>
    var indices: map<string, TypeIndex>
    var uniqueIndices: map<string, TypeUnique>

    ghost function Db(): Db reads this { Store.Db.Db(definitions, entities, indices, uniqueIndices) }
    ghost function Table(): Table reads this { View(Db()) }
    ghost predicate ListsExact() reads this { A.ListsExact(fm, Db()) }
    ghost predicate Valid() reads this { A.Valid(fm, Db()) }

    ghost function System(): System
      requires file != null
      reads this, file
    {
      Journals.System.System(Table(), file.State())
    }

    constructor (fm: Formats, file: WalFile?)
      ensures this.fm == fm && this.file == file && Valid() && Db() == EMPTY_DB
    {
      this.fm, this.file := fm, file;
      definitions, entities, indices, uniqueIndices := map[], map[], map[], map[];
    }

    // ---------- index upkeep ----------

    /** Cuts the first occurrence of an id out of an id list. */
    method CutId(ids: seq<string>, id: string) returns (left: seq<string>)
      ensures left == RemoveFirst(ids, id)
    {
      left := ids;
      var i := 0;
      while i < |ids|
        invariant 0 <= i <= |ids| && left == ids && id !in ids[..i]
      {
        if ids[i] == id {
          RemoveFirstAt(ids, i);
          left := ids[..i] + ids[i + 1..];
          return;
        }
        i := i + 1;
      }
      RemoveFirstAbsent(ids, id);
    }

    /** updateIndices. */
    method UpdateIndices(e: Entity, add: bool)
      requires e.typ in definitions && e.typ in indices && e.typ in uniqueIndices
      modifies this`indices, this`uniqueIndices
      ensures indices == old(indices)[e.typ := IndexFields(fm, old(indices)[e.typ], definitions[e.typ].fields, e, add)]
      ensures uniqueIndices == old(uniqueIndices)[e.typ := UniqueFields(fm, old(uniqueIndices)[e.typ],
          definitions[e.typ].fields, e, add)]
    {
      var fields := definitions[e.typ].fields;
      var ix := indices[e.typ];
      for i := 0 to |fields|
        invariant indices == old(indices) && uniqueIndices == old(uniqueIndices)
        invariant ix == IndexFields(fm, old(indices)[e.typ], fields[..i], e, add)
      {
        var f := fields[i];
        assert fields[..i + 1][..i] == fields[..i];
        if f.indexed && f.name in e.fields && e.fields[f.name] != Null {
          var value := IndexableValue(fm, e.fields[f.name]);
          if add {
            if f.name !in ix {
              ix := ix[f.name := map[]];
            }
            ix := ix[f.name := ix[f.name][value := Ids(ix, f.name, value) + [e.id]]];
          } else if f.name in ix {
            var left := CutId(Ids(ix, f.name, value), e.id);
            if |left| == 0 {
              ix := ix[f.name := ix[f.name] - {value}];
            } else {
              ix := ix[f.name := ix[f.name][value := left]];
            }
          }
        }
      }
      assert fields[..|fields|] == fields;
      indices := indices[e.typ := ix];
      UpdateUniqueIndices(e, add);
    }

    /** updateUniqueIndices. */
    method UpdateUniqueIndices(e: Entity, add: bool)
      requires e.typ in definitions && e.typ in uniqueIndices
      modifies this`uniqueIndices
      ensures uniqueIndices == old(uniqueIndices)[e.typ := UniqueFields(fm, old(uniqueIndices)[e.typ],
          definitions[e.typ].fields, e, add)]
    {
      var fields := definitions[e.typ].fields;
      var ux := uniqueIndices[e.typ];
      for i := 0 to |fields|
        invariant ux == UniqueFields(fm, old(uniqueIndices)[e.typ], fields[..i], e, add)
      {
        var f := fields[i];
        assert fields[..i + 1][..i] == fields[..i];
        if f.unique && f.name in e.fields && e.fields[f.name] != Null {
          var key := UniqueIndexKey(fm, e.fields[f.name]);
          if add {
            if f.name !in ux {
              ux := ux[f.name := map[]];
            }
            ux := ux[f.name := ux[f.name][key := e.id]];
          } else if f.name in ux {
            ux := ux[f.name := ux[f.name] - {key}];
          }
        }
      }
      assert fields[..|fields|] == fields;
      uniqueIndices := uniqueIndices[e.typ := ux];
    }

    /** Stores an entity and indexes it. */
    method PutEntity(e: Entity)
      requires e.typ in definitions && e.typ in indices && e.typ in uniqueIndices
      modifies this`entities, this`indices, this`uniqueIndices
      ensures Db() == Attach(fm, old(Db()), e)
    {
      entities := entities[CreateKey(e.typ, e.id) := e];
      UpdateIndices(e, true);
    }

    /** Takes an entity out of the indexes and drops it. */
    method DropEntity(e: Entity)
      requires e.typ in definitions && e.typ in indices && e.typ in uniqueIndices
      modifies this`entities, this`indices, this`uniqueIndices
      ensures Db() == Detach(fm, old(Db()), e)
    {
      UpdateIndices(e, false);
      entities := entities - {CreateKey(e.typ, e.id)};
    }

    /** Takes an entity out of the indexes, overwrites it, and indexes the new one. */
    method SwapEntity(e: Entity, e': Entity)
      requires e.typ in definitions && e.typ in indices && e.typ in uniqueIndices && KeyOf(e') == KeyOf(e)
          && e'.typ == e.typ
      modifies this`entities, this`indices, this`uniqueIndices
      ensures Db() == Replace(fm, old(Db()), e, e')
    {
      UpdateIndices(e, false);
      RemoveThenPut(entities, KeyOf(e), e');
      entities := entities[KeyOf(e') := e'];
      UpdateIndices(e', true);
    }

    // ---------- validation ----------

    /** validateUniqueness: one lookup per unique field, in any order. */
    method ValidateUniqueness(typ: string, data: Fields, id: string) returns (ok: bool)
      requires typ in definitions ==> typ in uniqueIndices
      ensures ok <==> typ in definitions && UniqueFree(fm, Db(), typ, data, id)
    {
      if typ !in definitions { return false; }
      var fields, ux := definitions[typ].fields, uniqueIndices[typ];
      var names: set<string> := {};
      for i := 0 to |fields|
        invariant forall name :: name in names <==> exists f :: f in fields[..i] && f.unique && f.name == name
      {
        if fields[i].unique {
          names := names + {fields[i].name};
        }
      }
      var rest := names;
      while rest != {}
        invariant rest <= names
        invariant forall name :: name in names && name !in rest ==> KeyFree(ux, data, name, id)
        decreases rest
      {
        var name :| name in rest;
        if name in data && data[name] != Null {
          var key := UniqueIndexKey(fm, data[name]);
          if name in ux && key in ux[name] && ux[name][key] != id {
            assert exists f :: f in fields && f.unique && f.name == name;
            return false;
          }
        }
        rest := rest - {name};
      }
      assert forall f :: f in fields && f.unique ==> KeyFree(ux, data, f.name, id);
      return true;
    }

    predicate KeyFree(ux: TypeUnique, data: Fields, name: string, id: string) {
      UniqueKey(fm, data, name).Some? ==>
        var owner := Owner(ux, name, UniqueKey(fm, data, name).value);
        owner == None || owner == Some(id)
    }

    /** The loop that refuses reserved names the definition does not mark internal. */
    method CheckNames(def: EntityDefinition, data: Fields) returns (ok: bool)
      ensures ok <==> NamesAllowed(def, data)
    {
      var rest := data.Keys;
      while rest != {}
        invariant rest <= data.Keys
        invariant forall name :: name in data && name !in rest && Reserved(name) ==> InternalField(def, name)
        decreases rest
      {
        var name :| name in rest;
        var isInternal := false;
        for i := 0 to |def.fields|
          invariant isInternal <==> exists f :: f in def.fields[..i] && f.name == name && f.internal
        {
          if def.fields[i].name == name && def.fields[i].internal {
            isInternal := true;
          }
        }
        assert def.fields[..|def.fields|] == def.fields;
        if !isInternal && Reserved(name) {
          return false;
        }
        rest := rest - {name};
      }
      return true;
    }

    /** validateEntityData. */
    method ValidateEntityData(typ: string, data: Fields) returns (error: Option<Error>)
      requires ListsExact() && typ in definitions
      ensures error == if !EntityDataOk(fm, definitions[typ], data) then Some(ValidationFailed)
                       else if !UniqueFree(fm, Db(), typ, data, "") then Some(UniqueViolation) else None
    {
      var def := definitions[typ];
      var ok := CheckNames(def, data);
      if !ok { return Some(ValidationFailed); }
      for i := 0 to |def.fields|
        invariant forall f :: f in def.fields[..i] ==> if f.name in data then ValueOk(fm, f, data[f.name])
            else !f.required
      {
        var f := def.fields[i];
        if f.required && f.name !in data { return Some(ValidationFailed); }
        if f.name in data {
          if data[f.name] == Null {
            if !f.nullable { return Some(ValidationFailed); }
          } else if !TypeAccepts(fm, f.typ, data[f.name]) {
            return Some(ValidationFailed);
          }
        }
      }
      assert def.fields[..|def.fields|] == def.fields;
      ok := ValidateUniqueness(typ, data, "");
      error := if ok then None else Some(UniqueViolation);
    }

    /** validateUpdateData. */
    method ValidateUpdateData(typ: string, id: string, data: Fields) returns (error: Option<Error>)
      requires ListsExact()
      ensures error == if typ !in definitions || !UpdateDataOk(fm, definitions[typ], data) then Some(ValidationFailed)
                       else if !UniqueFree(fm, Db(), typ, data, id) then Some(UniqueViolation) else None
    {
      if typ !in definitions { return Some(ValidationFailed); }
      var def := definitions[typ];
      var ok := CheckNames(def, data);
      if !ok { return Some(ValidationFailed); }
      var rest := data.Keys;
      while rest != {}
        invariant rest <= data.Keys
        invariant forall name :: name in data && name !in rest ==> Declares(def, name)
        invariant forall f :: f in def.fields && f.name in data && f.name !in rest ==> ValueOk(fm, f, data[f.name])
        decreases rest
      {
        var name :| name in rest;
        var f := FindField(def.fields, name);
        if f.None? { return Some(ValidationFailed); }
        if !ValueOk(fm, f.value, data[name]) { return Some(ValidationFailed); }
        rest := rest - {name};
      }
      ok := ValidateUniqueness(typ, data, id);
      error := if ok then None else Some(UniqueViolation);
    }

    /** The first field with the given name. */
    method FindField(fields: seq<FieldDefinition>, name: string) returns (f: Option<FieldDefinition>)
      ensures f.None? <==> forall g :: g in fields ==> g.name != name
      ensures f.Some? ==> f.value in fields && f.value.name == name
    {
      for i := 0 to |fields|
        invariant forall g :: g in fields[..i] ==> g.name != name
      {
        if fields[i].name == name { return Some(fields[i]); }
      }
      assert fields[..|fields|] == fields;
      return None;
    }

    // ---------- registration ----------

    /** ValidateEntityTypeFields: with skipInternal set, as both callers set it, it refuses nothing. */
    method ValidateEntityTypeFields(fields: seq<FieldDefinition>, skipInternal: bool) returns (ok: bool)
      ensures ok <==> skipInternal || forall f :: f in fields && Reserved(f.name) ==> f.internal
    {
      for i := 0 to |fields|
        invariant skipInternal || forall f :: f in fields[..i] && Reserved(f.name) ==> f.internal
      {
        if !fields[i].internal && Reserved(fields[i].name) && !skipInternal {
          return false;
        }
      }
      assert fields[..|fields|] == fields;
      return true;
    }

    /** addInternalFieldDefinitions, and the default generator. */
    method Complete(def: EntityDefinition) returns (completed: EntityDefinition)
      ensures completed == Completed(def)
    {
      var hasCreated, hasUpdated := false, false;
      for i := 0 to |def.fields|
        invariant hasCreated <==> HasField(def.fields[..i], CREATED_AT)
        invariant hasUpdated <==> HasField(def.fields[..i], UPDATED_AT)
      {
        assert def.fields[..i + 1] == def.fields[..i] + [def.fields[i]];
        if def.fields[i].name == CREATED_AT { hasCreated := true; }
        if def.fields[i].name == UPDATED_AT { hasUpdated := true; }
      }
      assert def.fields[..|def.fields|] == def.fields;
      var fields := def.fields;
      if !hasCreated { fields := fields + [InternalDefinition(CREATED_AT)]; }
      if !hasUpdated { fields := fields + [InternalDefinition(UPDATED_AT)]; }
      completed := EntityDefinition(def.name, fields, if def.idGenerator == Unspecified then AutoIncrement
          else def.idGenerator);
    }

    /** RegisterEntityType. */
    method RegisterEntityType(def: EntityDefinition, disk: bool) returns (o: Outcome)
      requires ListsExact() && Registrable(def)
      modifies this, file
      ensures ListsExact() && (old(Valid()) ==> Valid())
      ensures file == null ==> (Table(), o) == Register(old(Table()), def)
      ensures file != null ==> (System(), o) == Persisted(fm, old(System()), OpRegister(def), 0, disk)
    {
      if def.name in definitions { return Failed(EntityTypeExists); }
      var allowed := ValidateEntityTypeFields(def.fields, true);
      if !allowed { return Failed(ValidationFailed); }
      var completed := Complete(def);
      CompletedDistinct(def);
      if file != null { PersistedWhenDone(fm, System(), OpRegister(def), 0, disk, Register(Table(), def).0); }
      var ix, ux := FreshIndexes(completed);
      NewTypeKeepsLists(fm, Db(), completed, ix, ux);
      if Valid() { NewTypeKeepsValid(fm, Db(), completed, ix, ux); }
      definitions := definitions[def.name := completed];
      indices, uniqueIndices := indices[def.name := ix], uniqueIndices[def.name := ux];
      if file != null {
        var ok := file.WriteEntry(OpRegister(completed), disk);
        if !ok {
          PutThenRemove(old(definitions), def.name, completed);
          PutThenRemove(old(indices), def.name, ix);
          PutThenRemove(old(uniqueIndices), def.name, ux);
          definitions := definitions - {def.name};
          indices := indices - {def.name};
          uniqueIndices := uniqueIndices - {def.name};
          return Failed(PersistenceFailed);
        }
      }
      return Done;
    }

    /**
     * Empty index structures for a new type; a unique field gets an index too, though its definition does not say so.
     */
    method FreshIndexes(def: EntityDefinition) returns (ix: TypeIndex, ux: TypeUnique)
      ensures forall name :: name in ix ==> ix[name] == map[]
      ensures forall name :: name in ux ==> ux[name] == map[]
      ensures ix.Keys == set f | f in def.fields && (f.indexed || f.unique) :: f.name
      ensures ux.Keys == set f | f in def.fields && f.unique :: f.name
    {
      ix, ux := map[], map[];
      for i := 0 to |def.fields|
        invariant forall name :: name in ix ==> ix[name] == map[]
        invariant forall name :: name in ux ==> ux[name] == map[]
        invariant ix.Keys == set f | f in def.fields[..i] && (f.indexed || f.unique) :: f.name
        invariant ux.Keys == set f | f in def.fields[..i] && f.unique :: f.name
      {
        var f := def.fields[i];
        assert def.fields[..i + 1] == def.fields[..i] + [f];
        if f.indexed {
          ix := ix[f.name := map[]];
        }
        if f.unique {
          if !f.indexed {
            ix := ix[f.name := map[]];
          }
          ux := ux[f.name := map[]];
        }
      }
      assert def.fields[..|def.fields|] == def.fields;
    }

    // ---------- insert, update, delete ----------

    /** Insert. An empty id is replaced by the generator's answer, which fits its own format. */
    method Insert(typ: string, givenId: string, data: Fields, generated: Option<string>, now: int, disk: bool)
        returns (o: Outcome)
      requires ListsExact()
      requires givenId == "" && typ in definitions && generated.Some? ==>
          ValidId(definitions[typ].idGenerator, generated.value)
      modifies this, file
      ensures ListsExact() && (old(Valid()) ==> Valid())
      ensures typ in old(definitions) && givenId == "" && generated.None? ==>
          o == Failed(IdGenerationFailed) && Db() == old(Db())
      ensures old(Valid()) && !(typ in old(definitions) && givenId == "" && generated.None?) ==>
        var id := if givenId == "" && generated.Some? then generated.value else givenId;
        && (file == null ==> (Table(), o) == Tables.Insert(fm, old(Table()), typ, id, data, now))
        && (file != null ==> (System(), o) == Persisted(fm, old(System()), OpInsert(typ, id, data), now, disk))
      ensures old(Valid()) && o.Failed? ==> LookupsAlike(old(Db()), Db())
    {
      if Valid() { RestoredAlike(fm, Db(), Db()); }
      if typ !in definitions {
        if file != null { PersistedWhenFailed(fm, System(), OpInsert(typ, givenId, data), now, disk,
            EntityTypeNotFound); }
        return Failed(EntityTypeNotFound);
      }
      if givenId == "" && generated.None? { return Failed(IdGenerationFailed); }
      var id := if givenId == "" then generated.value else givenId;
      var error, stamped := PrepareInsert(typ, id, data, now);
      if error.Some? {
        if Valid() && file != null {
          PersistedWhenFailed(fm, System(), OpInsert(typ, id, data), now, disk, error.value);
        }
        return Failed(error.value);
      }
      o := InsertChecked(typ, id, data, stamped, givenId == "", now, disk);
    }

    /** Insert, once its checks have passed. */
    method InsertChecked(typ: string, id: string, data: Fields, stamped: Fields, generated: bool, now: int, disk: bool)
      returns (o: Outcome)
      requires ListsExact() && id != "" && stamped == Stamped(data, now)
      requires Valid() ==> InsertError(fm, Table(), typ, id, stamped).None?
      modifies this, file
      ensures ListsExact() && (old(Valid()) ==> Valid())
      ensures old(Valid()) && file == null ==> (Table(), o) == Tables.Insert(fm, old(Table()), typ, id, data, now)
      ensures old(Valid()) && file != null ==>
        (System(), o) == Persisted(fm, old(System()), OpInsert(typ, id, data), now, disk)
      ensures old(Valid()) && o.Failed? ==> LookupsAlike(old(Db()), Db())
    {
      var e := Entity(id, typ, stamped);
      ghost var db := Db();
      InsertKeepsLists(fm, db, e, generated);
      if Valid() {
        InsertSteps(fm, db, typ, id, data, now);
        if file != null { InsertPersisted(fm, System(), typ, id, data, now, disk, View(Attach(fm, db, e))); }
        RestoredAlike(fm, db, Detach(fm, Attach(fm, db, e), e));
      }
      o := CommitInsert(e, generated, disk);
    }

    /** The checks of Insert and prepareEntityForInsert, before the write lock is taken. */
    method PrepareInsert(typ: string, id: string, data: Fields, now: int)
        returns (error: Option<Error>, stamped: Fields)
      requires ListsExact() && typ in definitions
      ensures stamped == Stamped(data, now) && (error.None? ==> id != "")
      ensures Valid() ==> error == InsertError(fm, Table(), typ, id, stamped)
    {
      stamped := data;
      if CREATED_AT !in stamped { stamped := stamped[CREATED_AT := Time(now)]; }
      stamped := stamped[UPDATED_AT := Time(now)];
      if !ValidId(definitions[typ].idGenerator, id) { return Some(InvalidId), stamped; }
      error := ValidateEntityData(typ, stamped);
      if Valid() { UniqueFreeIsScan(fm, Db(), typ, stamped, ""); }
      if error.None? && CreateKey(typ, id) in entities {
        error := Some(AlreadyExists);
      }
    }

    /** The part of Insert under the write lock, which checks again, the log write, and the rollback when that fails. */
    method CommitInsert(e: Entity, generated: bool, disk: bool) returns (o: Outcome)
      requires e.typ in definitions ==> e.typ in indices && e.typ in uniqueIndices
      modifies this`entities, this`indices, this`uniqueIndices, file
      ensures var barred := InsertBarred(fm, old(Db()), e, generated);
              if barred.Some? then o == Failed(barred.value) && Db() == old(Db())
                  && (file != null ==> file.State() == old(file.State()))
              else
                && o == (if file == null || disk then Done else Failed(PersistenceFailed))
                && Db() == (if o == Done then Attach(fm, old(Db()), e) else Detach(fm, Attach(fm, old(Db()), e), e))
                && (file != null ==> file.State() == Attempted(old(file.State()), OpInsert(e.typ, e.id, e.fields),
                    disk))
    {
      if e.typ !in definitions { return Failed(EntityTypeNotFound); }
      if KeyOf(e) in entities { return Failed(if generated then IdGenerationFailed else AlreadyExists); }
      var free := ValidateUniqueness(e.typ, e.fields, "");
      if !free { return Failed(UniqueViolation); }
      PutEntity(e);
      if file != null {
        var ok := file.WriteEntry(OpInsert(e.typ, e.id, e.fields), disk);
        if !ok {
          DropEntity(e);
          return Failed(PersistenceFailed);
        }
      }
      return Done;
    }

    /** Update. */
    method Update(typ: string, id: string, data: Fields, now: int, disk: bool) returns (o: Outcome)
      requires ListsExact() && NoColon(typ)
      modifies this, file
      ensures ListsExact() && (old(Valid()) ==> Valid())
      ensures old(Valid()) && file == null ==> (Table(), o) == Tables.Update(fm, old(Table()), typ, id, data, now)
      ensures old(Valid()) && file != null ==>
        (System(), o) == Persisted(fm, old(System()), OpUpdate(typ, id, data), now, disk)
      ensures old(Valid()) && o.Failed? ==> LookupsAlike(old(Db()), Db())
    {
      if Valid() { RestoredAlike(fm, Db(), Db()); }
      var error, changes := PrepareUpdate(typ, id, data, now);
      if error.Some? {
        if Valid() && file != null {
          PersistedWhenFailed(fm, System(), OpUpdate(typ, id, data), now, disk, error.value);
        }
        return Failed(error.value);
      }
      o := UpdateChecked(typ, id, data, changes, now, disk);
    }

    /** Update, once its checks have passed. */
    method UpdateChecked(typ: string, id: string, data: Fields, changes: Fields, now: int, disk: bool)
        returns (o: Outcome)
      requires ListsExact() && NoColon(typ) && changes == Restamped(data, now) && CreateKey(typ, id) in entities
      requires Valid() ==> UpdateError(fm, Table(), typ, id, changes).None?
      modifies this, file
      ensures ListsExact() && (old(Valid()) ==> Valid())
      ensures old(Valid()) && file == null ==> (Table(), o) == Tables.Update(fm, old(Table()), typ, id, data, now)
      ensures old(Valid()) && file != null ==>
        (System(), o) == Persisted(fm, old(System()), OpUpdate(typ, id, data), now, disk)
      ensures old(Valid()) && o.Failed? ==> LookupsAlike(old(Db()), Db())
    {
      var original := entities[CreateKey(typ, id)];
      var e := Updated(original, changes);
      ghost var db := Db();
      StoredUnderKey(db, typ, id);
      UpdateKeepsLists(fm, db, original, changes);
      if Valid() {
        UpdateSteps(fm, db, typ, id, data, changes, now);
        ghost var after := Replace(fm, db, original, e);
        if file != null { UpdatePersisted(fm, System(), typ, id, data, changes, now, disk, View(after)); }
        RestoredAlike(fm, db, Replace(fm, after, e, original));
      }
      o := CommitUpdate(original, changes, disk);
    }

    /** The checks of Update: existence, the changed fields, and uniqueness of the changes and of the merged fields. */
    method PrepareUpdate(typ: string, id: string, data: Fields, now: int)
        returns (error: Option<Error>, changes: Fields)
      requires ListsExact() && NoColon(typ)
      ensures changes == Restamped(data, now) && (error.None? ==> CreateKey(typ, id) in entities)
      ensures Valid() ==> error == UpdateError(fm, Table(), typ, id, changes)
    {
      changes := data[UPDATED_AT := Time(now)] - {CREATED_AT};
      var key := CreateKey(typ, id);
      if key !in entities {
        FallbackNeverMatches(Db(), typ, id);
        return Some(NotFound), changes;
      }
      StoredUnderKey(Db(), typ, id);
      var merged := entities[key].fields + changes;
      if Valid() {
        UniqueFreeIsScan(fm, Db(), typ, changes, id);
        UniqueFreeIsScan(fm, Db(), typ, merged, id);
      }
      ChangesClashInMerged(fm, definitions[typ], entities, entities[key].fields, changes, id);
      error := ValidateUpdateData(typ, id, changes);
      if error.None? {
        var ok := ValidateUniqueness(typ, merged, id);
        if !ok { error := Some(UniqueViolation); }
      }
    }

    /**
     * The part of Update under the write lock, which reads the entity and checks again, the log write, and the
     * rollback.
     */
    method CommitUpdate(original: Entity, changes: Fields, disk: bool) returns (o: Outcome)
      requires original.typ in definitions && original.typ in indices && original.typ in uniqueIndices
      requires KeyOf(original) in entities ==>
        entities[KeyOf(original)].typ == original.typ && entities[KeyOf(original)].id == original.id
      modifies this`entities, this`indices, this`uniqueIndices, file
      ensures var barred := UpdateBarred(fm, old(Db()), original.typ, original.id, changes);
              if barred.Some? then o == Failed(barred.value) && Db() == old(Db())
                  && (file != null ==> file.State() == old(file.State()))
              else
                var e := old(entities[KeyOf(original)]);
                var after := Replace(fm, old(Db()), e, Updated(e, changes));
                && o == (if file == null || disk then Done else Failed(PersistenceFailed))
                && Db() == (if o == Done then after else Replace(fm, after, Updated(e, changes), original))
                && (file != null ==> file.State() == Attempted(old(file.State()),
                    OpUpdate(original.typ, original.id, changes), disk))
    {
      if KeyOf(original) !in entities { return Failed(NotFound); }
      var e := entities[KeyOf(original)];
      var free := ValidateUniqueness(original.typ, e.fields + changes, original.id);
      if !free { return Failed(UniqueViolation); }
      SwapEntity(e, Updated(e, changes));
      if file != null {
        var ok := file.WriteEntry(OpUpdate(original.typ, original.id, changes), disk);
        if !ok {
          SwapEntity(Updated(e, changes), original);
          return Failed(PersistenceFailed);
        }
      }
      return Done;
    }

    /** Delete. */
    method Delete(typ: string, id: string, disk: bool) returns (o: Outcome)
      requires ListsExact() && NoColon(typ)
      modifies this, file
      ensures ListsExact() && (old(Valid()) ==> Valid())
      ensures file == null ==> (Table(), o) == Tables.Delete(old(Table()), typ, id)
      ensures file != null ==> (System(), o) == Persisted(fm, old(System()), OpDelete(typ, id), 0, disk)
      ensures old(Valid()) && o.Failed? ==> LookupsAlike(old(Db()), Db())
    {
      if Valid() { RestoredAlike(fm, Db(), Db()); }
      var key := CreateKey(typ, id);
      if key !in entities {
        FallbackNeverMatches(Db(), typ, id);
        if file != null { PersistedWhenFailed(fm, System(), OpDelete(typ, id), 0, disk, NotFound); }
        return Failed(NotFound);
      }
      var e := entities[key];
      StoredUnderKey(Db(), typ, id);
      ghost var db := Db();
      DeleteKeepsLists(fm, db, e);
      if file != null { PersistedWhenDone(fm, System(), OpDelete(typ, id), 0, disk, View(Detach(fm, db, e))); }
      if Valid() {
        DeleteAndUndo(fm, db, e);
        RestoredAlike(fm, db, Attach(fm, Detach(fm, db, e), e));
      }
      o := CommitDelete(e, disk);
    }

    /** The part of Delete under the write lock, which reads the entity again, the log write, and the rollback. */
    method CommitDelete(original: Entity, disk: bool) returns (o: Outcome)
      requires original.typ in definitions && original.typ in indices && original.typ in uniqueIndices
      modifies this`entities, this`indices, this`uniqueIndices, file
      ensures if !StillThere(old(Db()), original) then
                o == Failed(NotFound) && Db() == old(Db()) && (file != null ==> file.State() == old(file.State()))
              else
                var e := old(entities[KeyOf(original)]);
                && o == (if file == null || disk then Done else Failed(PersistenceFailed))
                && Db() == (if o == Done then Detach(fm, old(Db()), e)
                    else Attach(fm, Detach(fm, old(Db()), e), original))
                && (file != null ==> file.State() == Attempted(old(file.State()), OpDelete(original.typ, original.id),
                    disk))
    {
      if KeyOf(original) !in entities { return Failed(NotFound); }
      var e := entities[KeyOf(original)];
      if e.id != original.id || e.typ != original.typ { return Failed(NotFound); }
      DropEntity(e);
      if file != null {
        var ok := file.WriteEntry(OpDelete(original.typ, original.id), disk);
        if !ok {
          PutEntity(original);
          return Failed(PersistenceFailed);
        }
      }
      return Done;
    }

    // ---------- truncation ----------

    /** TruncateEntityType; a failed log write is reported but not taken back. */
    method TruncateEntityType(typ: string, disk: bool) returns (o: Outcome)
      requires ListsExact()
      modifies this, file
      ensures ListsExact() && (old(Valid()) ==> Valid())
      ensures file == null ==> (Table(), o) == TruncateType(old(Table()), typ)
      ensures file != null ==> (System(), o) == Persisted(fm, old(System()), OpTruncateType(typ), 0, disk)
    {
      if typ !in definitions {
        if file != null { PersistedWhenFailed(fm, System(), OpTruncateType(typ), 0, disk, EntityTypeNotFound); }
        return Failed(EntityTypeNotFound);
      }
      var keys := KeysOfType(typ);
      if |keys| == 0 {
        assert forall key :: key in entities ==> !OfType(entities, key, typ);
        if file != null { PersistedTruncate(fm, System(), typ, disk); }
        TruncateNothing(Table(), typ);
        return Done;
      }
      o := TruncateKeys(typ, keys, disk);
    }

    /** TruncateEntityType, once it has found entities to remove. */
    method TruncateKeys(typ: string, keys: seq<string>, disk: bool) returns (o: Outcome)
      requires ListsExact() && typ in definitions && keys != []
      requires Distinct(keys) && forall key :: key in keys <==> OfType(entities, key, typ)
      modifies this, file
      ensures ListsExact() && (old(Valid()) ==> Valid())
      ensures file == null ==> (Table(), o) == TruncateType(old(Table()), typ)
      ensures file != null ==> (System(), o) == Persisted(fm, old(System()), OpTruncateType(typ), 0, disk)
    {
      assert OfType(entities, keys[0], typ);
      if file != null { PersistedTruncate(fm, System(), typ, disk); }
      DropKeys(typ, keys);
      assert entities == TruncateType(old(Table()), typ).0.entities;
      if file != null {
        var ok := file.WriteEntry(OpTruncateType(typ), disk);
        if !ok { return Failed(PersistenceFailed); }
      }
      return Done;
    }

    method KeysOfType(typ: string) returns (keys: seq<string>)
      ensures Distinct(keys) && forall key :: key in keys <==> OfType(entities, key, typ)
    {
      keys := [];
      var rest := entities.Keys;
      while rest != {}
        invariant rest <= entities.Keys && Distinct(keys)
        invariant forall key :: key in keys <==> OfType(entities, key, typ) && key !in rest
        decreases rest
      {
        var key :| key in rest;
        if entities[key].typ == typ {
          keys := keys + [key];
        }
        rest := rest - {key};
      }
    }

    method DropKeys(typ: string, keys: seq<string>)
      requires ListsExact() && Distinct(keys) && forall key :: key in keys ==> key in entities
      modifies this`entities, this`indices, this`uniqueIndices
      ensures ListsExact() && (old(Valid()) ==> Valid()) && entities == old(entities) - (set key | key in keys)
    {
      assert entities == old(entities) - (set key | key in keys[..0]);
      for i := 0 to |keys|
        invariant ListsExact() && (old(Valid()) ==> Valid()) && definitions == old(definitions)
        invariant entities == old(entities) - (set key | key in keys[..i])
      {
        assert keys[..i + 1] == keys[..i] + [keys[i]];
        var e := entities[keys[i]];
        DetachKeepsLists(fm, Db(), e);
        if Valid() { DetachKeepsValid(fm, Db(), e); }
        DropEntity(e);
        MinusMore(old(entities), keys[..i], keys[i]);
      }
      assert keys[..|keys|] == keys;
    }

    /** TruncateDatabase: forget every entity and start the index structures afresh, which mends a wrong one. */
    method TruncateDatabase(disk: bool) returns (o: Outcome)
      requires ListsExact()
      modifies this, file
      ensures ListsExact() && (old(Valid()) || old(entities) != map[] ==> Valid())
      ensures file == null ==> (Table(), o) == Tables.TruncateDatabase(old(Table()))
      ensures file != null ==> (System(), o) == Persisted(fm, old(System()), OpTruncateDatabase, 0, disk)
    {
      if |entities.Keys| == 0 {
        assert entities == map[];
        return Done;
      }
      if file != null { PersistedClear(fm, System(), disk); }
      ClearedIsValid(fm, Db());
      ClearAll();
      if file != null {
        var ok := file.WriteEntry(OpTruncateDatabase, disk);
        if !ok { return Failed(PersistenceFailed); }
      }
      return Done;
    }

    method ClearAll()
      modifies this`entities, this`indices, this`uniqueIndices
      ensures Db() == Cleared(old(Db()))
    {
      entities := map[];
      ResetIndices();
      ResetUniqueIndices();
    }

    method ResetIndices()
      modifies this`indices
      ensures indices == map typ | typ in old(indices) :: if typ in definitions then EmptyIndex(definitions[typ])
          else map[]
    {
      var rest := indices.Keys;
      while rest != {}
        invariant rest <= indices.Keys == old(indices).Keys
        invariant forall typ :: typ in indices && typ !in rest ==>
          indices[typ] == if typ in definitions then EmptyIndex(definitions[typ]) else map[]
        decreases rest
      {
        var typ :| typ in rest;
        indices := indices[typ := map[]];
        if typ in definitions {
          var ix := BlankIndex(definitions[typ]);
          indices := indices[typ := ix];
        }
        rest := rest - {typ};
      }
    }

    method BlankIndex(def: EntityDefinition) returns (ix: TypeIndex)
      ensures ix == EmptyIndex(def)
    {
      ix := map[];
      for i := 0 to |def.fields|
        invariant ix == map f | f in def.fields[..i] && f.indexed :: f.name := map[]
      {
        assert def.fields[..i + 1] == def.fields[..i] + [def.fields[i]];
        if def.fields[i].indexed { ix := ix[def.fields[i].name := map[]]; }
      }
      assert def.fields[..|def.fields|] == def.fields;
    }

    method ResetUniqueIndices()
      modifies this`uniqueIndices
      ensures uniqueIndices == map typ | typ in old(uniqueIndices) :: if typ in definitions
          then EmptyUnique(definitions[typ]) else map[]
    {
      var rest := uniqueIndices.Keys;
      while rest != {}
        invariant rest <= uniqueIndices.Keys == old(uniqueIndices).Keys
        invariant forall typ :: typ in uniqueIndices && typ !in rest ==>
          uniqueIndices[typ] == if typ in definitions then EmptyUnique(definitions[typ]) else map[]
        decreases rest
      {
        var typ :| typ in rest;
        uniqueIndices := uniqueIndices[typ := map[]];
        if typ in definitions {
          var ux := BlankUnique(definitions[typ]);
          uniqueIndices := uniqueIndices[typ := ux];
        }
        rest := rest - {typ};
      }
    }

    method BlankUnique(def: EntityDefinition) returns (ux: TypeUnique)
      ensures ux == EmptyUnique(def)
    {
      ux := map[];
      for i := 0 to |def.fields|
        invariant ux == map f | f in def.fields[..i] && f.unique :: f.name := map[]
      {
        assert def.fields[..i + 1] == def.fields[..i] + [def.fields[i]];
        if def.fields[i].unique { ux := ux[def.fields[i].name := map[]]; }
      }
      assert def.fields[..|def.fields|] == def.fields;
    }

    // ---------- lookup ----------

    /** Get by bare id: the id as a key first, then a walk over all keys. met is the key the walk stopped at. */
    method Get(id: string) returns (e: Option<Entity>, ghost met: string)
      requires ListsExact()
      ensures e.Some? <==> GetFinds(entities.Keys, id)
      ensures e.Some? ==> e.value == entities[GetKey(entities.Keys, id, met)]
    {
      if id in entities { return Some(entities[id]), id; }
      var rest := entities.Keys;
      while rest != {}
        invariant rest <= entities.Keys
        invariant forall key :: key in entities && key !in rest ==> ParseKey(key).1 != id
        decreases rest
      {
        var key :| key in rest;
        if ParseKey(key).1 == id { return Some(entities[key]), key; }
        rest := rest - {key};
      }
      return None, "";
    }
  }

  lemma MinusMore(entities: map<string, Entity>, keys: seq<string>, key: string)
    ensures entities - (set k | k in keys) - {key} == entities - (set k | k in keys + [key])
  {
  }

  lemma TruncateNothing(t: Table, typ: string)
    requires typ in t.definitions && forall key :: key in t.entities ==> t.entities[key].typ != typ
    ensures TruncateType(t, typ) == (t, Done)
  {
    assert TruncateType(t, typ).0.entities == t.entities;
  }

  lemma PersistedClear(fm: Formats, s: System, disk: bool)
    requires s.table.entities != map[]
    ensures Persisted(fm, s, OpTruncateDatabase, 0, disk) ==
            (System(s.table.(entities := map[]), Attempted(s.journal, OpTruncateDatabase, disk)), if disk then Done
                else Failed(PersistenceFailed))
  {
  }

  lemma PersistedTruncate(fm: Formats, s: System, typ: string, disk: bool)
    requires typ in s.table.definitions
    ensures Persisted(fm, s, OpTruncateType(typ), 0, disk) ==
            if exists key :: key in s.table.entities && OfType(s.table.entities, key, typ)
            then (System(TruncateType(s.table, typ).0, Attempted(s.journal, OpTruncateType(typ), disk)),
                  if disk then Done else Failed(PersistenceFailed))
            else (System(TruncateType(s.table, typ).0, s.journal), Done)
  {
  }

  // ---------- what a call does, and what its rollback undoes ----------

  lemma InsertOutcome(fm: Formats, t: Table, typ: string, id: string, data: Fields, now: int, t': Table)
    requires InsertError(fm, t, typ, id, Stamped(data, now)).None?
    requires t' == t.(entities := t.entities[CreateKey(typ, id) := Entity(id, typ, Stamped(data, now))])
    ensures Tables.Insert(fm, t, typ, id, data, now) == (t', Done)
  {
  }

  lemma UpdateOutcome(fm: Formats, t: Table, typ: string, id: string, data: Fields, now: int, t': Table)
    requires UpdateError(fm, t, typ, id, Restamped(data, now)).None?
    requires var key := CreateKey(typ, id);
        t' == t.(entities := t.entities[key := Updated(t.entities[key], Restamped(data, now))])
    ensures Tables.Update(fm, t, typ, id, data, now) == (t', Done)
  {
  }

  lemma InsertPersisted(fm: Formats, s: System, typ: string, id: string, data: Fields, now: int, disk: bool, t': Table)
    requires Tables.Insert(fm, s.table, typ, id, data, now) == (t', Done)
    ensures Persisted(fm, s, OpInsert(typ, id, data), now, disk) ==
            (Journals.System.System(if disk then t' else s.table,
                Attempted(s.journal, OpInsert(typ, id, Stamped(data, now)), disk)),
             if disk then Done else Failed(PersistenceFailed))
  {
    PersistedWhenDone(fm, s, OpInsert(typ, id, data), now, disk, t');
  }

  /** Everything a checked insert needs to know about storing the entity, the outcome, and the rollback. */
  lemma InsertSteps(fm: Formats, db: Db, typ: string, id: string, data: Fields, now: int)
    requires A.Valid(fm, db) && id != "" && InsertError(fm, View(db), typ, id, Stamped(data, now)).None?
    ensures var e := Entity(id, typ, Stamped(data, now));
            var after := Attach(fm, db, e);
            && InsertBarred(fm, db, e, true).None? && InsertBarred(fm, db, e, false).None?
            && A.Valid(fm, after) && Tables.Insert(fm, View(db), typ, id, data, now) == (View(after), Done)
            && A.Valid(fm, Detach(fm, after, e)) && View(Detach(fm, after, e)) == View(db)
  {
    var e := Entity(id, typ, Stamped(data, now));
    UniqueFreeIsScan(fm, db, typ, e.fields, "");
    InsertAndUndo(fm, db, e);
    InsertOutcome(fm, View(db), typ, id, data, now, View(Attach(fm, db, e)));
  }

  lemma UpdatePersisted(fm: Formats, s: System, typ: string, id: string, data: Fields, changes: Fields, now: int,
      disk: bool, t': Table)
    requires changes == Restamped(data, now) && Tables.Update(fm, s.table, typ, id, data, now) == (t', Done)
    ensures Persisted(fm, s, OpUpdate(typ, id, data), now, disk) ==
            (Journals.System.System(if disk then t' else s.table, Attempted(s.journal, OpUpdate(typ, id, changes),
                disk)),
             if disk then Done else Failed(PersistenceFailed))
  {
    PersistedWhenDone(fm, s, OpUpdate(typ, id, data), now, disk, t');
  }

  /** Everything a checked update needs to know about the swap, its outcome, and its rollback. */
  lemma UpdateSteps(fm: Formats, db: Db, typ: string, id: string, data: Fields, changes: Fields, now: int)
    requires A.Valid(fm, db) && NoColon(typ) && changes == Restamped(data, now)
        && UpdateError(fm, View(db), typ, id, changes).None?
    ensures var e := db.entities[CreateKey(typ, id)];
            && e.typ == typ && e.id == id && UpdateBarred(fm, db, typ, id, changes).None?
            && var after := Replace(fm, db, e, Updated(e, changes));
            && A.Valid(fm, after) && Tables.Update(fm, View(db), typ, id, data, now) == (View(after), Done)
            && A.Valid(fm, Replace(fm, after, Updated(e, changes), e))
                && View(Replace(fm, after, Updated(e, changes), e)) == View(db)
  {
    StoredUnderKey(db, typ, id);
    var e := db.entities[CreateKey(typ, id)];
    UniqueFreeIsScan(fm, db, typ, e.fields + changes, id);
    UpdateAndUndo(fm, db, e, Updated(e, changes));
    UpdateOutcome(fm, View(db), typ, id, data, now, View(Replace(fm, db, e, Updated(e, changes))));
  }

  lemma InsertAndUndo(fm: Formats, db: Db, e: Entity)
    requires A.Valid(fm, db) && e.typ in db.definitions && e.id != "" && KeyOf(e) !in db.entities
    requires !Clashes(fm, db.definitions[e.typ], db.entities, e.fields, "")
    ensures var db' := Attach(fm, db, e);
        A.Valid(fm, db') && A.Valid(fm, Detach(fm, db', e))
        && View(Detach(fm, db', e)) == View(db)
  {
    ClashOnlyWithOthers(fm, db.definitions[e.typ], db.entities, e.fields, e.id);
    AttachKeepsValid(fm, db, e);
    DetachKeepsValid(fm, Attach(fm, db, e), e);
    PutThenRemove(db.entities, KeyOf(e), e);
  }

  lemma DeleteAndUndo(fm: Formats, db: Db, e: Entity)
    requires A.Valid(fm, db) && KeyOf(e) in db.entities && db.entities[KeyOf(e)] == e
    ensures var db' := Detach(fm, db, e);
        A.Valid(fm, db') && A.Valid(fm, Attach(fm, db', e))
        && View(Attach(fm, db', e)) == View(db)
  {
    var db' := Detach(fm, db, e);
    NoClashWhenStored(fm, db, e);
    FewerClashes(fm, db.definitions[e.typ], db.entities, db'.entities, e.fields, e.id);
    DetachKeepsValid(fm, db, e);
    AttachKeepsValid(fm, db', e);
    RemoveThenPut(db.entities, KeyOf(e), e);
    PutSame(db.entities, KeyOf(e));
  }

  lemma UpdateAndUndo(fm: Formats, db: Db, e: Entity, e': Entity)
    requires A.Valid(fm, db) && KeyOf(e) in db.entities && db.entities[KeyOf(e)] == e
    requires e'.typ == e.typ && e'.id == e.id && !Clashes(fm, db.definitions[e.typ], db.entities, e'.fields, e.id)
    ensures var db' := Replace(fm, db, e, e');
            && A.Valid(fm, db') && View(db') == View(db).(entities := db.entities[KeyOf(e) := e'])
            && A.Valid(fm, Replace(fm, db', e', e)) && View(Replace(fm, db', e', e)) == View(db)
  {
    var db' := Replace(fm, db, e, e');
    ReplaceKeepsValid(fm, db, e, e');
    NoClashWhenStored(fm, db, e);
    ClashesIgnoreOwn(fm, db.definitions[e.typ], db.entities, e', e.fields);
    ReplaceKeepsValid(fm, db', e', e);
    PutTwice(db.entities, KeyOf(e), e', e);
    PutSame(db.entities, KeyOf(e));
  }

  lemma NewTypeKeepsLists(fm: Formats, db: Db, def: EntityDefinition, ix: TypeIndex, ux: TypeUnique)
    requires A.ListsExact(fm, db) && def.name !in db.definitions && NoColon(def.name) && DistinctNames(def.fields)
    requires forall name :: name in ix ==> ix[name] == map[]
    ensures A.ListsExact(fm, Store.Db.Db(db.definitions[def.name := def], db.entities, db.indices[def.name := ix],
        db.uniqueIndices[def.name := ux]))
  {
    var db' := Store.Db.Db(db.definitions[def.name := def], db.entities, db.indices[def.name := ix],
        db.uniqueIndices[def.name := ux]);
    forall id ensures CreateKey(def.name, id) !in db.entities {
      StoredUnderKey(db, def.name, id);
    }
    forall typ, f, value | typ in db'.definitions && f in db'.definitions[typ].fields && f.indexed
        ensures ListedRight(fm, db', typ, f, value)
    {
      assert typ != def.name ==> ListedRight(fm, db, typ, f, value);
    }
  }

  lemma NewTypeKeepsValid(fm: Formats, db: Db, def: EntityDefinition, ix: TypeIndex, ux: TypeUnique)
    requires A.Valid(fm, db) && def.name !in db.definitions && NoColon(def.name) && DistinctNames(def.fields)
    requires forall name :: name in ix ==> ix[name] == map[]
    requires forall name :: name in ux ==> ux[name] == map[]
    ensures A.Valid(fm, Store.Db.Db(db.definitions[def.name := def], db.entities, db.indices[def.name := ix],
        db.uniqueIndices[def.name := ux]))
  {
    var db' := Store.Db.Db(db.definitions[def.name := def], db.entities, db.indices[def.name := ix],
        db.uniqueIndices[def.name := ux]);
    NewTypeKeepsLists(fm, db, def, ix, ux);
    forall id ensures CreateKey(def.name, id) !in db.entities {
      StoredUnderKey(db, def.name, id);
    }
    forall typ, f, key | typ in db'.definitions && f in db'.definitions[typ].fields && f.unique
        ensures OwnedRight(fm, db', typ, f, key)
    {
      assert typ != def.name ==> OwnedRight(fm, db, typ, f, key);
    }
  }

  /** What an insert, its rollback included, leaves of the id lists when the unique index may be wrong. */
  lemma InsertKeepsLists(fm: Formats, db: Db, e: Entity, generated: bool)
    requires A.ListsExact(fm, db) && e.id != ""
    ensures InsertBarred(fm, db, e, generated).None? ==>
        A.ListsExact(fm, Attach(fm, db, e)) && A.ListsExact(fm, Detach(fm, Attach(fm, db, e), e))
  {
    if InsertBarred(fm, db, e, generated).None? {
      AttachKeepsLists(fm, db, e);
      DetachKeepsLists(fm, Attach(fm, db, e), e);
    }
  }

  lemma UpdateKeepsLists(fm: Formats, db: Db, e: Entity, changes: Fields)
    requires A.ListsExact(fm, db) && KeyOf(e) in db.entities && db.entities[KeyOf(e)] == e
    ensures var after := Replace(fm, db, e, Updated(e, changes));
            A.ListsExact(fm, after) && A.ListsExact(fm, Replace(fm, after, Updated(e, changes), e))
  {
    ReplaceKeepsLists(fm, db, e, Updated(e, changes));
    ReplaceStructured(fm, db, e, Updated(e, changes));
    ReplaceKeepsLists(fm, Replace(fm, db, e, Updated(e, changes)), Updated(e, changes), e);
  }

  lemma DeleteKeepsLists(fm: Formats, db: Db, e: Entity)
    requires A.ListsExact(fm, db) && KeyOf(e) in db.entities && db.entities[KeyOf(e)] == e
    ensures var db' := Detach(fm, db, e);
            && A.ListsExact(fm, db') && A.ListsExact(fm, Attach(fm, db', e))
            && View(Attach(fm, db', e)) == View(db)
  {
    DetachKeepsLists(fm, db, e);
    AttachKeepsLists(fm, Detach(fm, db, e), e);
    RemoveThenPut(db.entities, KeyOf(e), e);
    PutSame(db.entities, KeyOf(e));
  }

  /** The legacy searches of Update and Delete, by bare id and type, find nothing the composite key did not find. */
  lemma FallbackNeverMatches(db: Db, typ: string, id: string)
    requires WellKeyed(db.definitions, db.entities) && NoColon(typ) && CreateKey(typ, id) !in db.entities
    ensures forall key :: key in db.entities && ParseKey(key).1 == id ==> db.entities[key].typ != typ
    ensures id in db.entities ==> db.entities[id].typ != typ || db.entities[id].id != id
  {
    forall key | key in db.entities && ParseKey(key).1 == id ensures db.entities[key].typ != typ {
      ParseCreated(db.entities[key].typ, db.entities[key].id);
    }
  }

  /** A key taken by the changes is taken by the merged fields. */
  lemma ChangesClashInMerged(fm: Formats, def: EntityDefinition, entities: map<string, Entity>, fields: Fields,
      changes: Fields, id: string)
    ensures Clashes(fm, def, entities, changes, id) ==> Clashes(fm, def, entities, fields + changes, id)
  {
  }

  /** A stored entity clashes with no other. */
  lemma NoClashWhenStored(fm: Formats, db: Db, e: Entity)
    requires A.Valid(fm, db) && KeyOf(e) in db.entities && db.entities[KeyOf(e)] == e
    ensures !Clashes(fm, db.definitions[e.typ], db.entities, e.fields, e.id)
  {
    forall f, k | f in db.definitions[e.typ].fields && f.unique && k in db.entities && db.entities[k].typ == e.typ
                  && UniqueKey(fm, e.fields, f.name).Some? && UniqueKey(fm, e.fields, f.name) == UniqueKey(fm,
                      db.entities[k].fields, f.name)
      ensures db.entities[k].id == e.id
    {
      var key := UniqueKey(fm, e.fields, f.name).value;
      UniqueKeysDiffer(fm, db, e.typ, f, e.id, db.entities[k].id, key);
    }
  }

  /** What an entity itself holds does not matter for its clashes. */
  lemma ClashesIgnoreOwn(fm: Formats, def: EntityDefinition, entities: map<string, Entity>, own: Entity, data: Fields)
    requires !Clashes(fm, def, entities, data, own.id)
    ensures !Clashes(fm, def, entities[KeyOf(own) := own], data, own.id)
  {
  }
}
