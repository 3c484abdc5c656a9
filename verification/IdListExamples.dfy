/** Runs of the engine's locked sections that spoil an id list. */
module IdListExamples {
  import opened Common
  import opened Keys
  import opened IdFormats
  import opened Validation
  import opened Store
  import opened Agreement
  import opened Tables
  import opened Commits
  import opened Schema
  import opened Migrations
  import opened Engines
  import opened SchemaUpdates
  import opened IdLists
  import opened Examples

  /** A type with one text field, with and without an index. */
  function Field(indexed: bool): FieldDefinition { Optional(TString, indexed, false) }
  function Indexed(): EntityDefinition { Completed(OneField(Field(true))) }

  const KEY := CreateKey("t", "1")

  /** The run ends in a state in which some list is wrong, or an entity has lost its type. */
  ghost predicate EndsWrong(fm: Formats, sections: seq<Section>) {
    exists states :: LockedRun(fm, states, sections) && !ListsExact(fm, states[|sections|])
  }

  /** Registering the type and storing one entity. */
  function Begin(v: string): seq<Section> { [Registers(Indexed()), Inserts(Fresh("1", Str(v)), false)] }

  lemma IndexedFields()
    ensures Indexed().name == "t" && DistinctNames(Indexed().fields) && IndexedIn(Indexed().fields, "x")
    ensures Indexed().fields == [Field(true), InternalDefinition(CREATED_AT), InternalDefinition(UPDATED_AT)]
    ensures forall g :: g in Indexed().fields ==> !g.unique
  {
    OneFieldCompleted(Field(true));
  }

  lemma RenderedFresh(fm: Formats, v: string)
    ensures Rendered(fm, Fresh("1", Str(v)).fields, "x") == Some(v)
  {
  }

  /** The store after the beginning: exact lists, and the one entity. */
  ghost predicate Begun(fm: Formats, db: Db, v: string) {
    ListsExact(fm, db) && db.definitions == map["t" := Indexed()] && db.entities == map[KEY := Fresh("1", Str(v))]
  }

  lemma OneRun(fm: Formats)
    ensures LockedRun(fm, [EMPTY_DB], [])
  {
  }

  lemma RegisterRun(fm: Formats) returns (states: seq<Db>)
    ensures LockedRun(fm, states, [Registers(Indexed())]) && ListsExact(fm, states[1])
    ensures states[1].definitions == map["t" := Indexed()] && states[1].entities == map[]
  {
    IndexedFields();
    OneRun(fm);
    SectionKeepsListsIff(fm, EMPTY_DB, Registers(Indexed()));
    RunGrows(fm, [EMPTY_DB], [], Registers(Indexed()));
    states := [EMPTY_DB] + [Released(fm, EMPTY_DB, Registers(Indexed()))];
    assert [] + [Registers(Indexed())] == [Registers(Indexed())];
  }

  lemma InsertHere(fm: Formats, db: Db, v: string)
    requires ListsExact(fm, db) && db.definitions == map["t" := Indexed()] && db.entities == map[]
    ensures Enabled(fm, db, Inserts(Fresh("1", Str(v)), false))
    ensures Begun(fm, Released(fm, db, Inserts(Fresh("1", Str(v)), false)), v)
  {
    IndexedFields();
    var insert := Inserts(Fresh("1", Str(v)), false);
    SectionKeepsListsIff(fm, db, insert);
    assert InsertBarred(fm, db, insert.e, false).None?;
  }

  lemma BeginRun(fm: Formats, v: string) returns (states: seq<Db>)
    ensures LockedRun(fm, states, Begin(v)) && Begun(fm, states[2], v)
  {
    var first := RegisterRun(fm);
    var insert := Inserts(Fresh("1", Str(v)), false);
    InsertHere(fm, first[1], v);
    RunGrows(fm, first, [Registers(Indexed())], insert);
    states := first + [Released(fm, first[1], insert)];
    assert [Registers(Indexed())] + [insert] == Begin(v);
  }

  // ---------- two clients update one type ----------

  /** An update of the type by a client that saw it with the index. */
  function Changes(indexed: bool, e: Entity): Section {
    Migrates(Indexed(), OneField(Field(indexed)), [e], map[], map[])
  }

  lemma InternalsIndexed()
    ensures IndexedIn(Indexed().fields, CREATED_AT) && IndexedIn(Indexed().fields, UPDATED_AT)
  {
    IndexedFields();
    var fields := Indexed().fields;
    assert fields[1] in fields && fields[2] in fields;
    FindOwn(fields, fields[1]);
    FindOwn(fields, fields[2]);
  }

  lemma StoredFields(indexed: bool)
    ensures Upgraded(Indexed(), OneField(Field(indexed))) == Completed(OneField(Field(indexed)))
    ensures Completed(OneField(Field(indexed))).fields
            == [Field(indexed), InternalDefinition(CREATED_AT), InternalDefinition(UPDATED_AT)]
  {
    OneFieldCompleted(Field(true));
    OneFieldCompleted(Field(indexed));
  }

  lemma ChangeAccepted(indexed: bool)
    ensures Accepts(Indexed().fields, OneField(Field(indexed)).fields)
    ensures DistinctNames(OneField(Field(indexed)).fields)
    ensures Upgraded(Indexed(), OneField(Field(indexed))) == Completed(OneField(Field(indexed)))
    ensures forall g :: g in Completed(OneField(Field(indexed))).fields && g.indexed ==>
        IndexedIn(Indexed().fields, g.name)
  {
    IndexedFields();
    InternalsIndexed();
    StoredFields(indexed);
  }

  /** The type, with one entity that has a value. */
  ghost predicate OneStored(fm: Formats, db: Db) {
    && ListsExact(fm, db) && db.definitions.Keys == {"t"} && db.entities.Keys == {KEY}
    && db.entities[KEY].typ == "t" && HasValue(fm, db.entities, "t", "x")
  }

  lemma ChangeEnabled(fm: Formats, db: Db, indexed: bool)
    requires OneStored(fm, db)
    ensures Enabled(fm, db, Changes(indexed, db.entities[KEY]))
  {
    ChangeAccepted(indexed);
    assert ListsType(db, "t", [db.entities[KEY]]);
  }

  lemma ChangeKeepsEntity(fm: Formats, db: Db, db': Db, indexed: bool)
    requires OneStored(fm, db) && ListsExact(fm, db')
    requires db'.definitions == db.definitions["t" := Completed(OneField(Field(indexed)))]
    requires db'.entities == AllMigrated(Indexed().fields, OneField(Field(indexed)).fields, db.entities, "t")
    ensures OneStored(fm, db')
  {
    ChangeAccepted(indexed);
    MigrationKeepsValues(fm, Indexed().fields, OneField(Field(indexed)).fields, db.entities, "t", "x");
  }

  /** What one client's update leaves when the type had the index it saw. */
  lemma ChangeLeaves(fm: Formats, db: Db, indexed: bool)
    requires OneStored(fm, db) && db.definitions["t"] == Indexed()
    ensures Enabled(fm, db, Changes(indexed, db.entities[KEY]))
    ensures var db' := Released(fm, db, Changes(indexed, db.entities[KEY]));
            && ListsExact(fm, db')
            && db'.definitions == db.definitions["t" := Completed(OneField(Field(indexed)))]
            && db'.entities == AllMigrated(Indexed().fields, OneField(Field(indexed)).fields, db.entities, "t")
            && (!indexed ==> "x" !in db'.indices["t"])
  {
    var section := Changes(indexed, db.entities[KEY]);
    ChangeEnabled(fm, db, indexed);
    ChangeAccepted(indexed);
    MigratesIff(fm, db, section);
    MigratedState(fm, db, section);
    LosesFlag();
  }

  lemma BegunHasValue(fm: Formats, db: Db, v: string)
    requires Begun(fm, db, v)
    ensures OneStored(fm, db)
  {
    RenderedFresh(fm, v);
    assert db.entities[KEY] == Fresh("1", Str(v));
  }

  /** The first client takes the index away. */
  lemma FirstChange(fm: Formats, db: Db)
    requires OneStored(fm, db) && db.definitions["t"] == Indexed()
    ensures Enabled(fm, db, Changes(false, db.entities[KEY]))
    ensures var db' := Released(fm, db, Changes(false, db.entities[KEY]));
            OneStored(fm, db') && db'.definitions["t"] == Completed(OneField(Field(false))) && "x" !in db'.indices["t"]
  {
    ChangeLeaves(fm, db, false);
    ChangeKeepsEntity(fm, db, Released(fm, db, Changes(false, db.entities[KEY])), false);
  }

  lemma LosesFlag()
    ensures Field(false) in Completed(OneField(Field(false))).fields && IndexedIn(Indexed().fields, "x")
    ensures !IndexedIn(Completed(OneField(Field(false))).fields, "x")
  {
    IndexedFields();
    OneFieldCompleted(Field(false));
    var stored := Completed(OneField(Field(false))).fields;
    assert stored[0] == Field(false);
  }

  /** The second client, which has seen the index before it went, believes it is still there. */
  lemma SecondChange(fm: Formats, db: Db)
    requires OneStored(fm, db) && db.definitions["t"] == Completed(OneField(Field(false)))
    requires "x" !in db.indices["t"]
    ensures Enabled(fm, db, Changes(true, db.entities[KEY]))
    ensures !ListsExact(fm, Released(fm, db, Changes(true, db.entities[KEY])))
  {
    IndexedFields();
    LosesFlag();
    ChangeEnabled(fm, db, true);
    ChangeAccepted(true);
    assert Indexed().fields[0] == Field(true) && Field(true) in Indexed().fields;
    DeletedListIff(fm, db, Indexed(), OneField(Field(true)).fields, "t", "x");
    MigratesIff(fm, db, Changes(true, db.entities[KEY]));
  }

  lemma LastIsWrong(fm: Formats, states: seq<Db>, sections: seq<Section>, section: Section)
    requires LockedRun(fm, states, sections) && Structured(states[|sections|])
    requires Enabled(fm, states[|sections|], section) && !ListsExact(fm, Released(fm, states[|sections|], section))
    ensures EndsWrong(fm, sections + [section])
  {
    RunGrows(fm, states, sections, section);
    assert LockedRun(fm, states + [Released(fm, states[|sections|], section)], sections + [section]);
  }

  /**
   * Two clients see a type with an index. One commits a definition without it, the other one with it: the definition
   * says indexed, and there is no list.
   */
  lemma TwoClients(fm: Formats, v: string)
    ensures exists e1, e2 :: EndsWrong(fm, Begin(v) + [Changes(false, e1)] + [Changes(true, e2)])
  {
    var states := BeginRun(fm, v);
    var e1 := states[2].entities[KEY];
    BegunHasValue(fm, states[2], v);
    FirstChange(fm, states[2]);
    var db := Released(fm, states[2], Changes(false, e1));
    RunGrows(fm, states, Begin(v), Changes(false, e1));
    SecondChange(fm, db);
    LastIsWrong(fm, states + [db], Begin(v) + [Changes(false, e1)], Changes(true, db.entities[KEY]));
  }

  // ---------- log writes that fail ----------

  lemma PutBackIsWrong(fm: Formats, db: Db)
    requires OneStored(fm, db) && db.definitions["t"] == Indexed()
    requires Enabled(fm, db, Changes(false, db.entities[KEY]))
    ensures var after := Released(fm, db, Changes(false, db.entities[KEY]));
            && Structured(after) && Enabled(fm, after, MigrateUndone(Indexed()))
            && !ListsExact(fm, Released(fm, after, MigrateUndone(Indexed())))
  {
    MigrationUndoneAtOnceIff(fm, db, Changes(false, db.entities[KEY]));
    ChangeAccepted(false);
    LosesFlag();
  }

  /** The log write of an update that takes the index away fails, and only the definition is put back. */
  lemma FailedUpdate(fm: Formats, v: string)
    ensures exists e :: EndsWrong(fm, Begin(v) + [Changes(false, e)] + [MigrateUndone(Indexed())])
  {
    var states := BeginRun(fm, v);
    var section := Changes(false, states[2].entities[KEY]);
    BegunHasValue(fm, states[2], v);
    ChangeEnabled(fm, states[2], false);
    RunGrows(fm, states, Begin(v), section);
    PutBackIsWrong(fm, states[2]);
    LastIsWrong(fm, states + [Released(fm, states[2], section)], Begin(v) + [section], MigrateUndone(Indexed()));
  }

  /** While the log write of a delete is under way, another client stores an entity with the id; then it fails. */
  lemma FailedDelete(fm: Formats, v: string, w: string)
    ensures var e, e' := Fresh("1", Str(v)), Fresh("1", Str(w));
            EndsWrong(fm, Begin(v) + [Deletes(e)] + [Inserts(e', false)] + [DeleteUndone(e)])
  {
    var e, e' := Fresh("1", Str(v)), Fresh("1", Str(w));
    var states := Replaced(fm, v, w);
    StillUncovered(fm, states[4], w, map[]);
    SectionKeepsListsIff(fm, states[4], DeleteUndone(e));
    LastIsWrong(fm, states, Begin(v) + [Deletes(e)] + [Inserts(e', false)], DeleteUndone(e));
  }

  /** While the log write of an insert is under way, others delete the entity and store another; then it fails. */
  lemma FailedInsert(fm: Formats, v: string, w: string)
    requires v != w
    ensures var e, e' := Fresh("1", Str(v)), Fresh("1", Str(w));
            EndsWrong(fm, Begin(v) + [Deletes(e)] + [Inserts(e', false)] + [InsertUndone(e)])
  {
    var e, e' := Fresh("1", Str(v)), Fresh("1", Str(w));
    var states := Replaced(fm, v, w);
    StillUncovered(fm, states[4], w, e.fields);
    SectionKeepsListsIff(fm, states[4], InsertUndone(e));
    LastIsWrong(fm, states, Begin(v) + [Deletes(e)] + [Inserts(e', false)], InsertUndone(e));
  }

  lemma StillUncovered(fm: Formats, db: Db, w: string, fields: Fields)
    requires Begun(fm, db, w) && Rendered(fm, fields, "x") != Some(w)
    ensures Uncovered(fm, db, KEY, fields)
  {
    IndexedFields();
    RenderedFresh(fm, w);
    assert Indexed().fields[0] == Field(true) && Field(true) in Indexed().fields;
  }

  /** The one entity is deleted and another stored under its id. */
  lemma Replaced(fm: Formats, v: string, w: string) returns (states: seq<Db>)
    ensures LockedRun(fm, states, Begin(v) + [Deletes(Fresh("1", Str(v)))] + [Inserts(Fresh("1", Str(w)), false)])
    ensures Begun(fm, states[4], w)
  {
    var e, e' := Fresh("1", Str(v)), Fresh("1", Str(w));
    var begun := BeginRun(fm, v);
    SectionKeepsListsIff(fm, begun[2], Deletes(e));
    RunGrows(fm, begun, Begin(v), Deletes(e));
    var without := Released(fm, begun[2], Deletes(e));
    assert without.entities == map[];
    InsertHere(fm, without, w);
    RunGrows(fm, begun + [without], Begin(v) + [Deletes(e)], Inserts(e', false));
    states := begun + [without] + [Released(fm, without, Inserts(e', false))];
  }

  /** While the log write of a registration is under way, another client stores an entity; then it fails. */
  lemma FailedRegistration(fm: Formats, v: string)
    ensures EndsWrong(fm, Begin(v) + [RegisterUndone("t")])
  {
    var states := BeginRun(fm, v);
    assert states[2].entities[KEY].typ == "t";
    SectionKeepsListsIff(fm, states[2], RegisterUndone("t"));
    LastIsWrong(fm, states, Begin(v), RegisterUndone("t"));
  }
}
