/** Engines brought, by ordinary calls, into states where the code does not do what one would expect. */
module Examples {
  import opened Common
  import opened Keys
  import opened Numerals
  import opened IdFormats
  import opened Validation
  import opened Store
  import opened Tables
  import opened Commits
  import opened Schema
  import opened Migrations
  import opened Engines
  import opened SchemaUpdates
  import opened Paging
  import opened Queries
  import opened Counting
  import opened A = Agreement

  /** An optional field. */
  function Optional(typ: FieldType, indexed: bool, unique: bool): FieldDefinition {
    FieldDefinition("x", typ, indexed, false, false, false, unique)
  }

  function OneField(f: FieldDefinition): EntityDefinition { EntityDefinition("t", [f], Custom) }

  function OnlyType(f: FieldDefinition): map<string, EntityDefinition> { map["t" := Completed(OneField(f))] }

  lemma OneFieldCompleted(f: FieldDefinition)
    requires f.name == "x"
    ensures Completed(OneField(f)) ==
            EntityDefinition("t", [f, InternalDefinition(CREATED_AT), InternalDefinition(UPDATED_AT)], Custom)
    ensures DistinctNames(OneField(f).fields)
  {
    assert !HasField([f], CREATED_AT) && !HasField([f], UPDATED_AT);
  }

  function Fresh(id: string, v: Value): Entity {
    Entity(id, "t", map["x" := v, CREATED_AT := Time(0), UPDATED_AT := Time(0)])
  }

  lemma OneFieldDataOk(fm: Formats, f: FieldDefinition, v: Value)
    requires f.name == "x" && ValueOk(fm, f, v)
    ensures EntityDataOk(fm, Completed(OneField(f)), Stamped(map["x" := v], 0))
    ensures Stamped(map["x" := v], 0) == Fresh("", v).fields
  {
    OneFieldCompleted(f);
    var def, data := Completed(OneField(f)), Stamped(map["x" := v], 0);
    assert def.fields[1] in def.fields && def.fields[2] in def.fields;
    assert InternalField(def, CREATED_AT) && InternalField(def, UPDATED_AT);
  }

  /** Storing an entity with a fitting value under a new id, its unique key not taken. */
  lemma OneFieldInsert(fm: Formats, f: FieldDefinition, entities: map<string, Entity>, id: string, v: Value)
    requires f.name == "x" && ValueOk(fm, f, v) && id != "" && CreateKey("t", id) !in entities
    requires f.unique ==> forall key :: key in entities ==>
        UniqueKey(fm, entities[key].fields, "x") != UniqueKey(fm, Fresh(id, v).fields, "x")
    ensures Insert(fm, Table(OnlyType(f), entities), "t", id, map["x" := v], 0)
            == (Table(OnlyType(f), entities[CreateKey("t", id) := Fresh(id, v)]), Done)
  {
    OneFieldDataOk(fm, f, v);
    OneFieldCompleted(f);
    var def := Completed(OneField(f));
    assert forall g :: g in def.fields && g.unique ==> g == f;
    assert !Clashes(fm, def, entities, Fresh(id, v).fields, "");
  }

  // ---------- a unique index that a schema update gets wrong ----------

  lemma TwoNumbers(fm: Formats, a: nat, b: nat)
    requires a != b
    ensures UniqueKey(fm, Fresh("1", Whole(Int, a)).fields, "x") != UniqueKey(fm, Fresh("2", Whole(Int, b)).fields, "x")
  {
    if Decimal(a) == Decimal(b) { DecimalInjective(a, b); }
  }

  lemma NumberChanges()
    ensures var original, updated := Completed(OneField(Optional(TInteger, false, true))).fields,
                [Optional(TFloat, false, true)];
            ChangeOf(original, updated, "x") == Some((TInteger, TFloat))
  {
    OneFieldCompleted(Optional(TInteger, false, true));
  }

  lemma NumberMoves(fm: Formats, id: string, n: nat)
    ensures var original, updated := Completed(OneField(Optional(TInteger, false, true))).fields,
                [Optional(TFloat, false, true)];
            MoveOf(fm, original, updated, Fresh(id, Whole(Int, n)), "x").to == Some(fm.floatG(Float64(n as real)))
  {
    var original, updated := Completed(OneField(Optional(TInteger, false, true))).fields,
        [Optional(TFloat, false, true)];
    NumberChanges();
    assert ConvertedValue(original, updated, "x", Whole(Int, n)) == Float64(n as real);
  }

  function OneStored(a: nat): map<string, Entity> { map[][CreateKey("t", "1") := Fresh("1", Whole(Int, a))] }

  function TwoStored(a: nat, b: nat): map<string, Entity> {
    OneStored(a)[CreateKey("t", "2") := Fresh("2", Whole(Int, b))]
  }

  lemma TwoKeys()
    ensures CreateKey("t", "1") != CreateKey("t", "2")
  {
    if CreateKey("t", "2") == CreateKey("t", "1") { KeyInjective("t", "2", "t", "1"); }
  }

  lemma SecondIsFree(fm: Formats, a: nat, b: nat)
    requires a != b
    ensures CreateKey("t", "2") !in OneStored(a)
    ensures forall key :: key in OneStored(a) ==>
      UniqueKey(fm, OneStored(a)[key].fields, "x") != UniqueKey(fm, Fresh("2", Whole(Int, b)).fields, "x")
  {
    TwoKeys();
    TwoNumbers(fm, a, b);
  }

  lemma KeysMerge(fm: Formats, db: Db, a: nat, b: nat, order: seq<Entity>)
    requires fm.floatG(Float64(a as real)) == fm.floatG(Float64(b as real))
    requires WellKeyed(db.definitions, db.entities) && ListsType(db, "t", order)
    requires db.definitions == OnlyType(Optional(TInteger, false, true)) && db.entities == TwoStored(a, b)
    ensures !WalkKeepsUniques(fm, db.definitions["t"].fields, [Optional(TFloat, false, true)], order)
  {
    var g := Optional(TFloat, false, true);
    NumberMoves(fm, "1", a);
    NumberMoves(fm, "2", b);
    TwoKeys();
    SameTargetSpoils(fm, db, "t", [g], order, "x", CreateKey("t", "1"), CreateKey("t", "2"));
    assert g in [g];
  }

  lemma NumbersBecomeFloats(fm: Formats, t: Table)
    requires t.definitions == OnlyType(Optional(TInteger, false, true))
    ensures UpdateType(fm, t, OneField(Optional(TFloat, false, true))).1 == Done
  {
    OneFieldCompleted(Optional(TInteger, false, true));
    var original := t.definitions["t"].fields;
    assert original[0] in original;
  }

  /** A new engine with the one-field type registered. */
  method OneFieldEngine(fm: Formats, f: FieldDefinition) returns (engine: Engine)
    requires f.name == "x"
    ensures fresh(engine) && engine.fm == fm && engine.file == null && engine.Valid()
    ensures engine.Table() == Table(OnlyType(f), map[])
  {
    OneFieldCompleted(f);
    engine := new Engine(fm, null);
    var o := engine.RegisterEntityType(OneField(f), true);
  }

  method StoreValue(engine: Engine, f: FieldDefinition, id: string, v: Value)
    requires engine.Valid() && engine.file == null && engine.definitions == OnlyType(f)
    requires f.name == "x" && ValueOk(engine.fm, f, v) && id != "" && CreateKey("t", id) !in engine.entities
    requires f.unique ==> forall key :: key in engine.entities ==>
               UniqueKey(engine.fm, engine.entities[key].fields, "x") != UniqueKey(engine.fm, Fresh(id, v).fields, "x")
    modifies engine
    ensures engine.Valid() && engine.definitions == OnlyType(f)
    ensures engine.entities == old(engine.entities)[CreateKey("t", id) := Fresh(id, v)]
  {
    OneFieldInsert(engine.fm, f, engine.entities, id, v);
    var o := engine.Insert("t", id, map["x" := v], None, 0, true);
  }

  /** Two entities with different unique integers. */
  method TwoNumbersEngine(fm: Formats, a: nat, b: nat) returns (engine: Engine)
    requires a != b
    ensures fresh(engine) && engine.fm == fm && engine.Valid()
    ensures engine.Table() == Table(OnlyType(Optional(TInteger, false, true)), TwoStored(a, b))
  {
    var f := Optional(TInteger, false, true);
    engine := OneFieldEngine(fm, f);
    StoreValue(engine, f, "1", Whole(Int, a));
    SecondIsFree(fm, a, b);
    StoreValue(engine, f, "2", Whole(Int, b));
  }

  /**
   * Two entities whose unique integers print alike as floats, as 2^53 and 2^53 + 1 do: the update of the field to a
   * float is accepted, succeeds, and leaves the unique index wrong.
   */
  method MergeUniqueKeys(fm: Formats, a: nat, b: nat) returns (engine: Engine, o: Outcome)
    requires a != b && fm.floatG(Float64(a as real)) == fm.floatG(Float64(b as real))
    ensures fresh(engine) && engine.fm == fm && o == Done
    ensures IndexAgrees(fm, engine.Db()) && !engine.Valid()
  {
    engine := TwoNumbersEngine(fm, a, b);
    ghost var db := engine.Db();
    NumbersBecomeFloats(fm, engine.Table());
    ghost var order;
    o, order := UpdateEntityType(engine, OneField(Optional(TFloat, false, true)), true);
    KeysMerge(fm, db, a, b, order);
  }

  // ---------- a stored entity that no longer validates ----------

  /** The type with a second field, which is required. */
  function WithRequired(f: FieldDefinition): EntityDefinition {
    EntityDefinition("t", [f, FieldDefinition("y", TString, false, true, false, false, false)], Custom)
  }

  lemma RequiredIsAccepted(fm: Formats, t: Table, f: FieldDefinition)
    requires f.name == "x" && !f.unique && t.definitions == OnlyType(f)
    ensures UpdateType(fm, t, WithRequired(f)).1 == Done && DistinctNames(WithRequired(f).fields)
  {
    OneFieldCompleted(f);
  }

  lemma RequiredIsMissing(fm: Formats, f: FieldDefinition, v: Value)
    requires f.name == "x"
    ensures !AllFitAnyway(fm, Completed(OneField(f)), WithRequired(f), Fresh("1", v).fields)
  {
    OneFieldCompleted(f);
    var y := WithRequired(f).fields[1];
    assert y in WithInternalFields(WithRequired(f).fields);
    assert !FitsAnyway(fm, Completed(OneField(f)).fields, WithRequired(f).fields, y, Fresh("1", v).fields);
  }

  lemma FreshIsValid(fm: Formats, t: Table, f: FieldDefinition, v: Value)
    requires f.name == "x" && ValueOk(fm, f, v) && t.definitions == OnlyType(f)
    requires t.entities == map[CreateKey("t", "1") := Fresh("1", v)]
    ensures EntityValid(fm, t, CreateKey("t", "1"))
  {
    OneFieldDataOk(fm, f, v);
    OneFieldCompleted(f);
  }

  lemma RequiredBreaks(fm: Formats, t: Table, f: FieldDefinition, v: Value)
    requires f.name == "x" && !f.unique && ValueOk(fm, f, v) && WellFormed(t) && t.definitions == OnlyType(f)
    requires t.entities == map[CreateKey("t", "1") := Fresh("1", v)]
    ensures var (t', o) := UpdateType(fm, t, WithRequired(f));
            && o == Done && DistinctNames(WithRequired(f).fields)
            && CreateKey("t", "1") in t'.entities && !EntityValid(fm, t', CreateKey("t", "1"))
  {
    RequiredIsAccepted(fm, t, f);
    RequiredIsMissing(fm, f, v);
    FreshIsValid(fm, t, f, v);
    StaysValidAt(fm, t, WithRequired(f), CreateKey("t", "1"));
  }

  /** A required field is added to a type that has an entity: the update succeeds, the entity no longer validates. */
  method RequireMissingField(fm: Formats, v: string) returns (engine: Engine, o: Outcome)
    ensures fresh(engine) && engine.fm == fm && o == Done && engine.Valid()
    ensures CreateKey("t", "1") in engine.entities && !EntityValid(fm, engine.Table(), CreateKey("t", "1"))
  {
    var f := Optional(TString, false, false);
    engine := OneFieldEngine(fm, f);
    StoreValue(engine, f, "1", Str(v));
    RequiredBreaks(fm, engine.Table(), f, Str(v));
    o := AcceptedUpdate(engine, WithRequired(f));
  }

  /** An update that the reference store accepts, of a type without unique fields. */
  method AcceptedUpdate(engine: Engine, updated: EntityDefinition) returns (o: Outcome)
    requires engine.Valid() && DistinctNames(updated.fields) && forall g :: g in updated.fields ==> !g.unique
    requires UpdateType(engine.fm, engine.Table(), updated).1 == Done
    modifies engine
    ensures o == Done && engine.Valid()
    ensures engine.Table() == UpdateType(engine.fm, old(engine.Table()), updated).0
  {
    ghost var order;
    o, order := UpdateEntityType(engine, updated, true);
  }

  // ---------- a count that falls short of its query ----------

  /** The same filter twice: the printed number against the field. */
  function Printed(n: int): seq<Filter> {
    [Filter("x", Eq, Str(SignedDecimal(n))), Filter("x", Eq, Str(SignedDecimal(n)))]
  }

  /** The index finds the number under its printed form; the scan does not take the text for the number. */
  lemma PrintedPasses(fm: Formats, tx: Texts, n: int)
    ensures var f, e, fields := Printed(n)[0], Fresh("1", Whole(Int, n)),
        Completed(OneField(Optional(TInteger, true, false))).fields;
            Passes(fm, tx, fields, f, e) && !Counts(fm, tx, fields, Printed(n), f, e)
  {
    OneFieldCompleted(Optional(TInteger, true, false));
    var fields := Completed(OneField(Optional(TInteger, true, false))).fields;
    assert fields[0] in fields && Indexed(fields, "x");
  }

  lemma PrintedSelects(fm: Formats, tx: Texts, db: Db, n: int, e: Entity)
    requires db.definitions == OnlyType(Optional(TInteger, true, false))
    requires db.entities == map[CreateKey("t", "1") := Fresh("1", Whole(Int, n))]
    ensures Selected(fm, tx, db, "t", Printed(n), e) <==> e == Fresh("1", Whole(Int, n))
  {
    PrintedPasses(fm, tx, n);
  }

  lemma PrintedNotCounted(fm: Formats, tx: Texts, db: Db, n: int)
    requires db.definitions == OnlyType(Optional(TInteger, true, false))
    requires db.entities == map[CreateKey("t", "1") := Fresh("1", Whole(Int, n))]
    ensures CountedKeys(fm, tx, db, "t", Printed(n)) == {}
  {
    PrintedPasses(fm, tx, n);
    assert Printed(n)[0] in Printed(n);
  }

  lemma OnlyElement<T>(list: seq<T>, x: T)
    requires Distinct(list) && forall y :: y in list <==> y == x
    ensures list == [x]
  {
    assert x in list;
    assert list[0] in list && list[|list| - 1] in list;
  }

  /**
   * An indexed number, asked for by its printed form in two filters: the query answers the entity, the count does not
   * see it.
   */
  method CountFallsShort(fm: Formats, tx: Texts, sort: SortFunction, n: int) returns (answer: seq<Entity>, count: nat)
    requires SortsWell(sort)
    ensures answer == [Fresh("1", Whole(Int, n))] && count == 0
  {
    var f, options := Optional(TInteger, true, false), QueryOptions("t", Printed(n), "", false, 0, 0);
    var engine := OneFieldEngine(fm, f);
    StoreValue(engine, f, "1", Whole(Int, n));
    ghost var all;
    var found, counted;
    found, all := Query(engine, tx, sort, options);
    OnlyAnswer(fm, tx, engine.Db(), n, all);
    answer := found.value;
    counted, all := ExecuteCountQuery(engine, tx, sort, options, []);
    count := counted.value;
  }

  lemma OnlyAnswer(fm: Formats, tx: Texts, db: Db, n: int, all: seq<Entity>)
    requires db.definitions == OnlyType(Optional(TInteger, true, false))
    requires db.entities == map[CreateKey("t", "1") := Fresh("1", Whole(Int, n))]
    requires Distinct(all) && forall e :: e in all <==> Selected(fm, tx, db, "t", Printed(n), e)
    ensures all == [Fresh("1", Whole(Int, n))] && CountedKeys(fm, tx, db, "t", Printed(n)) == {}
  {
    var e := Fresh("1", Whole(Int, n));
    forall y ensures y in all <==> y == e { PrintedSelects(fm, tx, db, n, y); }
    PrintedNotCounted(fm, tx, db, n);
    OnlyElement(all, e);
  }
}
