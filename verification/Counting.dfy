/** Counting without collecting, and when a count agrees with a query. */
module Counting {
  import opened Common
  import opened Keys
  import opened Numerals
  import opened Validation
  import opened Store
  import opened Engines
  import opened Paging
  import opened Joins
  import opened Queries
  import A = Agreement

  // ---------- counting ----------

  /** What the count asks of an entity for one filter. */
  predicate Counts(fm: Formats, tx: Texts, fields: seq<FieldDefinition>, filters: seq<Filter>, f: Filter, e: Entity) {
    if |filters| == 1 && ByIndex(fields, f) then Rendered(fm, e.fields, f.field) == Some(IndexableValue(fm, f.value))
    else f.field in e.fields && Satisfies(tx, e.fields[f.field], f.operator, f.value)
  }

  predicate Counted(fm: Formats, tx: Texts, db: Db, typ: string, filters: seq<Filter>, key: string)
    requires typ in db.definitions
  {
    && key in db.entities && db.entities[key].typ == typ
    && forall f :: f in filters ==> Counts(fm, tx, db.definitions[typ].fields, filters, f, db.entities[key])
  }

  ghost function CountedKeys(fm: Formats, tx: Texts, db: Db, typ: string, filters: seq<Filter>): set<string>
    requires typ in db.definitions
  {
    set key | key in db.entities && Counted(fm, tx, db, typ, filters, key)
  }

  lemma {:induction false} KeysOfIds(typ: string, ids: seq<string>)
    requires Distinct(ids) && NoColon(typ)
    ensures |set id | id in ids :: CreateKey(typ, id)| == |ids|
  {
    if ids == [] {
    } else {
      SplitLast(ids);
      var front, last := ids[..|ids| - 1], ids[|ids| - 1];
      KeysOfIds(typ, front);
      forall id | id in front ensures CreateKey(typ, id) != CreateKey(typ, last) {
        if CreateKey(typ, id) == CreateKey(typ, last) { KeyInjective(typ, id, typ, last); }
      }
      assert (set id | id in ids :: CreateKey(typ, id)) == (set id | id in front :: CreateKey(typ, id))
          + {CreateKey(typ, last)};
    }
  }

  /** The length of an id list is the number of entities a scan would count. */
  lemma IndexCounts(fm: Formats, tx: Texts, db: Db, typ: string, f: Filter)
    requires A.ListsExact(fm, db) && typ in db.definitions && ByIndex(db.definitions[typ].fields, f)
    ensures |Ids(db.indices[typ], f.field, IndexableValue(fm, f.value))| == |CountedKeys(fm, tx, db, typ, [f])|
  {
    var value := IndexableValue(fm, f.value);
    var ids := Ids(db.indices[typ], f.field, value);
    var g :| g in db.definitions[typ].fields && g.name == f.field && g.indexed;
    assert A.ListedRight(fm, db, typ, g, value);
    KeysOfIds(typ, ids);
    forall id | id in ids ensures Counted(fm, tx, db, typ, [f], CreateKey(typ, id)) {
      assert A.Carries(fm, db.entities, typ, f.field, value, id);
      A.StoredUnderKey(db, typ, id);
    }
    forall key | Counted(fm, tx, db, typ, [f], key) ensures db.entities[key].id in ids
        && key == CreateKey(typ, db.entities[key].id)
    {
      assert Counts(fm, tx, db.definitions[typ].fields, [f], f, db.entities[key]);
      assert A.Carries(fm, db.entities, typ, f.field, value, db.entities[key].id);
    }
    assert (set id | id in ids :: CreateKey(typ, id)) == CountedKeys(fm, tx, db, typ, [f]);
  }

  /** The branches of ExecuteCountQuery for queries without joins. */
  method CountWithoutJoins(engine: Engine, tx: Texts, typ: string, filters: seq<Filter>) returns (count: nat)
    requires engine.ListsExact() && typ in engine.definitions
    ensures count == |CountedKeys(engine.fm, tx, engine.Db(), typ, filters)|
  {
    if |filters| == 1 && ByIndex(engine.definitions[typ].fields, filters[0]) {
      IndexCounts(engine.fm, tx, engine.Db(), typ, filters[0]);
      assert filters == [filters[0]];
      return |Ids(engine.indices[typ], filters[0].field, IndexableValue(engine.fm, filters[0].value))|;
    }
    count := CountScan(engine, tx, typ, filters);
  }

  /**
   * ExecuteCountQuery. With joins it is the total of the joined query, which is the number of matches before joining.
   */
  method ExecuteCountQuery(engine: Engine, tx: Texts, sort: SortFunction, options: QueryOptions, plan: Plan)
    returns (count: Option<nat>, ghost all: seq<Entity>)
    requires engine.ListsExact() && SortsWell(sort)
    ensures options.typ !in engine.definitions ==> count.None?
    ensures options.typ in engine.definitions && plan == [] ==>
      count == Some(|CountedKeys(engine.fm, tx, engine.Db(), options.typ, options.filters)|)
    ensures options.typ in engine.definitions && plan != [] && !Askable(options.filters) ==> count.None?
    ensures options.typ in engine.definitions && plan != [] && Askable(options.filters) ==>
      && Answers(engine.fm, tx, engine.Db(), Ordered(options), all)
      && (count.Some? <==>
          RunJoins(engine.definitions, plan, all).Some? && ComparedUntouched(engine.definitions, plan, all))
      && (count.Some? ==> count.value == |all|)
  {
    if options.typ !in engine.definitions { return None, []; }
    if |plan| > 0 {
      var response, found := ExecuteQueryWithJoins(engine, tx, sort, options.(offset := 0, limit := 0), plan);
      all := found;
      assert Askable(options.filters) ==> Page(all, 0, 0) == all;
      if response.None? { return None, all; }
      return Some(response.value.total), all;
    }
    var n := CountWithoutJoins(engine, tx, options.typ, options.filters);
    return Some(n), [];
  }

  lemma CountOneMore(counted: set<string>, rest: set<string>, key: string)
    requires key in rest
    ensures |counted - (rest - {key})| == |counted - rest| + if key in counted then 1 else 0
  {
    assert counted - (rest - {key}) == counted - rest + if key in counted then {key} else {};
  }

  lemma NothingLeft(counted: set<string>, all: set<string>)
    requires counted <= all
    ensures |counted - all| == 0 && counted - {} == counted
  {
    assert counted - all == {};
  }

  /** The scan that counts without collecting. */
  method CountScan(engine: Engine, tx: Texts, typ: string, filters: seq<Filter>) returns (n: nat)
    requires typ in engine.definitions
    requires !(|filters| == 1 && ByIndex(engine.definitions[typ].fields, filters[0]))
    ensures n == |CountedKeys(engine.fm, tx, engine.Db(), typ, filters)|
  {
    n := 0;
    var rest := engine.entities.Keys;
    ghost var counted := CountedKeys(engine.fm, tx, engine.Db(), typ, filters);
    NothingLeft(counted, engine.entities.Keys);
    while rest != {}
      invariant rest <= engine.entities.Keys && n == |counted - rest|
      decreases rest
    {
      var key :| key in rest;
      var matches := CountsEntity(engine, tx, typ, filters, key);
      CountOneMore(counted, rest, key);
      if matches { n := n + 1; }
      rest := rest - {key};
    }
  }

  method CountsEntity(engine: Engine, tx: Texts, typ: string, filters: seq<Filter>, key: string) returns (matches: bool)
    requires typ in engine.definitions && key in engine.entities
    requires !(|filters| == 1 && ByIndex(engine.definitions[typ].fields, filters[0]))
    ensures matches <==> Counted(engine.fm, tx, engine.Db(), typ, filters, key)
  {
    var e := engine.entities[key];
    if e.typ != typ { return false; }
    for i := 0 to |filters|
      invariant forall f :: f in filters[..i] ==> Counts(engine.fm, tx, engine.definitions[typ].fields, filters, f, e)
    {
      var f := filters[i];
      assert f in filters;
      if f.field !in e.fields || !Satisfies(tx, e.fields[f.field], f.operator, f.value) { return false; }
    }
    assert filters[..|filters|] == filters;
    return true;
  }

  // ---------- counts and queries ----------

  lemma {:induction false} KeysOfEntities(list: seq<Entity>)
    requires Distinct(list) && forall e1, e2 :: e1 in list && e2 in list && A.KeyOf(e1) == A.KeyOf(e2) ==> e1 == e2
    ensures |set e | e in list :: A.KeyOf(e)| == |list|
  {
    if list == [] {
    } else {
      SplitLast(list);
      var front, last := list[..|list| - 1], list[|list| - 1];
      KeysOfEntities(front);
      assert (set e | e in list :: A.KeyOf(e)) == (set e | e in front :: A.KeyOf(e)) + {A.KeyOf(last)};
    }
  }

  predicate NoFuzzy(filters: seq<Filter>) { forall f :: f in filters ==> f.operator != Fuzzy }

  /** No filter that the index answers asks for null. */
  predicate NoNullLookups(fields: seq<FieldDefinition>, filters: seq<Filter>) {
    forall f :: f in filters && ByIndex(fields, f) ==> f.value != Null
  }

  /** What the index found for its printed value also has the value. */
  predicate HasValues(fields: seq<FieldDefinition>, filters: seq<Filter>, e: Entity) {
    forall f :: f in filters && ByIndex(fields, f) ==> f.field in e.fields && e.fields[f.field] == f.value
  }

  /**
   * With one filter, count and query ask the same; with more, the count asks for values where the query asks for
   * printed ones.
   */
  lemma CountedIffSelected(fm: Formats, tx: Texts, db: Db, typ: string, filters: seq<Filter>, key: string)
    requires A.ListsExact(fm, db) && typ in db.definitions && NoFuzzy(filters) && key in db.entities
        && db.entities[key].typ == typ
    requires |filters| == 1 || NoNullLookups(db.definitions[typ].fields, filters)
    ensures Counted(fm, tx, db, typ, filters, key) <==>
            Selected(fm, tx, db, typ, filters, db.entities[key])
            && (|filters| == 1 || HasValues(db.definitions[typ].fields, filters, db.entities[key]))
  {
    var fields, e := db.definitions[typ].fields, db.entities[key];
    forall f | f in filters
      ensures Counts(fm, tx, fields, filters, f, e) <==>
              Passes(fm, tx, fields, f, e) && (|filters| != 1 && ByIndex(fields, f) ==>
                  f.field in e.fields && e.fields[f.field] == f.value)
    {
      assert |filters| == 1 ==> f == filters[0];
    }
  }

  lemma SubsetOfSameSize(a: set<string>, b: set<string>)
    requires a <= b
    ensures |a| <= |b| && (|a| == |b| <==> a == b)
  {
    assert b == a + (b - a);
  }

  /**
   * When no filter is fuzzy and the index is not asked for null: the count is the length of the query's answer if and
   * only if there is one filter, or every answered entity has the values of the indexed equality filters and does not
   * only print like them.
   */
  lemma CountIsQueryLengthIff(fm: Formats, tx: Texts, db: Db, typ: string, filters: seq<Filter>, answer: seq<Entity>)
    requires A.ListsExact(fm, db) && typ in db.definitions && NoFuzzy(filters)
    requires |filters| == 1 || NoNullLookups(db.definitions[typ].fields, filters)
    requires Distinct(answer) && forall e :: e in answer <==> Selected(fm, tx, db, typ, filters, e)
    ensures |CountedKeys(fm, tx, db, typ, filters)| == |answer|
            <==> (|filters| == 1 || forall e :: e in answer ==> HasValues(db.definitions[typ].fields, filters, e))
    ensures |CountedKeys(fm, tx, db, typ, filters)| <= |answer|
  {
    KeysOfEntities(answer);
    var counted, answered := CountedKeys(fm, tx, db, typ, filters), set e | e in answer :: A.KeyOf(e);
    forall key | key in db.entities && db.entities[key].typ == typ
      ensures Counted(fm, tx, db, typ, filters, key) <==>
              key in answered && (|filters| == 1 || HasValues(db.definitions[typ].fields, filters, db.entities[key]))
    {
      CountedIffSelected(fm, tx, db, typ, filters, key);
      if key in answered {
        var e :| e in answer && A.KeyOf(e) == key;
      }
    }
    assert counted <= answered;
    SubsetOfSameSize(counted, answered);
    forall e | e in answer ensures A.KeyOf(e) in answered && db.entities[A.KeyOf(e)] == e {
    }
  }

  /** The scan knows no fuzzy matching: with a fuzzy filter the count is zero, whatever the query answers. */
  lemma FuzzyCountsNothing(fm: Formats, tx: Texts, db: Db, typ: string, filters: seq<Filter>)
    requires typ in db.definitions && !NoFuzzy(filters)
    ensures |CountedKeys(fm, tx, db, typ, filters)| == 0
  {
    var f :| f in filters && f.operator == Fuzzy;
    forall key | key in db.entities ensures !Counted(fm, tx, db, typ, filters, key) {
      assert !Counts(fm, tx, db.definitions[typ].fields, filters, f, db.entities[key]);
    }
    assert CountedKeys(fm, tx, db, typ, filters) == {};
  }

  /**
   * An indexed equality filter for null, among several, answers entities that print like null and counts entities that
   * are null: never the same.
   */
  lemma NullLookupsSplit(fm: Formats, tx: Texts, db: Db, typ: string, filters: seq<Filter>, f: Filter, key: string)
    requires typ in db.definitions && |filters| != 1 && f in filters && ByIndex(db.definitions[typ].fields, f)
        && f.value == Null
    requires key in db.entities
    ensures !(Counted(fm, tx, db, typ, filters, key) && Selected(fm, tx, db, typ, filters, db.entities[key]))
  {
    if Counted(fm, tx, db, typ, filters, key) {
      assert Counts(fm, tx, db.definitions[typ].fields, filters, f, db.entities[key]);
      assert !Passes(fm, tx, db.definitions[typ].fields, f, db.entities[key]);
    }
  }

  /** Strings against a text field, and booleans against a boolean field: printed like it means equal to it. */
  lemma TextAndTruthAgree(fm: Formats, db: Db, typ: string, f: Filter, g: FieldDefinition, e: Entity)
    requires typ in db.definitions && g in db.definitions[typ].fields && g.name == f.field
    requires (f.value.Str? && (g.typ == TString || g.typ == TText)) || (f.value.Bool? && g.typ == TBoolean)
    requires EntityDataOk(fm, db.definitions[typ], e.fields)
    ensures Rendered(fm, e.fields, f.field) == Some(IndexableValue(fm, f.value)) <==>
        f.field in e.fields && e.fields[f.field] == f.value
  {
  }
}
