/** Filtering and counting: an index lookup standing in for a scan, a count standing in for a query. */
module Queries {
  import opened Common
  import opened Keys
  import opened Numerals
  import opened Validation
  import opened Store
  import opened Engines
  import opened Paging
  import opened Joins
  import Persistence
  import A = Agreement

  // ---------- filters ----------

  datatype Operator =
    | Eq | Neq | Gt | Gte | Lt | Lte | Contains | StartsWith | EndsWith | In | Fuzzy
    | ArrayContains | ArrayContainsAny | ArrayContainsAll | UnknownOperator

  datatype Filter = Filter(field: string, operator: Operator, value: Value)

  /**
   * Library functions on text: strings.ToLower, time.Parse with RFC 3339, and the fuzzy match with the query's options.
   */
  datatype Texts = Texts(lower: string -> string, parseTime: string -> Option<int>, fuzzy: (string, string) -> bool)

  predicate PartAt(s: string, part: string, i: int) {
    0 <= i <= |s| - |part| && s[i..i + |part|] == part
  }

  predicate HasPart(s: string, part: string) {
    exists i :: 0 <= i <= |s| - |part| && PartAt(s, part, i)
  }

  predicate OrderHolds(operator: Operator, below: bool, above: bool) {
    match operator
    case Gt => above
    case Gte => !below
    case Lt => below
    case Lte => !above
    case _ => false
  }

  /** compareValues. */
  predicate Compares(tx: Texts, v: Value, operator: Operator, w: Value) {
    if Number(v).Some? then
      Number(w).Some? && OrderHolds(operator, Number(v).value < Number(w).value, Number(v).value > Number(w).value)
    else if v.Str? then
      w.Str? && OrderHolds(operator, Before(v.s, w.s), Before(w.s, v.s))
    else if v.Time? then
      var other := if w.Time? then Some(w.t) else if w.Str? then tx.parseTime(w.s) else None;
      other.Some? && OrderHolds(operator, v.t < other.value, v.t > other.value)
    else false
  }

  predicate TextMatch(tx: Texts, operator: Operator, text: string, wanted: string) {
    var s, part := tx.lower(text), tx.lower(wanted);
    match operator
    case Contains => HasPart(s, part)
    case StartsWith => part <= s
    case EndsWith => |part| <= |s| && s[|s| - |part|..] == part
    case _ => false
  }

  /** matchesFilter; reflect.DeepEqual is equality of values. */
  predicate Satisfies(tx: Texts, v: Value, operator: Operator, w: Value) {
    match operator
    case Eq => v == w
    case Neq => v != w
    case Gt | Gte | Lt | Lte => Compares(tx, v, operator, w)
    case Contains =>
      if v.Arr? then exists x :: x in v.elems && (if x.Str? && w.Str? then TextMatch(tx, Contains, x.s, w.s)
          else x == w)
      else v.Str? && w.Str? && TextMatch(tx, Contains, v.s, w.s)
    case StartsWith | EndsWith => v.Str? && w.Str? && TextMatch(tx, operator, v.s, w.s)
    case In => w.Arr? && (v in w.elems || (v.Arr? && exists x :: x in v.elems && x in w.elems))
    case ArrayContains => v.Arr? && w in v.elems
    case ArrayContainsAny => v.Arr? && w.Arr? && exists x :: x in v.elems && x in w.elems
    case ArrayContainsAll => v.Arr? && w.Arr? && forall x :: x in w.elems ==> x in v.elems
    case _ => false
  }

  predicate Indexed(fields: seq<FieldDefinition>, name: string) {
    exists f :: f in fields && f.name == name && f.indexed
  }

  /** The query answers this filter from the index. */
  predicate ByIndex(fields: seq<FieldDefinition>, f: Filter) {
    f.operator == Eq && Indexed(fields, f.field)
  }

  /** The entity passes one filter of a query, whatever the other filters are. */
  predicate Passes(fm: Formats, tx: Texts, fields: seq<FieldDefinition>, f: Filter, e: Entity) {
    if ByIndex(fields, f) then Rendered(fm, e.fields, f.field) == Some(IndexableValue(fm, f.value))
    else if f.operator == Fuzzy then
      f.value.Str? && f.field in e.fields && e.fields[f.field].Str? && tx.fuzzy(e.fields[f.field].s, f.value.s)
    else f.field in e.fields && Satisfies(tx, e.fields[f.field], f.operator, f.value)
  }

  /** A fuzzy filter whose value is not a string is an error. */
  predicate Askable(filters: seq<Filter>) {
    forall f :: f in filters && f.operator == Fuzzy ==> f.value.Str?
  }

  /** One conjunctive scan, the filters in any order. */
  predicate Selected(fm: Formats, tx: Texts, db: Db, typ: string, filters: seq<Filter>, e: Entity)
    requires typ in db.definitions
  {
    && A.KeyOf(e) in db.entities && db.entities[A.KeyOf(e)] == e && e.typ == typ
    && forall f :: f in filters ==> Passes(fm, tx, db.definitions[typ].fields, f, e)
  }

  // ---------- the query ----------

  /** Looking an id up in the index list answers what comparing rendered values would. */
  lemma IndexAnswersScan(fm: Formats, db: Db, typ: string, field: string, value: string, e: Entity)
    requires A.ListsExact(fm, db) && typ in db.definitions && Indexed(db.definitions[typ].fields, field)
    requires A.KeyOf(e) in db.entities && db.entities[A.KeyOf(e)] == e && e.typ == typ
    ensures e.id in Ids(db.indices[typ], field, value) <==> Rendered(fm, e.fields, field) == Some(value)
  {
    var f :| f in db.definitions[typ].fields && f.name == field && f.indexed;
    assert A.ListedRight(fm, db, typ, f, value);
    assert e.id in Ids(db.indices[typ], field, value) <==> A.Carries(fm, db.entities, typ, field, value, e.id);
  }

  /** The entities of a list that pass one filter, in order. */
  function Kept(fm: Formats, tx: Texts, fields: seq<FieldDefinition>, f: Filter, list: seq<Entity>): seq<Entity> {
    if list == [] then []
    else
      Kept(fm, tx, fields, f, list[..|list| - 1])
      + if Passes(fm, tx, fields, f, list[|list| - 1]) then [list[|list| - 1]] else []
  }

  lemma {:induction false} KeptElements(fm: Formats, tx: Texts, fields: seq<FieldDefinition>, f: Filter,
      list: seq<Entity>)
    requires Distinct(list)
    ensures Distinct(Kept(fm, tx, fields, f, list))
    ensures forall e :: e in Kept(fm, tx, fields, f, list) <==> e in list && Passes(fm, tx, fields, f, e)
  {
    if list == [] {
    } else {
      SplitLast(list);
      KeptElements(fm, tx, fields, f, list[..|list| - 1]);
    }
  }

  /** One round of the filter loop: keep the entities that pass, in order. */
  method ApplyFilter(engine: Engine, tx: Texts, typ: string, f: Filter, list: seq<Entity>)
      returns (kept: Option<seq<Entity>>)
    requires engine.ListsExact() && typ in engine.definitions
    requires forall e :: e in list ==> A.KeyOf(e) in engine.entities && engine.entities[A.KeyOf(e)] == e && e.typ == typ
    ensures kept == if f.operator == Fuzzy && !f.value.Str? then None
                    else Some(Kept(engine.fm, tx, engine.definitions[typ].fields, f, list))
  {
    var fields := engine.definitions[typ].fields;
    var byIndex := ByIndex(fields, f);
    if f.operator == Fuzzy && !f.value.Str? { return None; }
    var ids := if byIndex then Ids(engine.indices[typ], f.field, IndexableValue(engine.fm, f.value)) else [];
    var result: seq<Entity> := [];
    for i := 0 to |list|
      invariant result == Kept(engine.fm, tx, fields, f, list[..i])
    {
      assert list[..i + 1][..i] == list[..i];
      var passes := Check(engine, tx, typ, f, ids, list[i]);
      if passes {
        result := result + [list[i]];
      }
    }
    assert list[..|list|] == list;
    return Some(result);
  }

  method Check(engine: Engine, tx: Texts, typ: string, f: Filter, ids: seq<string>, e: Entity) returns (passes: bool)
    requires engine.ListsExact() && typ in engine.definitions
    requires A.KeyOf(e) in engine.entities && engine.entities[A.KeyOf(e)] == e && e.typ == typ
    requires f.operator == Fuzzy ==> f.value.Str?
    requires ByIndex(engine.definitions[typ].fields, f) ==>
        ids == Ids(engine.indices[typ], f.field, IndexableValue(engine.fm, f.value))
    ensures passes <==> Passes(engine.fm, tx, engine.definitions[typ].fields, f, e)
  {
    if ByIndex(engine.definitions[typ].fields, f) {
      IndexAnswersScan(engine.fm, engine.Db(), typ, f.field, IndexableValue(engine.fm, f.value), e);
      return e.id in ids;
    }
    if f.field !in e.fields { return false; }
    var value := e.fields[f.field];
    if f.operator == Fuzzy { return value.Str? && tx.fuzzy(value.s, f.value.s); }
    return Satisfies(tx, value, f.operator, f.value);
  }

  /** The filter pipeline of Query, on the entities in whatever order the map yields them. None is an error. */
  method Filtered(engine: Engine, tx: Texts, typ: string, filters: seq<Filter>) returns (matching: Option<seq<Entity>>)
    requires engine.ListsExact()
    ensures matching.None? <==> typ !in engine.definitions || !Askable(filters)
    ensures matching.Some? ==> Distinct(matching.value)
    ensures matching.Some? ==> forall e ::
        e in matching.value
        <==> Selected(engine.fm, tx, engine.Db(), typ, filters, e)
  {
    if typ !in engine.definitions { return None; }
    var list := Persistence.ListEntities(engine, typ);
    for i := 0 to |filters|
      invariant Distinct(list)
      invariant Askable(filters[..i])
      invariant forall e :: e in list <==> Selected(engine.fm, tx, engine.Db(), typ, filters[..i], e)
    {
      assert filters[..i + 1] == filters[..i] + [filters[i]];
      var kept := ApplyFilter(engine, tx, typ, filters[i], list);
      if kept.None? { return None; }
      KeptElements(engine.fm, tx, engine.definitions[typ].fields, filters[i], list);
      list := kept.value;
    }
    assert filters[..|filters|] == filters;
    return Some(list);
  }

  /** The order of the filters does not matter. */
  lemma FilterOrderIrrelevant(fm: Formats, tx: Texts, db: Db, typ: string, filters1: seq<Filter>, filters2: seq<Filter>,
      e: Entity)
    requires typ in db.definitions && multiset(filters1) == multiset(filters2)
    ensures Selected(fm, tx, db, typ, filters1, e) == Selected(fm, tx, db, typ, filters2, e)
  {
    assert forall f :: f in filters1 <==> f in multiset(filters1);
    assert forall f :: f in filters2 <==> f in multiset(filters2);
  }

  // ---------- whole queries ----------

  datatype QueryOptions = QueryOptions(typ: string, filters: seq<Filter>, orderBy: string, descending: bool,
      offset: nat, limit: int)

  /** A duplicate-free list of exactly the selected entities, sorted by the field if their keys are of one kind. */
  ghost predicate Answers(fm: Formats, tx: Texts, db: Db, options: QueryOptions, all: seq<Entity>)
    requires options.typ in db.definitions
  {
    && Distinct(all)
    && (forall e :: e in all <==> Selected(fm, tx, db, options.typ, options.filters, e))
    && (options.orderBy != "" ==>
          forall kind :: AllOfKind(options.orderBy, kind, all) ==> InOrder(options.orderBy, options.descending, all))
  }

  /** Sorting the selection keeps it duplicate-free. */
  lemma SortedAnswers(fm: Formats, tx: Texts, db: Db, options: QueryOptions, list: seq<Entity>, sort: SortFunction)
    requires SortsWell(sort) && options.typ in db.definitions && Distinct(list)
    requires forall e :: e in list <==> Selected(fm, tx, db, options.typ, options.filters, e)
    ensures Answers(fm, tx, db, options, if options.orderBy == "" then list
        else sort(list, options.orderBy, options.descending))
  {
    if options.orderBy != "" {
      var all := sort(list, options.orderBy, options.descending);
      PermutedDistinct(list, all);
      SameMembers(list, all);
      forall kind | AllOfKind(options.orderBy, kind, all) ensures InOrder(options.orderBy, options.descending, all) {
        assert AllOfKind(options.orderBy, kind, list);
      }
    }
  }

  lemma PermutedDistinct(list: seq<Entity>, all: seq<Entity>)
    requires Distinct(list) && multiset(all) == multiset(list)
    ensures Distinct(all)
  {
    forall i, j | 0 <= i < j < |all| ensures all[i] != all[j] {
      CountDistinct(list, all[i]);
      if all[i] == all[j] { OccursTwice(all, i, j); }
    }
  }

  /** Query: its slice of the sorted selection; all is the whole of it. */
  method Query(engine: Engine, tx: Texts, sort: SortFunction, options: QueryOptions)
      returns (answer: Option<seq<Entity>>, ghost all: seq<Entity>)
    requires engine.ListsExact() && SortsWell(sort)
    ensures answer.None? <==> options.typ !in engine.definitions || !Askable(options.filters)
    ensures answer.Some? ==>
      Answers(engine.fm, tx, engine.Db(), options, all)
          && answer.value == QuerySlice(all, options.offset, options.limit)
  {
    var list := Filtered(engine, tx, options.typ, options.filters);
    if list.None? { return None, []; }
    SortedAnswers(engine.fm, tx, engine.Db(), options, list.value, sort);
    var sorted := if options.orderBy == "" then list.value else sort(list.value, options.orderBy, options.descending);
    all := sorted;
    if options.offset >= |sorted| { return Some([]), all; }
    var end := |sorted|;
    if options.limit > 0 && options.offset + options.limit < end {
      end := options.offset + options.limit;
    }
    return Some(sorted[options.offset..end]), all;
  }

  datatype PageResponse = PageResponse(data: seq<Entity>, total: nat, hasMore: bool)

  /** The default sort key is the creation time. */
  function Ordered(options: QueryOptions): QueryOptions {
    if options.orderBy == "" then options.(orderBy := CREATED_AT, descending := false) else options
  }

  /**
   * ExecutePaginatedQuery: one page of the sorted selection, run through the joins. None is an error or a stop in a
   * join.
   */
  method ExecutePaginatedQuery(engine: Engine, tx: Texts, sort: SortFunction, options: QueryOptions, plan: Plan)
    returns (response: Option<PageResponse>, ghost all: seq<Entity>)
    requires engine.ListsExact() && SortsWell(sort)
    ensures options.typ !in engine.definitions || !Askable(options.filters) ==> response.None?
    ensures options.typ in engine.definitions && Askable(options.filters) ==>
      && Answers(engine.fm, tx, engine.Db(), Ordered(options), all)
      && response == match RunJoins(engine.definitions, plan, Page(all, options.offset, options.limit))
                     case None => None
                     case Some(data) => Some(PageResponse(data, |all|, options.offset + |data| < |all|))
  {
    var ordered := if options.orderBy == "" then options.(orderBy := CREATED_AT, descending := false) else options;
    var answer, found := Query(engine, tx, sort, ordered.(offset := 0, limit := 0));
    all := found;
    if answer.None? { return None, all; }
    var matching := answer.value;
    assert matching == all;
    var results := CutPage(matching, options.offset, options.limit);
    if |plan| > 0 {
      var joined := ExecuteJoins(engine.definitions, plan, results);
      if joined.None? { return None, all; }
      results := joined.value;
    }
    return Some(PageResponse(results, |matching|, options.offset + |results| < |matching|)), all;
  }

  method CutPage(all: seq<Entity>, offset: nat, limit: int) returns (results: seq<Entity>)
    ensures results == Page(all, offset, limit)
  {
    var start := offset;
    if start > |all| { start := |all|; }
    var end := |all|;
    if limit > 0 && start + limit < end {
      end := start + limit;
    }
    results := all;
    if start > 0 || end < |all| {
      results := all[start..end];
    }
  }

  /**
   * ExecuteQueryWithJoins: the page comes back joined, and the joins run on it again. When no row that stays had a
   * compared field written, the answer is that of one run; otherwise there is none.
   */
  method ExecuteQueryWithJoins(engine: Engine, tx: Texts, sort: SortFunction, options: QueryOptions, plan: Plan)
    returns (response: Option<PageResponse>, ghost all: seq<Entity>)
    requires engine.ListsExact() && SortsWell(sort)
    ensures options.typ !in engine.definitions || !Askable(options.filters) ==> response.None?
    ensures options.typ in engine.definitions && Askable(options.filters) ==>
      && Answers(engine.fm, tx, engine.Db(), Ordered(options), all)
      && var page := Page(all, options.offset, options.limit);
         response == match RunJoins(engine.definitions, plan, page)
                     case None => None
                     case Some(data) =>
                       if ComparedUntouched(engine.definitions, plan, page)
                       then Some(PageResponse(data, |all|, options.offset + |data| < |all|)) else None
  {
    var base, found := ExecutePaginatedQuery(engine, tx, sort, options, plan);
    all := found;
    if base.None? { return None, all; }
    JoiningTwiceIff(engine.definitions, plan, Page(all, options.offset, options.limit));
    if |plan| == 0 { return base, all; }
    var joined := ExecuteJoins(engine.definitions, plan, base.value.data);
    if joined.None? { return None, all; }
    return Some(PageResponse(joined.value, base.value.total, base.value.hasMore)), all;
  }

  // ---------- all pages ----------

  /**
   * Two answers to the same options are permutations of each other, and equal if the sort keys are distinct and of one
   * kind.
   */
  lemma AnswersAgree(fm: Formats, tx: Texts, db: Db, options: QueryOptions, all1: seq<Entity>, all2: seq<Entity>)
    requires options.typ in db.definitions && options.orderBy != ""
    requires Answers(fm, tx, db, options, all1) && Answers(fm, tx, db, options, all2)
    ensures multiset(all1) == multiset(all2) && |all1| == |all2|
    ensures forall kind :: DistinctKeys(options.orderBy, kind, all1) ==> all1 == all2
  {
    SameElements(all1, all2);
    SameMembers(all1, all2);
    forall kind | DistinctKeys(options.orderBy, kind, all1) ensures all1 == all2 {
      assert AllOfKind(options.orderBy, kind, all1) && AllOfKind(options.orderBy, kind, all2);
      SortedResultIsUnique(options.orderBy, options.descending, kind, all1, all2, all1, all2);
    }
  }

  /** One more page of an answer seen before; its slice, if the sort keys leave one order. */
  method FetchNext(engine: Engine, tx: Texts, sort: SortFunction, options: QueryOptions, ghost all: seq<Entity>)
      returns (data: seq<Entity>, more: bool)
    requires engine.ListsExact() && SortsWell(sort) && options.limit > 0 && options.offset <= |all|
    requires options.typ in engine.definitions && Askable(options.filters)
    requires Answers(engine.fm, tx, engine.Db(), Ordered(options), all)
    ensures more <==> options.offset + options.limit < |all|
    ensures forall kind :: DistinctKeys(Ordered(options).orderBy, kind, all) ==>
              data == all[options.offset..if more then options.offset + options.limit else |all|]
  {
    var response, next := ExecutePaginatedQuery(engine, tx, sort, options, []);
    AnswersAgree(engine.fm, tx, engine.Db(), Ordered(options), all, next);
    PageAndRest(next, options.offset, options.limit);
    return response.value.data, response.value.hasMore;
  }

  /** A client that asks for page after page until there are no more gets every selected entity once, in order. */
  method FetchAll(engine: Engine, tx: Texts, sort: SortFunction, options: QueryOptions)
      returns (fetched: Option<seq<Entity>>, ghost all: seq<Entity>)
    requires engine.ListsExact() && SortsWell(sort) && options.limit > 0 && options.offset == 0
    ensures fetched.None? <==> options.typ !in engine.definitions || !Askable(options.filters)
    ensures fetched.Some? ==> Answers(engine.fm, tx, engine.Db(), Ordered(options), all)
    ensures fetched.Some? ==> forall kind :: DistinctKeys(Ordered(options).orderBy, kind, all) ==> fetched.value == all
  {
    var response, first := ExecutePaginatedQuery(engine, tx, sort, options, []);
    all := first;
    if response.None? { return None, all; }
    var collected, offset := response.value.data, 0;
    var more := response.value.hasMore;
    PageAndRest(all, 0, options.limit);
    while more
      invariant 0 <= offset <= |all| && (more <==> offset + options.limit < |all|)
      invariant forall kind :: DistinctKeys(Ordered(options).orderBy, kind, all) ==>
                  collected == all[..if more then offset + options.limit else |all|]
      decreases |all| - offset
    {
      offset := offset + options.limit;
      var data;
      data, more := FetchNext(engine, tx, sort, options.(offset := offset), all);
      collected := collected + data;
    }
    return Some(collected), all;
  }
}
