/** What a query selects, operator by operator and value by value. */
module Operators {
  import opened Common
  import opened Keys
  import opened Numerals
  import opened Validation
  import opened Store
  import opened EqualValues
  import opened Queries
  import Counting
  import Paging
  import A = Agreement

  // ---------- one filter at a time ----------

  /** An entity is selected if it is stored under the type and every filter alone selects it. */
  lemma SelectedByEach(fm: Formats, tx: Texts, db: Db, typ: string, filters: seq<Filter>, e: Entity)
    requires typ in db.definitions
    ensures Selected(fm, tx, db, typ, filters, e) <==>
            IsStored(db, typ, e) && forall f :: f in filters ==> Selected(fm, tx, db, typ, [f], e)
  {
    forall f | f in filters
      ensures Selected(fm, tx, db, typ, [f], e) <==>
              IsStored(db, typ, e) && Passes(fm, tx, db.definitions[typ].fields, f, e)
    {
      assert f in [f];
    }
  }

  /** The entity is stored and has the field that the filter is about. */
  predicate Has(db: Db, typ: string, f: Filter, e: Entity) { IsStored(db, typ, e) && f.field in e.fields }

  lemma SelectedAlone(fm: Formats, tx: Texts, db: Db, typ: string, f: Filter, e: Entity)
    requires typ in db.definitions && !ByIndex(db.definitions[typ].fields, f) && f.operator != Fuzzy
    ensures Selected(fm, tx, db, typ, [f], e) <==>
            Has(db, typ, f, e) && Satisfies(tx, e.fields[f.field], f.operator, f.value)
  {
    assert f in [f];
  }

  // ---------- equality ----------

  /** On an indexed field, Eq selects the values written like the filter's; a null is never selected. */
  lemma EqIndexedSelects(fm: Formats, tx: Texts, db: Db, typ: string, f: Filter, e: Entity)
    requires typ in db.definitions && f.operator == Eq && Indexed(db.definitions[typ].fields, f.field)
    ensures Selected(fm, tx, db, typ, [f], e) <==>
            Has(db, typ, f, e) && e.fields[f.field] != Null && Equal(fm, fm.floatV, e.fields[f.field], f.value)
  {
    assert f in [f];
    if f.field in e.fields { IndexableEqualIff(fm, e.fields[f.field], f.value); }
  }

  /** On any other field it selects the value itself. Neq selects what has the field with another value. */
  lemma EqSelects(fm: Formats, tx: Texts, db: Db, typ: string, f: Filter, e: Entity)
    requires typ in db.definitions
    ensures f.operator == Eq && !Indexed(db.definitions[typ].fields, f.field) ==>
              (Selected(fm, tx, db, typ, [f], e) <==> Has(db, typ, f, e) && e.fields[f.field] == f.value)
    ensures f.operator == Neq ==>
              (Selected(fm, tx, db, typ, [f], e) <==> Has(db, typ, f, e) && e.fields[f.field] != f.value)
  {
    if (f.operator == Eq && !Indexed(db.definitions[typ].fields, f.field)) || f.operator == Neq {
      SelectedAlone(fm, tx, db, typ, f, e);
    }
  }

  // ---------- order ----------

  /** The value is a number: a signed integer or a float. */
  predicate IsNumber(v: Value, x: real) {
    || (v.Whole? && v.kind in {Int, Int8, Int16, Int32, Int64} && x == v.n as real)
    || (v.Float32? && x == v.r)
    || (v.Float64? && x == v.r)
  }

  /** a comes before b: at the first difference it has the smaller character, or it ends there. */
  ghost predicate Precedes(a: string, b: string) {
    exists i :: DiffersAt(a, b, i)
  }

  predicate DiffersAt(a: string, b: string, i: nat) {
    i <= |a| && i < |b| && a[..i] == b[..i] && (i < |a| ==> a[i] < b[i])
  }

  lemma {:induction false} BeforeIff(a: string, b: string)
    ensures Paging.Before(a, b) <==> Precedes(a, b)
  {
    if a == [] || b == [] {
      if b != [] { assert DiffersAt(a, b, 0); }
    } else {
      BeforeIff(a[1..], b[1..]);
      if a[0] < b[0] { assert DiffersAt(a, b, 0); }
      if i :| DiffersAt(a[1..], b[1..], i) {
        if a[0] == b[0] { DiffersLater(a, b, i); }
      }
      if i :| DiffersAt(a, b, i) {
        if i > 0 { DiffersSooner(a, b, i); }
      }
    }
  }

  lemma DiffersLater(a: string, b: string, i: nat)
    requires a != [] && b != [] && a[0] == b[0] && DiffersAt(a[1..], b[1..], i)
    ensures DiffersAt(a, b, i + 1)
  {
    assert a[..i + 1] == [a[0]] + a[1..][..i] && b[..i + 1] == [b[0]] + b[1..][..i];
  }

  lemma DiffersSooner(a: string, b: string, i: nat)
    requires i > 0 && DiffersAt(a, b, i)
    ensures a[0] == b[0] && DiffersAt(a[1..], b[1..], i - 1)
  {
    assert a[..i][0] == a[0] && b[..i][0] == b[0];
    assert a[1..][..i - 1] == a[..i][1..] && b[1..][..i - 1] == b[..i][1..];
  }

  /** x stands to y as the operator says. */
  predicate Stands(operator: Operator, x: real, y: real) {
    match operator
    case Gt => x > y
    case Gte => x >= y
    case Lt => x < y
    case Lte => x <= y
    case _ => false
  }

  ghost predicate TextStands(operator: Operator, a: string, b: string) {
    match operator
    case Gt => Precedes(b, a)
    case Gte => Precedes(b, a) || a == b
    case Lt => Precedes(a, b)
    case Lte => Precedes(a, b) || a == b
    case _ => false
  }

  ghost predicate NumbersStand(v: Value, operator: Operator, w: Value) {
    exists x, y :: IsNumber(v, x) && IsNumber(w, y) && Stands(operator, x, y)
  }

  lemma NumberIff(v: Value, x: real)
    ensures IsNumber(v, x) <==> Paging.Number(v) == Some(x)
  {
  }

  lemma NumbersStandIff(v: Value, operator: Operator, w: Value)
    requires operator in {Gt, Gte, Lt, Lte} && Paging.Number(v).Some?
    ensures NumbersStand(v, operator, w) <==>
            Paging.Number(w).Some? && Stands(operator, Paging.Number(v).value, Paging.Number(w).value)
  {
    forall x ensures IsNumber(v, x) <==> Paging.Number(v) == Some(x) { NumberIff(v, x); }
    forall y ensures IsNumber(w, y) <==> Paging.Number(w) == Some(y) { NumberIff(w, y); }
  }

  /** Numbers are compared as numbers, texts as texts, instants with instants or with a text that says one. */
  ghost predicate Ordered(tx: Texts, v: Value, operator: Operator, w: Value) {
    || NumbersStand(v, operator, w)
    || (v.Str? && w.Str? && TextStands(operator, v.s, w.s))
    || (v.Time? && w.Time? && Stands(operator, v.t as real, w.t as real))
    || (v.Time? && w.Str? && tx.parseTime(w.s).Some?
        && Stands(operator, v.t as real, tx.parseTime(w.s).value as real))
  }

  lemma ComparesIff(tx: Texts, v: Value, operator: Operator, w: Value)
    requires operator in {Gt, Gte, Lt, Lte}
    ensures Compares(tx, v, operator, w) <==> Ordered(tx, v, operator, w)
  {
    if v.Str? && w.Str? {
      BeforeIff(v.s, w.s);
      BeforeIff(w.s, v.s);
      Paging.BeforeIsTotal(v.s, w.s);
    } else if Paging.Number(v).Some? {
      NumbersStandIff(v, operator, w);
    }
  }

  /** Gt, Gte, Lt and Lte select exactly the entities whose value is greater, not less, less or not greater. */
  lemma OrderSelects(fm: Formats, tx: Texts, db: Db, typ: string, f: Filter, e: Entity)
    requires typ in db.definitions && f.operator in {Gt, Gte, Lt, Lte}
    ensures Selected(fm, tx, db, typ, [f], e) <==>
            Has(db, typ, f, e) && Ordered(tx, e.fields[f.field], f.operator, f.value)
  {
    SelectedAlone(fm, tx, db, typ, f, e);
    if f.field in e.fields { ComparesIff(tx, e.fields[f.field], f.operator, f.value); }
  }

  // ---------- text ----------

  /** The text, in lower case, is pre, then the part in lower case, then post. */
  predicate Around(tx: Texts, text: string, part: string, pre: string, post: string) {
    tx.lower(text) == pre + tx.lower(part) + post
  }

  ghost predicate Holds(tx: Texts, text: string, part: string) { exists pre, post :: Around(tx, text, part, pre, post) }

  lemma HasPartIff(tx: Texts, text: string, part: string)
    ensures HasPart(tx.lower(text), tx.lower(part)) <==> Holds(tx, text, part)
  {
    var s, p := tx.lower(text), tx.lower(part);
    if i :| 0 <= i <= |s| - |p| && PartAt(s, p, i) {
      assert s == s[..i] + s[i..i + |p|] + s[i + |p|..];
      assert Around(tx, text, part, s[..i], s[i + |p|..]);
    }
    if pre, post :| Around(tx, text, part, pre, post) {
      assert s[|pre|..|pre| + |p|] == p;
      assert PartAt(s, p, |pre|);
    }
  }

  lemma StartIff(tx: Texts, text: string, part: string)
    ensures TextMatch(tx, StartsWith, text, part) <==> exists post :: Around(tx, text, part, "", post)
  {
    var s, p := tx.lower(text), tx.lower(part);
    if p <= s {
      assert s == "" + p + s[|p|..];
      assert Around(tx, text, part, "", s[|p|..]);
    }
    if post :| Around(tx, text, part, "", post) { assert s[..|p|] == p; }
  }

  lemma EndIff(tx: Texts, text: string, part: string)
    ensures TextMatch(tx, EndsWith, text, part) <==> exists pre :: Around(tx, text, part, pre, "")
  {
    var s, p := tx.lower(text), tx.lower(part);
    if |p| <= |s| && s[|s| - |p|..] == p {
      assert s == s[..|s| - |p|] + p + "";
      assert Around(tx, text, part, s[..|s| - |p|], "");
    }
    if pre :| Around(tx, text, part, pre, "") { assert s[|pre|..] == p; }
  }

  /** StartsWith and EndsWith select exactly the texts that begin or end with the part, in whatever case. */
  lemma EdgeSelects(fm: Formats, tx: Texts, db: Db, typ: string, f: Filter, e: Entity)
    requires typ in db.definitions
    ensures f.operator == StartsWith ==>
              (Selected(fm, tx, db, typ, [f], e) <==>
                Has(db, typ, f, e) && e.fields[f.field].Str? && f.value.Str?
                && exists post :: Around(tx, e.fields[f.field].s, f.value.s, "", post))
    ensures f.operator == EndsWith ==>
              (Selected(fm, tx, db, typ, [f], e) <==>
                Has(db, typ, f, e) && e.fields[f.field].Str? && f.value.Str?
                && exists pre :: Around(tx, e.fields[f.field].s, f.value.s, pre, ""))
  {
    if f.operator == StartsWith || f.operator == EndsWith { SelectedAlone(fm, tx, db, typ, f, e); }
    if f.field in e.fields && e.fields[f.field].Str? && f.value.Str? {
      StartIff(tx, e.fields[f.field].s, f.value.s);
      EndIff(tx, e.fields[f.field].s, f.value.s);
    }
  }

  /** An element of an array holds the part, or equals it when one of them is no text. */
  ghost predicate ElementHolds(tx: Texts, elems: seq<Value>, i: nat, w: Value) {
    i < |elems| && if elems[i].Str? && w.Str? then Holds(tx, elems[i].s, w.s) else elems[i] == w
  }

  /** Contains selects exactly the texts that hold the part somewhere, and the arrays with an element that does. */
  lemma ContainsSelects(fm: Formats, tx: Texts, db: Db, typ: string, f: Filter, e: Entity)
    requires typ in db.definitions && f.operator == Contains
    ensures Selected(fm, tx, db, typ, [f], e) <==>
            && Has(db, typ, f, e)
            && var v := e.fields[f.field];
               || (v.Str? && f.value.Str? && Holds(tx, v.s, f.value.s))
               || (v.Arr? && exists i :: ElementHolds(tx, v.elems, i, f.value))
  {
    SelectedAlone(fm, tx, db, typ, f, e);
    if f.field in e.fields {
      var v, w := e.fields[f.field], f.value;
      if v.Str? && w.Str? { HasPartIff(tx, v.s, w.s); }
      if v.Arr? { ContainsElementIff(tx, v, w); }
    }
  }

  lemma ContainsElementIff(tx: Texts, v: Value, w: Value)
    requires v.Arr?
    ensures Satisfies(tx, v, Contains, w) <==> exists i :: ElementHolds(tx, v.elems, i, w)
  {
    forall x | x in v.elems && x.Str? && w.Str? ensures TextMatch(tx, Contains, x.s, w.s) <==> Holds(tx, x.s, w.s) {
      HasPartIff(tx, x.s, w.s);
    }
    if Satisfies(tx, v, Contains, w) {
      var x :| x in v.elems && if x.Str? && w.Str? then TextMatch(tx, Contains, x.s, w.s) else x == w;
      var i :| 0 <= i < |v.elems| && v.elems[i] == x;
      assert ElementHolds(tx, v.elems, i, w);
    }
    if i: nat :| ElementHolds(tx, v.elems, i, w) { assert v.elems[i] in v.elems; }
  }

  // ---------- lists ----------

  /** Some place of the list has the value. */
  ghost predicate Lists(elems: seq<Value>, v: Value) { exists i :: 0 <= i < |elems| && elems[i] == v }

  /** Some value stands in both lists. */
  ghost predicate Meet(a: seq<Value>, b: seq<Value>) {
    exists i, j :: 0 <= i < |a| && 0 <= j < |b| && a[i] == b[j]
  }

  lemma MeetIff(a: seq<Value>, b: seq<Value>)
    ensures (exists x :: x in a && x in b) <==> Meet(a, b)
  {
    if x :| x in a && x in b {
      var i, j :| 0 <= i < |a| && 0 <= j < |b| && a[i] == x && b[j] == x;
    }
    if i, j :| 0 <= i < |a| && 0 <= j < |b| && a[i] == b[j] { assert a[i] in a && a[i] in b; }
  }

  lemma AllIff(a: seq<Value>, b: seq<Value>)
    ensures (forall x :: x in b ==> x in a) <==> forall j :: 0 <= j < |b| ==> Lists(a, b[j])
  {
    if forall x :: x in b ==> x in a {
      forall j | 0 <= j < |b| ensures Lists(a, b[j]) { assert b[j] in b; }
    }
    if forall j :: 0 <= j < |b| ==> Lists(a, b[j]) {
      forall x | x in b ensures x in a {
        var j :| 0 <= j < |b| && b[j] == x;
        assert Lists(a, b[j]);
      }
    }
  }

  /** In: the value stands in the list, or shares an element with it. The others look into the entity's own list. */
  lemma ListSelects(fm: Formats, tx: Texts, db: Db, typ: string, f: Filter, e: Entity)
    requires typ in db.definitions
    ensures f.operator == In ==>
              (Selected(fm, tx, db, typ, [f], e) <==>
                Has(db, typ, f, e) && f.value.Arr?
                && (Lists(f.value.elems, e.fields[f.field])
                    || (e.fields[f.field].Arr? && Meet(e.fields[f.field].elems, f.value.elems))))
    ensures f.operator == ArrayContains ==>
              (Selected(fm, tx, db, typ, [f], e) <==>
                Has(db, typ, f, e) && e.fields[f.field].Arr? && Lists(e.fields[f.field].elems, f.value))
    ensures f.operator == ArrayContainsAny ==>
              (Selected(fm, tx, db, typ, [f], e) <==>
                Has(db, typ, f, e) && e.fields[f.field].Arr? && f.value.Arr?
                && Meet(e.fields[f.field].elems, f.value.elems))
    ensures f.operator == ArrayContainsAll ==>
              (Selected(fm, tx, db, typ, [f], e) <==>
                Has(db, typ, f, e) && e.fields[f.field].Arr? && f.value.Arr?
                && forall j :: 0 <= j < |f.value.elems| ==> Lists(e.fields[f.field].elems, f.value.elems[j]))
  {
    if f.operator in {In, ArrayContains, ArrayContainsAny, ArrayContainsAll} {
      SelectedAlone(fm, tx, db, typ, f, e);
      if f.field in e.fields && e.fields[f.field].Arr? && f.value.Arr? {
        MeetIff(e.fields[f.field].elems, f.value.elems);
        AllIff(e.fields[f.field].elems, f.value.elems);
      }
    }
  }

  /** Fuzzy selects the texts the library's match accepts, and an operator nobody knows selects nothing. */
  lemma OtherSelects(fm: Formats, tx: Texts, db: Db, typ: string, f: Filter, e: Entity)
    requires typ in db.definitions
    ensures f.operator == Fuzzy ==>
              (Selected(fm, tx, db, typ, [f], e) <==>
                Has(db, typ, f, e) && e.fields[f.field].Str? && f.value.Str?
                && tx.fuzzy(e.fields[f.field].s, f.value.s))
    ensures f.operator == UnknownOperator ==> !Selected(fm, tx, db, typ, [f], e)
  {
    assert f in [f];
  }

  // ---------- sorting ----------

  /** The first value may stand before the second: smaller or equal, by its kind; false before true. */
  ghost predicate NotAfter(v: Value, w: Value) {
    && (forall x, y :: IsNumber(v, x) && IsNumber(w, y) ==> x <= y)
    && (v.Str? && w.Str? ==> v.s == w.s || Precedes(v.s, w.s))
    && (v.Time? && w.Time? ==> v.t <= w.t)
    && (v.Bool? && w.Bool? ==> v.b ==> w.b)
  }

  /** The entities may stand in this order: both have the key, and it rises, or falls. */
  ghost predicate MayFollow(field: string, descending: bool, a: Entity, b: Entity) {
    && field in a.fields && field in b.fields
    && if descending then NotAfter(b.fields[field], a.fields[field]) else NotAfter(a.fields[field], b.fields[field])
  }

  lemma MayFollowIff(field: string, descending: bool, kind: Paging.Kind, a: Entity, b: Entity)
    requires Paging.HasKey(field, kind, a) && Paging.HasKey(field, kind, b)
    ensures MayFollow(field, descending, a, b) <==> !Paging.Less(field, descending, b, a)
  {
    var v, w := a.fields[field], b.fields[field];
    if v.Str? {
      BeforeIff(v.s, w.s);
      BeforeIff(w.s, v.s);
      Paging.BeforeIsTotal(v.s, w.s);
    } else if Paging.Number(v).Some? {
      forall x ensures IsNumber(v, x) <==> Paging.Number(v) == Some(x) { NumberIff(v, x); }
      forall y ensures IsNumber(w, y) <==> Paging.Number(w) == Some(y) { NumberIff(w, y); }
      assert IsNumber(v, Paging.Number(v).value) && IsNumber(w, Paging.Number(w).value);
    }
  }

  /** The kinds of keys: texts, instants, truth values and numbers. */
  lemma HasKeyIff(field: string, kind: Paging.Kind, e: Entity)
    ensures Paging.HasKey(field, kind, e) <==>
            && field in e.fields
            && match kind
               case Text => e.fields[field].Str?
               case Instant => e.fields[field].Time?
               case Truth => e.fields[field].Bool?
               case Numeric => exists x :: IsNumber(e.fields[field], x)
  {
    if field in e.fields {
      forall x ensures IsNumber(e.fields[field], x) <==> Paging.Number(e.fields[field]) == Some(x) {
        NumberIff(e.fields[field], x);
      }
    }
  }

  /** A list with keys of one kind is in order exactly if each key may follow every earlier one. */
  lemma InOrderIff(field: string, descending: bool, kind: Paging.Kind, s: seq<Entity>)
    requires Paging.AllOfKind(field, kind, s)
    ensures Paging.InOrder(field, descending, s) <==>
            forall i, j :: 0 <= i < j < |s| ==> MayFollow(field, descending, s[i], s[j])
  {
    forall i, j | 0 <= i < j < |s|
      ensures MayFollow(field, descending, s[i], s[j]) <==> !Paging.Less(field, descending, s[j], s[i])
    {
      assert Paging.HasKey(field, kind, s[i]) && Paging.HasKey(field, kind, s[j]);
      MayFollowIff(field, descending, kind, s[i], s[j]);
    }
  }

  // ---------- counting ----------

  /**
   * The count asks of an entity what each filter alone selects, except that among several filters an indexed Eq asks
   * for the value itself, and that a fuzzy filter counts nothing.
   */
  lemma CountedByEach(fm: Formats, tx: Texts, db: Db, typ: string, filters: seq<Filter>, e: Entity)
    requires typ in db.definitions && IsStored(db, typ, e)
    ensures Counting.Counted(fm, tx, db, typ, filters, A.KeyOf(e)) <==>
            forall f :: f in filters ==>
              if f.operator == Fuzzy then false
              else if f.operator == Eq && |filters| != 1 then f.field in e.fields && e.fields[f.field] == f.value
              else Selected(fm, tx, db, typ, [f], e)
  {
    var fields := db.definitions[typ].fields;
    forall f | f in filters
      ensures Counting.Counts(fm, tx, fields, filters, f, e) <==>
              if f.operator == Fuzzy then false
              else if f.operator == Eq && |filters| != 1 then f.field in e.fields && e.fields[f.field] == f.value
              else Selected(fm, tx, db, typ, [f], e)
    {
      assert f in [f];
    }
  }
}
