/** When two field values share a unique key or an id list, told by the values themselves. */
module EqualValues {
  import opened Common
  import opened Keys
  import opened IdFormats
  import opened Numerals
  import opened Validation
  import opened Store
  import opened Agreement
  import opened Tables
  import opened Schema

  // ---------- values that count as equal ----------

  /** The text s is how the value is written; floats as the given function writes them. */
  predicate PrintsAs(fm: Formats, floats: Value -> string, v: Value, s: string) {
    match v
    case Null => s == "<nil>"
    case Bool(b) => s == if b then "true" else "false"
    case Whole(_, n) => s == SignedDecimal(n)
    case Float32(_) => s == floats(v)
    case Float64(_) => s == floats(v)
    case Str(t) => s == t
    case Time(t) => s == fm.rfc3339(t)
    case Arr(_) => s == fm.json(v)
    case Obj(_) => s == fm.json(v)
  }

  /** Texts, whole numbers of any type and truth values are equal by value; whatever else, if written the same. */
  ghost predicate Equal(fm: Formats, floats: Value -> string, v: Value, w: Value) {
    if v.Str? && w.Str? then v.s == w.s
    else if v.Whole? && w.Whole? then v.n == w.n
    else if v.Bool? && w.Bool? then v.b == w.b
    else exists s :: PrintsAs(fm, floats, v, s) && PrintsAs(fm, floats, w, s)
  }

  /** Non-null values have the same unique key exactly if they are equal. */
  lemma UniqueKeysEqualIff(fm: Formats, v: Value, w: Value)
    requires v != Null && w != Null
    ensures UniqueIndexKey(fm, v) == UniqueIndexKey(fm, w) <==> Equal(fm, fm.floatG, v, w)
  {
    assert PrintsAs(fm, fm.floatG, v, UniqueIndexKey(fm, v)) && PrintsAs(fm, fm.floatG, w, UniqueIndexKey(fm, w));
    if v.Whole? && w.Whole? && SignedDecimal(v.n) == SignedDecimal(w.n) { SignedDecimalInjective(v.n, w.n); }
  }

  lemma IndexableEqualIff(fm: Formats, v: Value, w: Value)
    ensures IndexableValue(fm, v) == IndexableValue(fm, w) <==> Equal(fm, fm.floatV, v, w)
  {
    assert PrintsAs(fm, fm.floatV, v, IndexableValue(fm, v)) && PrintsAs(fm, fm.floatV, w, IndexableValue(fm, w));
    if v.Whole? && w.Whole? && SignedDecimal(v.n) == SignedDecimal(w.n) { SignedDecimalInjective(v.n, w.n); }
  }

  /** The field is there and not null. */
  predicate Filled(fields: Fields, name: string) { name in fields && fields[name] != Null }

  /** Values of one text, boolean or integer field: only an integer field can hold a number as a float, too. */
  lemma EqualInField(fm: Formats, floats: Value -> string, typ: FieldType, v: Value, w: Value)
    requires TypeAccepts(fm, typ, v) && TypeAccepts(fm, typ, w)
    ensures typ == TString || typ == TText ==> (Equal(fm, floats, v, w) <==> v.Str? && w.Str? && v.s == w.s)
    ensures typ == TBoolean ==> (Equal(fm, floats, v, w) <==> v.Bool? && w.Bool? && v.b == w.b)
    ensures typ == TInteger && !v.Float64? && !w.Float64? ==>
        (Equal(fm, floats, v, w) <==> v.Whole? && w.Whole? && v.n == w.n)
  {
  }

  // ---------- unique fields ----------

  /** A stored entity of the type, other than the one with the given id, holds the value of the unique field. */
  ghost predicate HeldByOther(fm: Formats, t: Table, typ: string, fields: Fields, id: string, f: FieldDefinition,
      key: string)
    requires typ in t.definitions
  {
    && f in t.definitions[typ].fields && f.unique
    && key in t.entities && t.entities[key].typ == typ && t.entities[key].id != id
    && Filled(fields, f.name) && Filled(t.entities[key].fields, f.name)
    && Equal(fm, fm.floatG, fields[f.name], t.entities[key].fields[f.name])
  }

  ghost predicate SomeHeldByOther(fm: Formats, t: Table, typ: string, fields: Fields, id: string)
    requires typ in t.definitions
  {
    exists f, key :: HeldByOther(fm, t, typ, fields, id, f, key)
  }

  lemma ClashesIff(fm: Formats, t: Table, typ: string, fields: Fields, id: string)
    requires WellFormed(t) && typ in t.definitions
    ensures Clashes(fm, t.definitions[typ], t.entities, fields, id) <==> SomeHeldByOther(fm, t, typ, fields, id)
  {
    forall f: FieldDefinition, key
      | key in t.entities && Filled(fields, f.name) && Filled(t.entities[key].fields, f.name)
      ensures UniqueKey(fm, fields, f.name) == UniqueKey(fm, t.entities[key].fields, f.name)
          <==> Equal(fm, fm.floatG, fields[f.name], t.entities[key].fields[f.name])
    {
      UniqueKeysEqualIff(fm, fields[f.name], t.entities[key].fields[f.name]);
    }
    if Clashes(fm, t.definitions[typ], t.entities, fields, id) {
      var f, key :| f in t.definitions[typ].fields && f.unique && key in t.entities
        && t.entities[key].typ == typ && t.entities[key].id != id && UniqueKey(fm, fields, f.name).Some?
        && UniqueKey(fm, fields, f.name) == UniqueKey(fm, t.entities[key].fields, f.name);
      assert HeldByOther(fm, t, typ, fields, id, f, key);
    }
    if f, key :| HeldByOther(fm, t, typ, fields, id, f, key) {
      assert UniqueKey(fm, fields, f.name) == UniqueKey(fm, t.entities[key].fields, f.name);
    }
  }

  // ---------- id lists ----------

  /** Two stored entities of a type are in one id list of an indexed field exactly if both have equal values in it. */
  lemma ListedTogetherIff(fm: Formats, db: Db, typ: string, f: FieldDefinition, e1: Entity, e2: Entity)
    requires ListsExact(fm, db) && typ in db.definitions && f in db.definitions[typ].fields && f.indexed
    requires IsStored(db, typ, e1) && IsStored(db, typ, e2)
    ensures (exists value :: ListedUnder(db, typ, f, value, e1.id) && ListedUnder(db, typ, f, value, e2.id))
            <==> Filled(e1.fields, f.name) && Filled(e2.fields, f.name)
                 && Equal(fm, fm.floatV, e1.fields[f.name], e2.fields[f.name])
  {
    forall value
      ensures ListedUnder(db, typ, f, value, e1.id) <==> Rendered(fm, e1.fields, f.name) == Some(value)
      ensures ListedUnder(db, typ, f, value, e2.id) <==> Rendered(fm, e2.fields, f.name) == Some(value)
    {
      assert ListedRight(fm, db, typ, f, value);
      assert ListedUnder(db, typ, f, value, e1.id) <==> Carries(fm, db.entities, typ, f.name, value, e1.id);
      assert ListedUnder(db, typ, f, value, e2.id) <==> Carries(fm, db.entities, typ, f.name, value, e2.id);
    }
    if Filled(e1.fields, f.name) && Filled(e2.fields, f.name) {
      IndexableEqualIff(fm, e1.fields[f.name], e2.fields[f.name]);
      assert ListedUnder(db, typ, f, IndexableValue(fm, e1.fields[f.name]), e1.id);
    }
  }

  predicate IsStored(db: Db, typ: string, e: Entity) {
    KeyOf(e) in db.entities && db.entities[KeyOf(e)] == e && e.typ == typ
  }

  predicate ListedUnder(db: Db, typ: string, f: FieldDefinition, value: string, id: string)
    requires typ in db.indices
  {
    id in Ids(db.indices[typ], f.name, value)
  }
}
