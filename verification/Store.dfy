/** The engine's four maps as one value, and the upkeep of its two index structures. */
module Store {
  import opened Common
  import opened Keys
  import opened IdFormats
  import opened Numerals
  import opened Validation

  // field -> rendered value -> ids, and field -> unique key -> owner, for one entity type
  type TypeIndex = map<string, map<string, seq<string>>>
  type TypeUnique = map<string, map<string, string>>

  datatype Db = Db(
    definitions: map<string, EntityDefinition>,
    entities: map<string, Entity>,
    indices: map<string, TypeIndex>,
    uniqueIndices: map<string, TypeUnique>)

  const EMPTY_DB := Db(map[], map[], map[], map[])

  /** getIndexableValue. */
  function IndexableValue(fm: Formats, v: Value): string {
    match v
    case Str(s) => s
    case Time(t) => fm.rfc3339(t)
    case Bool(b) => if b then "true" else "false"
    case Arr(_) => fm.json(v)
    case Obj(_) => fm.json(v)
    case Whole(_, n) => SignedDecimal(n)
    case Null => "<nil>"
    case _ => fm.floatV(v)
  }

  /** uniqueIndexKey. */
  function UniqueIndexKey(fm: Formats, v: Value): string {
    match v
    case Str(s) => s
    case Whole(_, n) => SignedDecimal(n)
    case Float32(_) => fm.floatG(v)
    case Float64(_) => fm.floatG(v)
    case Bool(b) => if b then "true" else "false"
    case Time(t) => fm.rfc3339(t)
    case _ => fm.json(v)
  }

  /** The value under which the index lists an entity, if its field is present and not null. */
  function Rendered(fm: Formats, fields: Fields, name: string): Option<string> {
    if name in fields && fields[name] != Null then Some(IndexableValue(fm, fields[name])) else None
  }

  function UniqueKey(fm: Formats, fields: Fields, name: string): Option<string> {
    if name in fields && fields[name] != Null then Some(UniqueIndexKey(fm, fields[name])) else None
  }

  function Ids(ix: TypeIndex, name: string, value: string): seq<string> {
    if name in ix && value in ix[name] then ix[name][value] else []
  }

  function Owner(ux: TypeUnique, name: string, key: string): Option<string> {
    if name in ux && key in ux[name] then Some(ux[name][key]) else None
  }

  // ---------- one field ----------

  function AddToField(fm: Formats, ix: TypeIndex, f: FieldDefinition, e: Entity): TypeIndex {
    match Rendered(fm, e.fields, f.name)
    case Some(value) =>
      if !f.indexed then ix
      else
        var values := if f.name in ix then ix[f.name] else map[];
        ix[f.name := values[value := Ids(ix, f.name, value) + [e.id]]]
    case None => ix
  }

  function RemoveFromField(fm: Formats, ix: TypeIndex, f: FieldDefinition, e: Entity): TypeIndex {
    match Rendered(fm, e.fields, f.name)
    case Some(value) =>
      if !f.indexed || f.name !in ix then ix
      else
        var left := RemoveFirst(Ids(ix, f.name, value), e.id);
        if left == [] then ix[f.name := ix[f.name] - {value}]
        else ix[f.name := ix[f.name][value := left]]
    case None => ix
  }

  function AddUnique(fm: Formats, ux: TypeUnique, f: FieldDefinition, e: Entity): TypeUnique {
    match UniqueKey(fm, e.fields, f.name)
    case Some(key) =>
      if !f.unique then ux
      else
        var owners := if f.name in ux then ux[f.name] else map[];
        ux[f.name := owners[key := e.id]]
    case None => ux
  }

  function RemoveUnique(fm: Formats, ux: TypeUnique, f: FieldDefinition, e: Entity): TypeUnique {
    match UniqueKey(fm, e.fields, f.name)
    case Some(key) =>
      if !f.unique || f.name !in ux then ux else ux[f.name := ux[f.name] - {key}]
    case None => ux
  }

  // ---------- all fields of a definition, in order ----------

  function IndexFields(fm: Formats, ix: TypeIndex, fields: seq<FieldDefinition>, e: Entity, add: bool): TypeIndex {
    if fields == [] then ix
    else
      var rest := IndexFields(fm, ix, fields[..|fields| - 1], e, add);
      if add then AddToField(fm, rest, fields[|fields| - 1], e) else RemoveFromField(fm, rest, fields[|fields| - 1], e)
  }

  function UniqueFields(fm: Formats, ux: TypeUnique, fields: seq<FieldDefinition>, e: Entity, add: bool): TypeUnique {
    if fields == [] then ux
    else
      var rest := UniqueFields(fm, ux, fields[..|fields| - 1], e, add);
      if add then AddUnique(fm, rest, fields[|fields| - 1], e) else RemoveUnique(fm, rest, fields[|fields| - 1], e)
  }

  /** What indexing e under the given fields does to one id list. */
  lemma {:induction false} IndexFieldsAt(
    fm: Formats, ix: TypeIndex, fields: seq<FieldDefinition>, e: Entity, add: bool, name: string, value: string)
    requires DistinctNames(fields)
    ensures var touched := (exists f :: f in fields && f.name == name && f.indexed)
        && Rendered(fm, e.fields, name) == Some(value);
            Ids(IndexFields(fm, ix, fields, e, add), name, value) ==
            if !touched then Ids(ix, name, value)
            else if add then Ids(ix, name, value) + [e.id]
            else RemoveFirst(Ids(ix, name, value), e.id)
  {
    if fields == [] {
    } else {
      var front, last := fields[..|fields| - 1], fields[|fields| - 1];
      IndexFieldsAt(fm, ix, front, e, add, name, value);
      assert forall f :: f in fields <==> f in front || f == last;
      assert last.name == name ==> forall f :: f in front ==> f.name != name;
    }
  }

  /** What registering e under the given unique fields does to one owner. */
  lemma {:induction false} UniqueFieldsAt(
    fm: Formats, ux: TypeUnique, fields: seq<FieldDefinition>, e: Entity, add: bool, name: string, key: string)
    requires DistinctNames(fields)
    ensures var touched := (exists f :: f in fields && f.name == name && f.unique)
        && UniqueKey(fm, e.fields, name) == Some(key);
            Owner(UniqueFields(fm, ux, fields, e, add), name, key) ==
            if !touched then Owner(ux, name, key) else if add then Some(e.id) else None
  {
    if fields == [] {
    } else {
      var front, last := fields[..|fields| - 1], fields[|fields| - 1];
      UniqueFieldsAt(fm, ux, front, e, add, name, key);
      assert forall f :: f in fields <==> f in front || f == last;
      assert last.name == name ==> forall f :: f in front ==> f.name != name;
    }
  }
}
