/** Validation of entity data against an entity definition. */
module Validation {
  import opened Common
  import opened Numerals

  predicate SignedKind(k: IntKind) {
    k == Int || k == Int8 || k == Int16 || k == Int32 || k == Int64
  }

  /** A float that survives the round trip through a 64-bit integer. */
  predicate IsWhole(r: real) {
    r == r.Floor as real && -TWO_63 <= r.Floor < TWO_63
  }

  /** validateFieldType on a non-null value. */
  predicate TypeAccepts(fm: Formats, typ: FieldType, v: Value) {
    match typ
    case TBoolean => v.Bool?
    case TDate | TDateTime => v.Time? || (v.Str? && fm.isTime(v.s))
    case TString | TText => v.Str?
    case TJson => (v.Str? && fm.isJson(v.s)) || v.Obj? || v.Arr?
    case TInteger => (v.Whole? && SignedKind(v.kind)) || (v.Float64? && IsWhole(v.r))
    case TFloat => v.Float32? || v.Float64? || (v.Whole? && SignedKind(v.kind))
    case TArray => v.Arr?
    case TObject => v.Obj?
    case TUnknown(_) => false
  }

  /** The types a value can be stored under. */
  ghost function TypesOf(fm: Formats, v: Value): set<FieldType> {
    match v
    case Null => {}
    case Bool(_) => {TBoolean}
    case Whole(kind, _) => if kind in {Int, Int8, Int16, Int32, Int64} then {TInteger, TFloat} else {}
    case Float32(_) => {TFloat}
    case Float64(r) => {TFloat} + if HoldsInt64(r) then {TInteger} else {}
    case Str(s) =>
      {TString, TText} + (if fm.isTime(s) then {TDate, TDateTime} else {}) + if fm.isJson(s) then {TJson} else {}
    case Time(_) => {TDate, TDateTime}
    case Arr(_) => {TArray, TJson}
    case Obj(_) => {TObject, TJson}
  }

  /** The float is a 64-bit integer. */
  ghost predicate HoldsInt64(r: real) { exists n: int :: IsInt64(r, n) }

  predicate IsInt64(r: real, n: int) { -TWO_63 <= n < TWO_63 && r == n as real }

  /** The table of types, read the other way round. */
  lemma TypesOfAccept(fm: Formats, typ: FieldType, v: Value)
    ensures TypeAccepts(fm, typ, v) <==> typ in TypesOf(fm, v)
  {
    if v.Float64? && IsWhole(v.r) { assert IsInt64(v.r, v.r.Floor); }
  }

  predicate ValueOk(fm: Formats, f: FieldDefinition, v: Value) {
    if v == Null then f.nullable else TypeAccepts(fm, f.typ, v)
  }

  predicate Declares(def: EntityDefinition, name: string) {
    exists f :: f in def.fields && f.name == name
  }

  predicate InternalField(def: EntityDefinition, name: string) {
    exists f :: f in def.fields && f.name == name && f.internal
  }

  /** No reserved name is used except for a field the definition marks internal. */
  predicate NamesAllowed(def: EntityDefinition, data: Fields) {
    forall name :: name in data && Reserved(name) ==> InternalField(def, name)
  }

  /** validateEntityData, apart from uniqueness. */
  predicate EntityDataOk(fm: Formats, def: EntityDefinition, data: Fields) {
    && NamesAllowed(def, data)
    && forall f :: f in def.fields ==>
      if f.name in data then ValueOk(fm, f, data[f.name]) else !f.required
  }

  /** validateUpdateData, apart from uniqueness; field names are distinct within a definition. */
  predicate UpdateDataOk(fm: Formats, def: EntityDefinition, data: Fields) {
    && NamesAllowed(def, data)
    && (forall name :: name in data ==> Declares(def, name))
    && forall f :: f in def.fields && f.name in data ==> ValueOk(fm, f, data[f.name])
  }

  /** Overlaying an accepted update on valid data gives valid data: an update cannot drop a required field. */
  lemma UpdateKeepsDataOk(fm: Formats, def: EntityDefinition, fields: Fields, data: Fields)
    requires EntityDataOk(fm, def, fields) && UpdateDataOk(fm, def, data)
    ensures EntityDataOk(fm, def, fields + data)
  {
  }

  predicate DistinctNames(fields: seq<FieldDefinition>) {
    forall i, j :: 0 <= i < j < |fields| ==> fields[i].name != fields[j].name
  }
}
