/** Changing the definition of an entity type: which changes are accepted, and what they do to stored values. */
module Schema {
  import opened Common
  import opened Keys
  import opened Validation
  import opened Store
  import opened Tables
  import A = Agreement

  /** isCompatibleTypeChange. */
  predicate Compatible(from: FieldType, to: FieldType) {
    match from
    case TInteger => to == TFloat
    case TString => to == TText
    case TDate => to == TDateTime
    case _ => from == to
  }

  /** convertFieldValue; None is its error. */
  function Convert(v: Value, from: FieldType, to: FieldType): Option<Value> {
    if from == TInteger && to == TFloat then
      (if v.Whole? && (v.kind == Int || v.kind == Int32 || v.kind == Int64) then Some(Float64(v.n as real))
          else Some(v))
    else if from == TString && to == TText then Some(v)
    else if from == TDate && to == TDateTime then Some(v)
    else if from != to then None
    else Some(v)
  }

  /** Every accepted type change converts every value, and a value that fitted the old type fits the new one. */
  lemma CompatibleConverts(fm: Formats, v: Value, from: FieldType, to: FieldType)
    requires Compatible(from, to)
    ensures Convert(v, from, to).Some?
    ensures v == Null <==> Convert(v, from, to) == Some(Null)
    ensures v != Null && TypeAccepts(fm, from, v) ==> TypeAccepts(fm, to, Convert(v, from, to).value)
  {
  }

  /** The field of a definition with the given name. */
  function Find(fields: seq<FieldDefinition>, name: string): (f: Option<FieldDefinition>)
    ensures f.Some? ==> f.value in fields && f.value.name == name
    ensures f.None? <==> forall g :: g in fields ==> g.name != name
  {
    if fields == [] then None else if fields[0].name == name then Some(fields[0]) else Find(fields[1..], name)
  }

  lemma FindOwn(fields: seq<FieldDefinition>, f: FieldDefinition)
    requires DistinctNames(fields) && f in fields
    ensures Find(fields, f.name) == Some(f)
  {
  }

  /** createMigrationPlan accepts: each retained field changes type compatibly and does not become required. */
  predicate Accepts(original: seq<FieldDefinition>, updated: seq<FieldDefinition>) {
    forall f, g :: f in original && g in updated && f.name == g.name ==>
      (f.typ != g.typ ==> Compatible(f.typ, g.typ)) && (g.required ==> f.required)
  }

  /** The type change of one name, if there is one. */
  function ChangeOf(original: seq<FieldDefinition>, updated: seq<FieldDefinition>, name: string): Option<(FieldType,
      FieldType)> {
    match (Find(original, name), Find(updated, name))
    case (Some(f), Some(g)) => if f.typ != g.typ then Some((f.typ, g.typ)) else None
    case _ => None
  }

  function ConvertedValue(original: seq<FieldDefinition>, updated: seq<FieldDefinition>, name: string,
      v: Value): Value {
    match ChangeOf(original, updated, name)
    case None => v
    case Some((from, to)) => (match Convert(v, from, to) case Some(c) => c case None => v)
  }

  /** What the migration makes of one entity's fields: none is lost, only fields that change type change value. */
  function Converted(original: seq<FieldDefinition>, updated: seq<FieldDefinition>, fields: Fields): Fields {
    map name | name in fields :: ConvertedValue(original, updated, name, fields[name])
  }

  function Migrated(original: seq<FieldDefinition>, updated: seq<FieldDefinition>, e: Entity): Entity {
    e.(fields := Converted(original, updated, e.fields))
  }

  /** Two entities of the type have the same key of the field. */
  predicate Shares(fm: Formats, t: Table, typ: string, name: string, k1: string, k2: string) {
    && OfType(t.entities, k1, typ) && OfType(t.entities, k2, typ)
    && UniqueKey(fm, t.entities[k1].fields, name).Some?
    && UniqueKey(fm, t.entities[k1].fields, name) == UniqueKey(fm, t.entities[k2].fields, name)
  }

  /** verifyUniqueConstraintCanBeAdded refuses. */
  predicate Duplicated(fm: Formats, t: Table, typ: string, name: string) {
    exists k1, k2 :: k1 in t.entities && k2 in t.entities && k1 != k2 && Shares(fm, t, typ, name, k1, k2)
  }

  predicate UniqueIn(fields: seq<FieldDefinition>, name: string) {
    exists f :: f in fields && f.name == name && f.unique
  }

  /** No field that becomes unique has a shared key. */
  predicate NewUniquesClean(fm: Formats, t: Table, typ: string, original: seq<FieldDefinition>,
      updated: seq<FieldDefinition>) {
    forall g :: g in updated && g.unique && !UniqueIn(original, g.name) ==> !Duplicated(fm, t, typ, g.name)
  }

  /** The definition UpdateEntityType stores: the id generator cannot be changed. */
  function Upgraded(original: EntityDefinition, updated: EntityDefinition): EntityDefinition {
    EntityDefinition(updated.name, WithInternalFields(updated.fields), original.idGenerator)
  }

  /** UpdateEntityType on the reference store. */
  function UpdateType(fm: Formats, t: Table, updated: EntityDefinition): (Table, Outcome) {
    if updated.name !in t.definitions then (t, Failed(EntityTypeNotFound))
    else
      var original := t.definitions[updated.name];
      if !NewUniquesClean(fm, t, updated.name, original.fields, updated.fields) then (t, Failed(UniqueViolation))
      else if !Accepts(original.fields, updated.fields) then (t, Failed(IncompatibleSchema))
      else
        (Table(t.definitions[updated.name := Upgraded(original, updated)],
               map key | key in t.entities ::
                 if t.entities[key].typ == updated.name then Migrated(original.fields, updated.fields, t.entities[key])
                     else t.entities[key]),
         Done)
  }

  /** The new type of a retained field accepts what the migration made of each well-typed, non-null value. */
  lemma MigrationKeepsTyping(fm: Formats, original: seq<FieldDefinition>, updated: seq<FieldDefinition>, fields: Fields,
                             f: FieldDefinition, g: FieldDefinition)
    requires Accepts(original, updated) && DistinctNames(original) && DistinctNames(updated)
    requires f in original && g in updated && f.name == g.name && g.name in fields
    ensures Converted(original, updated, fields).Keys == fields.Keys
    ensures fields[g.name] == Null <==> Converted(original, updated, fields)[g.name] == Null
    ensures fields[g.name] != Null && TypeAccepts(fm, f.typ, fields[g.name]) ==>
              TypeAccepts(fm, g.typ, Converted(original, updated, fields)[g.name])
  {
    FindOwn(original, f);
    FindOwn(updated, g);
    if f.typ != g.typ { CompatibleConverts(fm, fields[g.name], f.typ, g.typ); }
  }

  /**
   * What the migration does not look at. A field the new definition retains may hold a null it no longer allows; any
   * other field of the stored definition is absent and optional, or already holds a fitting value.
   */
  predicate FitsAnyway(fm: Formats, original: seq<FieldDefinition>, updated: seq<FieldDefinition>, g: FieldDefinition,
      fields: Fields)
  {
    if g in updated && Find(original, g.name).Some? then g.name in fields && fields[g.name] == Null ==> g.nullable
    else if g.name in fields then ValueOk(fm, g, fields[g.name])
    else !g.required
  }

  predicate AllFitAnyway(fm: Formats, original: EntityDefinition, updated: EntityDefinition, fields: Fields) {
    && NamesAllowed(Upgraded(original, updated), fields)
    && forall g :: g in Upgraded(original, updated).fields ==>
         FitsAnyway(fm, original.fields, updated.fields, g, fields)
  }

  /** A field with no type change keeps its value. */
  lemma UnchangedValue(original: seq<FieldDefinition>, updated: seq<FieldDefinition>, name: string, v: Value)
    requires Find(original, name).None? || Find(updated, name).None?
    ensures ConvertedValue(original, updated, name, v) == v
  {
  }

  lemma FitsIff(fm: Formats, original: EntityDefinition, updated: EntityDefinition, fields: Fields, g: FieldDefinition)
    requires DistinctNames(original.fields) && DistinctNames(updated.fields) && Accepts(original.fields, updated.fields)
    requires EntityDataOk(fm, original, fields) && g in Upgraded(original, updated).fields
    ensures var converted := Converted(original.fields, updated.fields, fields);
            FitsAnyway(fm, original.fields, updated.fields, g, fields)
            <==> if g.name in converted then ValueOk(fm, g, converted[g.name]) else !g.required
  {
    var f := Find(original.fields, g.name);
    if g in updated.fields && f.Some? {
      FindOwn(updated.fields, g);
      if g.name in fields {
        MigrationKeepsTyping(fm, original.fields, updated.fields, fields, f.value, g);
      }
    } else if g.name in fields {
      UnchangedValue(original.fields, updated.fields, g.name, fields[g.name]);
    }
  }

  /**
   * A migrated entity validates under the definition the update stores, internal fields included, exactly when the
   * parts the migration does not look at fit: added fields, nulls, and reserved names.
   */
  lemma StaysValidIff(fm: Formats, original: EntityDefinition, updated: EntityDefinition, fields: Fields)
    requires DistinctNames(original.fields) && DistinctNames(updated.fields) && Accepts(original.fields, updated.fields)
    requires EntityDataOk(fm, original, fields)
    ensures EntityDataOk(fm, Upgraded(original, updated), Converted(original.fields, updated.fields, fields))
            <==> AllFitAnyway(fm, original, updated, fields)
  {
    forall g | g in Upgraded(original, updated).fields
      ensures var converted := Converted(original.fields, updated.fields, fields);
              FitsAnyway(fm, original.fields, updated.fields, g, fields)
              <==> if g.name in converted then ValueOk(fm, g, converted[g.name]) else !g.required
    {
      FitsIff(fm, original, updated, fields, g);
    }
  }

  ghost predicate AllValid(fm: Formats, t: Table) {
    && (forall key :: key in t.entities ==> t.entities[key].typ in t.definitions)
    && forall key {:trigger EntityValid(fm, t, key)} :: key in t.entities ==> EntityValid(fm, t, key)
  }

  /**
   * After an accepted update of a store in which all entities validate, they still do exactly if those of the type fit.
   */
  lemma UpdateKeepsAllValidIff(fm: Formats, t: Table, updated: EntityDefinition)
    requires WellFormed(t) && AllValid(fm, t) && DistinctNames(updated.fields)
    requires UpdateType(fm, t, updated).1 == Done
    ensures AllValid(fm, UpdateType(fm, t, updated).0)
            <==> forall key :: OfType(t.entities, key, updated.name) ==>
                   AllFitAnyway(fm, t.definitions[updated.name], updated, t.entities[key].fields)
  {
    forall key | key in t.entities
      ensures EntityValid(fm, UpdateType(fm, t, updated).0, key)
              <==> (t.entities[key].typ == updated.name ==>
                      AllFitAnyway(fm, t.definitions[updated.name], updated, t.entities[key].fields))
    {
      StaysValidAt(fm, t, updated, key);
    }
  }

  lemma StaysValidAt(fm: Formats, t: Table, updated: EntityDefinition, key: string)
    requires WellFormed(t) && key in t.entities && EntityValid(fm, t, key) && DistinctNames(updated.fields)
    requires UpdateType(fm, t, updated).1 == Done
    ensures EntityValid(fm, UpdateType(fm, t, updated).0, key)
            <==> (t.entities[key].typ == updated.name ==>
                    AllFitAnyway(fm, t.definitions[updated.name], updated, t.entities[key].fields))
  {
    if t.entities[key].typ == updated.name {
      StaysValidIff(fm, t.definitions[updated.name], updated, t.entities[key].fields);
    }
  }
}
