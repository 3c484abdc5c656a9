/**
 * What migrating the entities of a type, one after another, does to their unique keys: right or wrong by the order of
 * the walk.
 */
module Migrations {
  import opened Common
  import opened Keys
  import opened Validation
  import opened Store
  import opened Agreement
  import opened Tables
  import opened Commits
  import opened Schema

  // ---------- the owners of one field's keys ----------

  /** One entity's part in the migration of one unique field: the key it gives up, then the key it takes. */
  datatype Move = Move(id: string, from: Option<string>, to: Option<string>)

  /** The owner of a key after the moves. */
  function OwnerAfter(start: Option<string>, moves: seq<Move>, key: string): Option<string> {
    if moves == [] then start
    else
      var m := moves[|moves| - 1];
      if m.to == Some(key) then Some(m.id)
      else if m.from == Some(key) then None
      else OwnerAfter(start, moves[..|moves| - 1], key)
  }

  lemma OwnerAt(start: Option<string>, moves: seq<Move>, i: nat, key: string)
    requires i < |moves|
    ensures OwnerAfter(start, moves[..i + 1], key) ==
            if moves[i].to == Some(key) then Some(moves[i].id)
            else if moves[i].from == Some(key) then None
            else OwnerAfter(start, moves[..i], key)
  {
    assert moves[..i + 1][..i] == moves[..i];
  }

  lemma {:induction false} OwnerStays(start: Option<string>, moves: seq<Move>, n: nat, key: string)
    requires n <= |moves| && forall j :: n <= j < |moves| ==> moves[j].to != Some(key) && moves[j].from != Some(key)
    ensures OwnerAfter(start, moves, key) == OwnerAfter(start, moves[..n], key)
  {
    if n == |moves| {
      assert moves[..n] == moves;
    } else {
      assert moves[..|moves| - 1][..n] == moves[..n];
      OwnerStays(start, moves[..|moves| - 1], n, key);
    }
  }

  lemma {:induction false} NoOwnerStays(start: Option<string>, moves: seq<Move>, n: nat, key: string)
    requires n <= |moves| && OwnerAfter(start, moves[..n], key).None?
    requires forall j :: n <= j < |moves| ==> moves[j].to != Some(key)
    ensures OwnerAfter(start, moves, key).None?
  {
    if n == |moves| {
      assert moves[..n] == moves;
    } else {
      assert moves[..|moves| - 1][..n] == moves[..n];
      NoOwnerStays(start, moves[..|moves| - 1], n, key);
    }
  }

  /** No two entities end with one key. */
  predicate TargetsDiffer(moves: seq<Move>) {
    forall i, j :: 0 <= i < j < |moves| && moves[i].to.Some? ==> moves[i].to != moves[j].to
  }

  /** Nor does one take a key that a later one has yet to give up. */
  predicate MovesApart(moves: seq<Move>) {
    TargetsDiffer(moves) && forall i, j :: 0 <= i < j < |moves| && moves[i].to.Some? ==> moves[i].to != moves[j].from
  }

  predicate Takes(moves: seq<Move>, key: string, id: string) {
    exists i :: 0 <= i < |moves| && moves[i].id == id && moves[i].to == Some(key)
  }

  predicate Gives(moves: seq<Move>, key: string, id: string) {
    exists i :: 0 <= i < |moves| && moves[i].id == id && moves[i].from == Some(key)
  }

  predicate DistinctIds(moves: seq<Move>) {
    forall i, j :: 0 <= i < j < |moves| ==> moves[i].id != moves[j].id
  }

  lemma ApartIsOwned(start: Option<string>, moves: seq<Move>, key: string, id: string)
    requires MovesApart(moves) && (start.Some? ==> Gives(moves, key, start.value))
    ensures OwnerAfter(start, moves, key) == Some(id) <==> Takes(moves, key, id)
  {
    if i :| 0 <= i < |moves| && moves[i].to == Some(key) {
      OwnerStays(start, moves, i + 1, key);
      OwnerAt(start, moves, i, key);
    } else if i :| 0 <= i < |moves| && moves[i].from == Some(key) {
      OwnerAt(start, moves, i, key);
      NoOwnerStays(start, moves, i + 1, key);
    } else {
      OwnerStays(start, moves, 0, key);
    }
  }

  /** An entity that takes a key another takes or gives up later does not end up as the owner its key should have. */
  lemma NotApartIsNotOwned(start: Option<string>, moves: seq<Move>, i: nat, j: nat, key: string)
    requires DistinctIds(moves) && i < j < |moves| && moves[i].to == Some(key)
        && Some(key) in [moves[j].to, moves[j].from]
    ensures exists id :: Takes(moves, key, id) && OwnerAfter(start, moves, key) != Some(id)
  {
    if m :| j <= m < |moves| && moves[m].to == Some(key) {
      assert Takes(moves, key, moves[i].id) && Takes(moves, key, moves[m].id) && moves[i].id != moves[m].id;
    } else {
      OwnerAt(start, moves, j, key);
      NoOwnerStays(start, moves, j + 1, key);
      assert Takes(moves, key, moves[i].id);
    }
  }

  // ---------- the migration of the whole store ----------

  type Definition = seq<FieldDefinition>

  function MoveOf(fm: Formats, original: Definition, updated: Definition, e: Entity, name: string): Move {
    Move(e.id, UniqueKey(fm, e.fields, name), UniqueKey(fm, Converted(original, updated, e.fields), name))
  }

  function MovesOf(fm: Formats, original: Definition, updated: Definition, es: seq<Entity>, name: string): seq<Move> {
    seq(|es|, i requires 0 <= i < |es| => MoveOf(fm, original, updated, es[i], name))
  }

  /**
   * The loop of executeMigrationPlan over the listed entities: each is swapped for what the plan makes of it. The plan
   * was made from the definition original, while the index upkeep goes by the one the store has.
   */
  function WalkAll(fm: Formats, db: Db, typ: string, original: Definition, updated: Definition, es: seq<Entity>)
    : (r: Db)
    requires typ in db.definitions && typ in db.indices && typ in db.uniqueIndices && forall e :: e in es ==>
        e.typ == typ
    ensures r.definitions == db.definitions && r.indices.Keys == db.indices.Keys
        && r.uniqueIndices.Keys == db.uniqueIndices.Keys
  {
    if es == [] then db
    else
      var e := es[|es| - 1];
      Replace(fm, WalkAll(fm, db, typ, original, updated, es[..|es| - 1]), e, Migrated(original, updated, e))
  }

  /** The walk of a plan that was made from the definition the store has. */
  function MigrateAll(fm: Formats, db: Db, typ: string, updated: Definition, es: seq<Entity>): (r: Db)
    requires typ in db.definitions && typ in db.indices && typ in db.uniqueIndices && forall e :: e in es ==>
        e.typ == typ
    ensures r.definitions == db.definitions && r.indices.Keys == db.indices.Keys
        && r.uniqueIndices.Keys == db.uniqueIndices.Keys
  {
    WalkAll(fm, db, typ, db.definitions[typ].fields, updated, es)
  }

  /** The entities once those in done have been migrated. */
  function PartlyMigrated(original: Definition, updated: Definition, entities: map<string, Entity>, done: seq<Entity>)
    : map<string, Entity>
  {
    map key | key in entities :: if entities[key] in done then Migrated(original, updated, entities[key])
        else entities[key]
  }

  function AllMigrated(original: Definition, updated: Definition, entities: map<string, Entity>,
      typ: string): map<string, Entity> {
    map key | key in entities :: if entities[key].typ == typ then Migrated(original, updated, entities[key])
        else entities[key]
  }

  lemma MigrateOneMore(original: Definition, updated: Definition, entities: map<string, Entity>, done: seq<Entity>,
      e: Entity)
    requires forall key :: key in entities ==> key == KeyOf(entities[key])
    requires KeyOf(e) in entities && entities[KeyOf(e)] == e && e !in done
    ensures PartlyMigrated(original, updated, entities, done + [e])
            == PartlyMigrated(original, updated, entities, done)[KeyOf(e) := Migrated(original, updated, e)]
    ensures PartlyMigrated(original, updated, entities, done)[KeyOf(e)] == e
  {
  }

  lemma MigrateNoneOrAll(original: Definition, updated: Definition, db: Db, typ: string, es: seq<Entity>)
    requires WellKeyed(db.definitions, db.entities) && ListsType(db, typ, es)
    ensures PartlyMigrated(original, updated, db.entities, []) == db.entities
    ensures PartlyMigrated(original, updated, db.entities, es) == AllMigrated(original, updated, db.entities, typ)
  {
  }

  /** Some of the stored entities of a type. */
  ghost predicate Listed(db: Db, typ: string, es: seq<Entity>) {
    Distinct(es) && forall e :: e in es ==> KeyOf(e) in db.entities && db.entities[KeyOf(e)] == e && e.typ == typ
  }

  lemma ListedFront(db: Db, typ: string, es: seq<Entity>)
    requires Listed(db, typ, es) && es != []
    ensures var n := |es| - 1;
            && Listed(db, typ, es[..n]) && es[n] !in es[..n] && es == es[..n] + [es[n]]
            && KeyOf(es[n]) in db.entities && db.entities[KeyOf(es[n])] == es[n] && es[n].typ == typ
  {
    SplitLast(es);
  }

  /** However keys meet, and whatever definition the plan was made from, the walk keeps every id list exact. */
  lemma {:induction false} WalkKeepsLists(fm: Formats, db: Db, typ: string, original: Definition, updated: Definition,
      es: seq<Entity>)
    requires ListsExact(fm, db) && typ in db.definitions && Listed(db, typ, es)
    ensures var r := WalkAll(fm, db, typ, original, updated, es);
            ListsExact(fm, r) && r.entities == PartlyMigrated(original, updated, db.entities, es)
  {
    if es == [] {
      assert PartlyMigrated(original, updated, db.entities, []) == db.entities;
    } else {
      var n := |es| - 1;
      ListedFront(db, typ, es);
      WalkKeepsLists(fm, db, typ, original, updated, es[..n]);
      MigrateOneMore(original, updated, db.entities, es[..n], es[n]);
      var front := WalkAll(fm, db, typ, original, updated, es[..n]);
      ReplaceStructured(fm, front, es[n], Migrated(original, updated, es[n]));
      ReplaceKeepsLists(fm, front, es[n], Migrated(original, updated, es[n]));
    }
  }

  lemma MigrateKeepsLists(fm: Formats, db: Db, typ: string, updated: Definition, es: seq<Entity>)
    requires ListsExact(fm, db) && typ in db.definitions && Listed(db, typ, es)
    ensures var r := MigrateAll(fm, db, typ, updated, es);
            ListsExact(fm, r)
            && r.entities == PartlyMigrated(db.definitions[typ].fields, updated, db.entities, es)
  {
    WalkKeepsLists(fm, db, typ, db.definitions[typ].fields, updated, es);
  }

  lemma MigrateLast(fm: Formats, db: Db, typ: string, updated: Definition, es: seq<Entity>)
    requires ListsExact(fm, db) && typ in db.definitions && Listed(db, typ, es) && es != []
    ensures var n := |es| - 1;
            && Listed(db, typ, es[..n]) && es[n].typ == typ
            && Structured(MigrateAll(fm, db, typ, updated, es[..n]))
            && MigrateAll(fm, db, typ, updated, es)
               == Replace(fm, MigrateAll(fm, db, typ, updated, es[..n]), es[n],
                   Migrated(db.definitions[typ].fields, updated, es[n]))
  {
    ListedFront(db, typ, es);
    MigrateKeepsLists(fm, db, typ, updated, es[..|es| - 1]);
  }

  lemma LastOwner(fm: Formats, db: Db, typ: string, updated: Definition, es: seq<Entity>, f: FieldDefinition,
      key: string)
    requires ListsExact(fm, db) && typ in db.definitions && Listed(db, typ, es) && es != []
    requires f in db.definitions[typ].fields && f.unique
    ensures var n := |es| - 1; var m := MoveOf(fm, db.definitions[typ].fields, updated, es[n], f.name);
            && Listed(db, typ, es[..n])
            && Owner(MigrateAll(fm, db, typ, updated, es).uniqueIndices[typ], f.name, key) ==
               if m.to == Some(key) then Some(m.id) else if m.from == Some(key) then None
               else Owner(MigrateAll(fm, db, typ, updated, es[..n]).uniqueIndices[typ], f.name, key)
  {
    var n := |es| - 1;
    MigrateLast(fm, db, typ, updated, es);
    ReplaceOwner(fm, MigrateAll(fm, db, typ, updated, es[..n]), es[n], Migrated(db.definitions[typ].fields, updated,
        es[n]), f, key);
  }

  lemma LastMove(fm: Formats, original: Definition, updated: Definition, es: seq<Entity>, name: string)
    requires es != []
    ensures MovesOf(fm, original, updated, es, name) ==
            MovesOf(fm, original, updated, es[..|es| - 1], name) + [MoveOf(fm, original, updated, es[|es| - 1], name)]
  {
  }

  lemma OwnerOneMore(start: Option<string>, moves: seq<Move>, m: Move, key: string)
    ensures OwnerAfter(start, moves + [m], key) ==
            if m.to == Some(key) then Some(m.id) else if m.from == Some(key) then None
                else OwnerAfter(start, moves, key)
  {
    assert (moves + [m])[..|moves|] == moves;
  }

  /** The owners of one unique field follow the moves. */
  lemma {:induction false} MigrateOwner(fm: Formats, db: Db, typ: string, updated: Definition, es: seq<Entity>,
      f: FieldDefinition, key: string)
    requires ListsExact(fm, db) && typ in db.definitions && Listed(db, typ, es)
    requires f in db.definitions[typ].fields && f.unique
    ensures Owner(MigrateAll(fm, db, typ, updated, es).uniqueIndices[typ], f.name, key)
            == OwnerAfter(Owner(db.uniqueIndices[typ], f.name, key), MovesOf(fm, db.definitions[typ].fields, updated,
                es, f.name), key)
  {
    var original := db.definitions[typ].fields;
    if es == [] {
    } else {
      var n := |es| - 1;
      LastOwner(fm, db, typ, updated, es, f, key);
      MigrateOwner(fm, db, typ, updated, es[..n], f, key);
      LastMove(fm, original, updated, es, f.name);
      OwnerOneMore(Owner(db.uniqueIndices[typ], f.name, key), MovesOf(fm, original, updated, es[..n], f.name),
                   MoveOf(fm, original, updated, es[n], f.name), key);
    }
  }

  /** Every key of one field has exactly the owner a scan finds. */
  ghost predicate FieldOwned(fm: Formats, entities: map<string, Entity>, ux: TypeUnique, typ: string, name: string) {
    forall key, id {:trigger Owns(fm, entities, typ, name, key, id)} ::
      Owner(ux, name, key) == Some(id) <==> Owns(fm, entities, typ, name, key, id)
  }

  lemma MoveAt(fm: Formats, db: Db, typ: string, updated: Definition, es: seq<Entity>, name: string, key: string,
      id: string)
    requires WellKeyed(db.definitions, db.entities) && typ in db.definitions && ListsType(db, typ, es)
    ensures var original := db.definitions[typ].fields; var moves := MovesOf(fm, original, updated, es, name);
            && (Gives(moves, key, id) <==> Owns(fm, db.entities, typ, name, key, id))
            && (Takes(moves, key, id) <==> Owns(fm, AllMigrated(original, updated, db.entities, typ), typ, name, key,
                id))
  {
    var moves := MovesOf(fm, db.definitions[typ].fields, updated, es, name);
    StoredUnderKey(db, typ, id);
    if CreateKey(typ, id) in db.entities {
      var e := db.entities[CreateKey(typ, id)];
      var i :| 0 <= i < |es| && es[i] == e;
      assert moves[i].id == id;
    }
    assert forall i :: 0 <= i < |es| ==> es[i] in es;
  }

  lemma MovesDistinct(fm: Formats, db: Db, typ: string, updated: Definition, es: seq<Entity>, name: string)
    requires typ in db.definitions && ListsType(db, typ, es)
    ensures DistinctIds(MovesOf(fm, db.definitions[typ].fields, updated, es, name))
  {
    forall i, j | 0 <= i < j < |es| ensures es[i].id != es[j].id {
      assert es[i] in es && es[j] in es;
    }
  }

  /**
   * The owners of a field that was unique all along are right after the walk exactly if no entity takes a key that a
   * later one takes or has yet to give up.
   */
  lemma MigrationOwnsIff(fm: Formats, db: Db, typ: string, updated: Definition, es: seq<Entity>, f: FieldDefinition)
    requires Valid(fm, db) && typ in db.definitions && ListsType(db, typ, es)
    requires f in db.definitions[typ].fields && f.unique
    ensures var r := MigrateAll(fm, db, typ, updated, es); var original := db.definitions[typ].fields;
            FieldOwned(fm, AllMigrated(original, updated, db.entities, typ), r.uniqueIndices[typ], typ, f.name)
            <==> MovesApart(MovesOf(fm, original, updated, es, f.name))
  {
    var original := db.definitions[typ].fields;
    var entities := AllMigrated(original, updated, db.entities, typ);
    var ux, moves := MigrateAll(fm, db, typ, updated, es).uniqueIndices[typ],
        MovesOf(fm, original, updated, es, f.name);
    if MovesApart(moves) {
      forall key, id ensures Owner(ux, f.name, key) == Some(id) <==> Owns(fm, entities, typ, f.name, key, id) {
        StartsOwned(fm, db, typ, updated, es, f, key);
        MoveAt(fm, db, typ, updated, es, f.name, key, id);
        MigrateOwner(fm, db, typ, updated, es, f, key);
        ApartIsOwned(Owner(db.uniqueIndices[typ], f.name, key), moves, key, id);
      }
    } else {
      var key, id := SomeKeyMeets(fm, db, typ, updated, es, f);
      assert Owns(fm, entities, typ, f.name, key, id);
    }
  }

  lemma SomeKeyMeets(fm: Formats, db: Db, typ: string, updated: Definition, es: seq<Entity>, f: FieldDefinition)
    returns (key: string, id: string)
    requires Valid(fm, db) && typ in db.definitions && ListsType(db, typ, es)
    requires f in db.definitions[typ].fields && f.unique
    requires !MovesApart(MovesOf(fm, db.definitions[typ].fields, updated, es, f.name))
    ensures Owner(MigrateAll(fm, db, typ, updated, es).uniqueIndices[typ], f.name, key) != Some(id)
    ensures Owns(fm, AllMigrated(db.definitions[typ].fields, updated, db.entities, typ), typ, f.name, key, id)
  {
    var moves := MovesOf(fm, db.definitions[typ].fields, updated, es, f.name);
    MovesDistinct(fm, db, typ, updated, es, f.name);
    var i, j :| 0 <= i < j < |moves| && moves[i].to.Some?
        && (moves[i].to == moves[j].to || moves[i].to == moves[j].from);
    key := moves[i].to.value;
    var start := Owner(db.uniqueIndices[typ], f.name, key);
    NotApartIsNotOwned(start, moves, i, j, key);
    id :| Takes(moves, key, id) && OwnerAfter(start, moves, key) != Some(id);
    MigrateOwner(fm, db, typ, updated, es, f, key);
    MoveAt(fm, db, typ, updated, es, f.name, key, id);
  }

  lemma StartsOwned(fm: Formats, db: Db, typ: string, updated: Definition, es: seq<Entity>, f: FieldDefinition,
      key: string)
    requires Valid(fm, db) && typ in db.definitions && ListsType(db, typ, es)
    requires f in db.definitions[typ].fields && f.unique
    ensures var start := Owner(db.uniqueIndices[typ], f.name, key);
            start.Some? ==> Gives(MovesOf(fm, db.definitions[typ].fields, updated, es, f.name), key, start.value)
  {
    var start := Owner(db.uniqueIndices[typ], f.name, key);
    assert OwnedRight(fm, db, typ, f, key);
    if start.Some? {
      assert Owns(fm, db.entities, typ, f.name, key, start.value);
      MoveAt(fm, db, typ, updated, es, f.name, key, start.value);
    }
  }

  lemma ListedAt(db: Db, typ: string, es: seq<Entity>, key: string) returns (i: nat)
    requires WellKeyed(db.definitions, db.entities) && ListsType(db, typ, es) && OfType(db.entities, key, typ)
    ensures i < |es| && es[i] == db.entities[key]
  {
    assert db.entities[key] in es;
    i :| 0 <= i < |es| && es[i] == db.entities[key];
  }

  lemma SharersMeet(fm: Formats, db: Db, typ: string, updated: Definition, es: seq<Entity>, name: string, k1: string,
      k2: string)
    requires WellKeyed(db.definitions, db.entities) && typ in db.definitions && ListsType(db, typ, es) && k1 != k2
    requires var entities := AllMigrated(db.definitions[typ].fields, updated, db.entities, typ);
             Shares(fm, Table(db.definitions, entities), typ, name, k1, k2)
    ensures !TargetsDiffer(MovesOf(fm, db.definitions[typ].fields, updated, es, name))
  {
    var moves := MovesOf(fm, db.definitions[typ].fields, updated, es, name);
    var i := ListedAt(db, typ, es, k1);
    var j := ListedAt(db, typ, es, k2);
    assert i != j && moves[i].to == moves[j].to && moves[i].to.Some?;
  }

  lemma MeetingShare(fm: Formats, db: Db, typ: string, updated: Definition, es: seq<Entity>, name: string, i: nat,
      j: nat)
    requires WellKeyed(db.definitions, db.entities) && typ in db.definitions && ListsType(db, typ, es) && i < j < |es|
    requires var moves := MovesOf(fm, db.definitions[typ].fields, updated, es, name);
             moves[i].to.Some? && moves[i].to == moves[j].to
    ensures var entities := AllMigrated(db.definitions[typ].fields, updated, db.entities, typ);
            KeyOf(es[i]) != KeyOf(es[j]) && Shares(fm, Table(db.definitions, entities), typ, name, KeyOf(es[i]),
                KeyOf(es[j]))
  {
    assert es[i] in es && es[j] in es;
  }

  /** No two entities of the type share a key of the field: what a freshly built unique index needs. */
  lemma TargetsDifferIff(fm: Formats, db: Db, typ: string, updated: Definition, es: seq<Entity>, name: string)
    requires WellKeyed(db.definitions, db.entities) && typ in db.definitions && ListsType(db, typ, es)
    ensures var original := db.definitions[typ].fields;
            TargetsDiffer(MovesOf(fm, original, updated, es, name))
            <==> !Duplicated(fm, Table(db.definitions, AllMigrated(original, updated, db.entities, typ)), typ, name)
  {
    var original := db.definitions[typ].fields;
    var t, moves := Table(db.definitions, AllMigrated(original, updated, db.entities, typ)),
        MovesOf(fm, original, updated, es, name);
    if k1, k2 :| k1 in t.entities && k2 in t.entities && k1 != k2 && Shares(fm, t, typ, name, k1, k2) {
      SharersMeet(fm, db, typ, updated, es, name, k1, k2);
    } else if i, j :| 0 <= i < j < |moves| && moves[i].to.Some? && moves[i].to == moves[j].to {
      MeetingShare(fm, db, typ, updated, es, name, i, j);
    }
  }

  // ---------- every order of the walk ----------

  /** What two entities' keys must be like whichever of them comes first. */
  predicate StayApart(fm: Formats, original: Definition, updated: Definition, name: string, e1: Entity, e2: Entity) {
    var m1, m2 := MoveOf(fm, original, updated, e1, name), MoveOf(fm, original, updated, e2, name);
    m1.to.Some? ==> m1.to != m2.to && (UniqueIn(original, name) ==> m1.to != m2.from)
  }

  ghost predicate FieldStaysApart(fm: Formats, t: Table, typ: string, original: Definition, updated: Definition,
      name: string) {
    forall k1, k2 {:trigger StayApart(fm, original, updated, name, t.entities[k1], t.entities[k2])} ::
      OfType(t.entities, k1, typ) && OfType(t.entities, k2, typ) && k1 != k2
      ==> StayApart(fm, original, updated, name, t.entities[k1], t.entities[k2])
  }

  /** What one walk must be like for one field: of a field that becomes unique the index is built after the walk. */
  predicate WalkStaysApart(fm: Formats, original: Definition, updated: Definition, es: seq<Entity>, name: string) {
    var moves := MovesOf(fm, original, updated, es, name);
    if UniqueIn(original, name) then MovesApart(moves) else TargetsDiffer(moves)
  }

  lemma WalkFromField(fm: Formats, db: Db, typ: string, updated: Definition, es: seq<Entity>, name: string)
    requires typ in db.definitions && ListsType(db, typ, es)
    requires FieldStaysApart(fm, View(db), typ, db.definitions[typ].fields, updated, name)
    ensures WalkStaysApart(fm, db.definitions[typ].fields, updated, es, name)
  {
    var original := db.definitions[typ].fields;
    forall i, j | 0 <= i < j < |es| ensures StayApart(fm, original, updated, name, es[i], es[j]) {
      assert es[i] in es && es[j] in es;
      assert OfType(db.entities, KeyOf(es[i]), typ) && OfType(db.entities, KeyOf(es[j]), typ);
    }
  }

  lemma {:induction false} SomeWalk(db: Db, typ: string, keys: set<string>) returns (es: seq<Entity>)
    requires WellKeyed(db.definitions, db.entities) && keys <= db.entities.Keys
    ensures Distinct(es) && forall e :: e in es <==> KeyOf(e) in keys && db.entities[KeyOf(e)] == e && e.typ == typ
    decreases keys
  {
    if keys == {} {
      es := [];
    } else {
      var key :| key in keys;
      es := SomeWalk(db, typ, keys - {key});
      if db.entities[key].typ == typ { es := es + [db.entities[key]]; }
    }
  }

  /** The walk with two entities exchanged is a walk too. */
  lemma SwapWalk(db: Db, typ: string, es: seq<Entity>, i: nat, j: nat)
    requires ListsType(db, typ, es) && i < j < |es|
    ensures ListsType(db, typ, es[i := es[j]][j := es[i]])
  {
    var swapped := es[i := es[j]][j := es[i]];
    forall e ensures e in swapped <==> e in es {
      if k :| 0 <= k < |es| && es[k] == e { assert swapped[if k == i then j else if k == j then i else k] == e; }
      if k :| 0 <= k < |es| && swapped[k] == e { assert es[if k == i then j else if k == j then i else k] == e; }
    }
  }

  lemma SomeWalkMeets(fm: Formats, db: Db, typ: string, updated: Definition, name: string, e1: Entity, e2: Entity)
      returns (es: seq<Entity>)
    requires WellKeyed(db.definitions, db.entities) && typ in db.definitions && e1 != e2
    requires KeyOf(e1) in db.entities && db.entities[KeyOf(e1)] == e1 && e1.typ == typ
    requires KeyOf(e2) in db.entities && db.entities[KeyOf(e2)] == e2 && e2.typ == typ
    requires !StayApart(fm, db.definitions[typ].fields, updated, name, e1, e2)
    ensures ListsType(db, typ, es) && !WalkStaysApart(fm, db.definitions[typ].fields, updated, es, name)
  {
    es := SomeWalk(db, typ, db.entities.Keys);
    var i :| 0 <= i < |es| && es[i] == e1;
    var j :| 0 <= j < |es| && es[j] == e2;
    if i > j {
      SwapWalk(db, typ, es, j, i);
      es := es[j := e1][i := e2];
      i, j := j, i;
    }
    var moves := MovesOf(fm, db.definitions[typ].fields, updated, es, name);
    assert moves[i] == MoveOf(fm, db.definitions[typ].fields, updated, e1, name);
    assert moves[j] == MoveOf(fm, db.definitions[typ].fields, updated, e2, name);
  }

  /** Every walk moves the keys of one field apart exactly if they are apart whichever entity comes first. */
  lemma EveryWalkApartIff(fm: Formats, db: Db, typ: string, updated: Definition, name: string)
    requires WellKeyed(db.definitions, db.entities) && typ in db.definitions
    ensures (forall es :: ListsType(db, typ, es) ==> WalkStaysApart(fm, db.definitions[typ].fields, updated, es, name))
            <==> FieldStaysApart(fm, View(db), typ, db.definitions[typ].fields, updated, name)
  {
    var original := db.definitions[typ].fields;
    if FieldStaysApart(fm, View(db), typ, original, updated, name) {
      forall es | ListsType(db, typ, es) ensures WalkStaysApart(fm, original, updated, es, name) {
        WalkFromField(fm, db, typ, updated, es, name);
      }
    } else {
      var k1, k2 :| OfType(db.entities, k1, typ) && OfType(db.entities, k2, typ) && k1 != k2
                    && !StayApart(fm, original, updated, name, db.entities[k1], db.entities[k2]);
      var es := SomeWalkMeets(fm, db, typ, updated, name, db.entities[k1], db.entities[k2]);
    }
  }

  /** Two entities that take one key spoil every walk. */
  lemma SameTargetSpoils(fm: Formats, db: Db, typ: string, updated: Definition, es: seq<Entity>, name: string,
      k1: string, k2: string)
    requires WellKeyed(db.definitions, db.entities) && typ in db.definitions && ListsType(db, typ, es)
    requires OfType(db.entities, k1, typ) && OfType(db.entities, k2, typ) && k1 != k2
    requires var original := db.definitions[typ].fields; var to := MoveOf(fm, original, updated, db.entities[k1],
        name).to;
             to.Some? && to == MoveOf(fm, original, updated, db.entities[k2], name).to
    ensures !WalkStaysApart(fm, db.definitions[typ].fields, updated, es, name)
  {
    var moves := MovesOf(fm, db.definitions[typ].fields, updated, es, name);
    var i := ListedAt(db, typ, es, k1);
    var j := ListedAt(db, typ, es, k2);
    assert i != j && moves[i].to == moves[j].to && moves[i].to.Some?;
  }

  // ---------- all unique fields of the new definition ----------

  predicate WalkKeepsUniques(fm: Formats, original: Definition, updated: Definition, es: seq<Entity>) {
    forall g :: g in updated && g.unique ==> WalkStaysApart(fm, original, updated, es, g.name)
  }

  ghost predicate KeysStayApart(fm: Formats, t: Table, typ: string, original: Definition, updated: Definition) {
    forall g :: g in updated && g.unique ==> FieldStaysApart(fm, t, typ, original, updated, g.name)
  }

  /** So for every unique field of the new definition. */
  lemma EveryWalkKeysIff(fm: Formats, db: Db, typ: string, updated: Definition)
    requires WellKeyed(db.definitions, db.entities) && typ in db.definitions
    ensures (forall es :: ListsType(db, typ, es) ==> WalkKeepsUniques(fm, db.definitions[typ].fields, updated, es))
            <==> KeysStayApart(fm, View(db), typ, db.definitions[typ].fields, updated)
  {
    var original := db.definitions[typ].fields;
    forall g: FieldDefinition
      ensures (forall es :: ListsType(db, typ, es) ==> WalkStaysApart(fm, original, updated, es, g.name))
              <==> FieldStaysApart(fm, View(db), typ, original, updated, g.name)
    {
      EveryWalkApartIff(fm, db, typ, updated, g.name);
    }
    if g :| g in updated && g.unique && !FieldStaysApart(fm, View(db), typ, original, updated, g.name) {
      var es :| ListsType(db, typ, es) && !WalkStaysApart(fm, original, updated, es, g.name);
      assert !WalkKeepsUniques(fm, original, updated, es);
    }
  }

  // ---------- the unique indexes after every order of the walk ----------

  /** What the loop that fills a unique index leaves: each key has an owner that holds it, no key held is missing. */
  ghost predicate Built(fm: Formats, entities: map<string, Entity>, owners: map<string, string>, typ: string,
      name: string)
  {
    && (forall key :: key in owners ==> Owns(fm, entities, typ, name, key, owners[key]))
    && (forall key, id {:trigger Owns(fm, entities, typ, name, key, id)} ::
          Owns(fm, entities, typ, name, key, id) ==> key in owners)
  }

  /** A freshly filled unique index is right exactly if no key is shared. */
  lemma BuiltOwnsIff(fm: Formats, t: Table, ux: TypeUnique, owners: map<string, string>, typ: string, name: string)
    requires WellFormed(t) && NoColon(typ) && Built(fm, t.entities, owners, typ, name)
    ensures FieldOwned(fm, t.entities, ux[name := owners], typ, name) <==> !Duplicated(fm, t, typ, name)
  {
    if k1, k2 :| k1 in t.entities && k2 in t.entities && k1 != k2 && Shares(fm, t, typ, name, k1, k2) {
      var key := UniqueKey(fm, t.entities[k1].fields, name).value;
      assert Owns(fm, t.entities, typ, name, key, t.entities[k1].id);
      assert Owns(fm, t.entities, typ, name, key, t.entities[k2].id);
    } else {
      forall key, id | Owns(fm, t.entities, typ, name, key, id) ensures owners[key] == id {
        OwnersShare(fm, t, typ, name, key, id, owners[key]);
      }
    }
  }

  lemma OwnersShare(fm: Formats, t: Table, typ: string, name: string, key: string, id1: string, id2: string)
    requires WellFormed(t) && NoColon(typ) && !Duplicated(fm, t, typ, name)
    requires Owns(fm, t.entities, typ, name, key, id1) && Owns(fm, t.entities, typ, name, key, id2)
    ensures id1 == id2
  {
    var k1, k2 := CreateKey(typ, id1), CreateKey(typ, id2);
    KeyInjective(typ, id1, t.entities[k1].typ, t.entities[k1].id);
    KeyInjective(typ, id2, t.entities[k2].typ, t.entities[k2].id);
    if k1 != k2 { assert Shares(fm, t, typ, name, k1, k2); }
  }

  lemma {:induction false} SomeOwners(fm: Formats, entities: map<string, Entity>, typ: string, name: string,
      keys: set<string>) returns (owners: map<string, string>)
    requires (forall k :: k in entities ==> k == KeyOf(entities[k]) && NoColon(entities[k].typ)) && NoColon(typ)
    requires keys <= entities.Keys
    ensures forall key :: key in owners ==> Owns(fm, entities, typ, name, key, owners[key])
    ensures forall key, id {:trigger Owns(fm, entities, typ, name, key, id)} ::
      Owns(fm, entities, typ, name, key, id) && CreateKey(typ, id) in keys ==> key in owners
    decreases keys
  {
    if keys == {} {
      owners := map[];
    } else {
      var k :| k in keys;
      owners := SomeOwners(fm, entities, typ, name, keys - {k});
      var e := entities[k];
      forall id | CreateKey(typ, id) == k ensures e.typ == typ && e.id == id { KeyInjective(typ, id, e.typ, e.id); }
      var key := UniqueKey(fm, e.fields, name);
      if e.typ == typ && key.Some? {
        assert Owns(fm, entities, typ, name, key.value, e.id);
        owners := owners[key.value := e.id];
      }
    }
  }

  lemma SomeBuilt(fm: Formats, entities: map<string, Entity>, typ: string, name: string)
      returns (owners: map<string, string>)
    requires (forall k :: k in entities ==> k == KeyOf(entities[k]) && NoColon(entities[k].typ)) && NoColon(typ)
    ensures Built(fm, entities, owners, typ, name)
  {
    owners := SomeOwners(fm, entities, typ, name, entities.Keys);
  }

  /** The owners of one unique field after a walk: those it left if the field was unique before, else freshly built. */
  ghost predicate OwnedAfter(fm: Formats, db: Db, typ: string, updated: Definition, es: seq<Entity>, name: string)
    requires Structured(db) && typ in db.definitions && ListsType(db, typ, es)
  {
    var original := db.definitions[typ].fields;
    var entities := AllMigrated(original, updated, db.entities, typ);
    if UniqueIn(original, name)
    then FieldOwned(fm, entities, MigrateAll(fm, db, typ, updated, es).uniqueIndices[typ], typ, name)
    else forall owners :: Built(fm, entities, owners, typ, name) ==>
           FieldOwned(fm, entities, map[name := owners], typ, name)
  }

  lemma MigratedWellKeyed(original: Definition, updated: Definition, db: Db, typ: string)
    requires WellKeyed(db.definitions, db.entities)
    ensures WellKeyed(db.definitions, AllMigrated(original, updated, db.entities, typ))
  {
  }

  lemma NewFieldOwnedIff(fm: Formats, db: Db, typ: string, updated: Definition, es: seq<Entity>, name: string)
    requires Structured(db) && typ in db.definitions && ListsType(db, typ, es)
    requires !UniqueIn(db.definitions[typ].fields, name)
    ensures OwnedAfter(fm, db, typ, updated, es, name)
            <==> TargetsDiffer(MovesOf(fm, db.definitions[typ].fields, updated, es, name))
  {
    var original := db.definitions[typ].fields;
    var t := Table(db.definitions, AllMigrated(original, updated, db.entities, typ));
    MigratedWellKeyed(original, updated, db, typ);
    TargetsDifferIff(fm, db, typ, updated, es, name);
    forall owners | Built(fm, t.entities, owners, typ, name)
      ensures FieldOwned(fm, t.entities, map[name := owners], typ, name) <==> !Duplicated(fm, t, typ, name)
    {
      BuiltOwnsIff(fm, t, map[], owners, typ, name);
    }
    var owners := SomeBuilt(fm, t.entities, typ, name);
  }

  lemma OwnedAfterIff(fm: Formats, db: Db, typ: string, updated: Definition, es: seq<Entity>, name: string)
    requires Valid(fm, db) && typ in db.definitions && ListsType(db, typ, es)
    ensures OwnedAfter(fm, db, typ, updated, es, name)
            <==> WalkStaysApart(fm, db.definitions[typ].fields, updated, es, name)
  {
    var original := db.definitions[typ].fields;
    if UniqueIn(original, name) {
      var f :| f in original && f.name == name && f.unique;
      MigrationOwnsIff(fm, db, typ, updated, es, f);
    } else {
      NewFieldOwnedIff(fm, db, typ, updated, es, name);
    }
  }

  /**
   * Every order of the walk leaves each key of one field with the owner a scan finds if and only if no two new keys are
   * equal and, if the field was unique before, no new key is another entity's old one.
   */
  lemma EveryWalkOwnsIff(fm: Formats, db: Db, typ: string, updated: Definition, name: string)
    requires Valid(fm, db) && typ in db.definitions
    ensures (forall es :: ListsType(db, typ, es) ==> OwnedAfter(fm, db, typ, updated, es, name))
            <==> FieldStaysApart(fm, View(db), typ, db.definitions[typ].fields, updated, name)
  {
    forall es | ListsType(db, typ, es)
      ensures OwnedAfter(fm, db, typ, updated, es, name)
              <==> WalkStaysApart(fm, db.definitions[typ].fields, updated, es, name)
    {
      OwnedAfterIff(fm, db, typ, updated, es, name);
    }
    EveryWalkApartIff(fm, db, typ, updated, name);
  }

  ghost predicate AllOwnedAfter(fm: Formats, db: Db, typ: string, updated: Definition, es: seq<Entity>)
    requires Structured(db) && typ in db.definitions && ListsType(db, typ, es)
  {
    forall g :: g in updated && g.unique ==> OwnedAfter(fm, db, typ, updated, es, g.name)
  }

  /** Every order of the walk leaves all unique fields of the new definition so if and only if that holds for each. */
  lemma EveryWalkOwnsAllIff(fm: Formats, db: Db, typ: string, updated: Definition)
    requires Valid(fm, db) && typ in db.definitions
    ensures (forall es :: ListsType(db, typ, es) ==> AllOwnedAfter(fm, db, typ, updated, es))
            <==> KeysStayApart(fm, View(db), typ, db.definitions[typ].fields, updated)
  {
    forall es | ListsType(db, typ, es)
      ensures AllOwnedAfter(fm, db, typ, updated, es)
              <==> WalkKeepsUniques(fm, db.definitions[typ].fields, updated, es)
    {
      forall g | g in updated && g.unique
        ensures OwnedAfter(fm, db, typ, updated, es, g.name)
                <==> WalkStaysApart(fm, db.definitions[typ].fields, updated, es, g.name)
      {
        OwnedAfterIff(fm, db, typ, updated, es, g.name);
      }
    }
    EveryWalkKeysIff(fm, db, typ, updated);
  }

  /** A field that keeps its type stays apart: what was checked before the migration still holds after it. */
  lemma UnchangedStaysApart(fm: Formats, db: Db, typ: string, updated: Definition, g: FieldDefinition)
    requires Valid(fm, db) && typ in db.definitions && g in updated && g.unique
    requires ChangeOf(db.definitions[typ].fields, updated, g.name).None?
    requires NewUniquesClean(fm, View(db), typ, db.definitions[typ].fields, updated)
    ensures FieldStaysApart(fm, View(db), typ, db.definitions[typ].fields, updated, g.name)
  {
    var original := db.definitions[typ].fields;
    forall k1, k2 | OfType(db.entities, k1, typ) && OfType(db.entities, k2, typ) && k1 != k2
      ensures StayApart(fm, original, updated, g.name, db.entities[k1], db.entities[k2])
    {
      var e1, e2 := db.entities[k1], db.entities[k2];
      var key := UniqueKey(fm, e1.fields, g.name);
      assert UniqueKey(fm, Converted(original, updated, e1.fields), g.name) == key;
      assert UniqueKey(fm, Converted(original, updated, e2.fields), g.name) == UniqueKey(fm, e2.fields, g.name);
      if key.Some? && UniqueKey(fm, e2.fields, g.name) == key {
        if f :| f in original && f.name == g.name && f.unique {
          UniqueKeysDiffer(fm, db, typ, f, e1.id, e2.id, key.value);
        } else {
          assert Shares(fm, View(db), typ, g.name, k1, k2);
        }
      }
    }
  }

  /** So only a unique field whose type changes can go wrong, and one that stops being unique never does. */
  lemma NoUniqueFieldChanges(fm: Formats, db: Db, typ: string, updated: Definition)
    requires Valid(fm, db) && typ in db.definitions
    requires NewUniquesClean(fm, View(db), typ, db.definitions[typ].fields, updated)
    requires forall g :: g in updated && g.unique ==> ChangeOf(db.definitions[typ].fields, updated, g.name).None?
    ensures KeysStayApart(fm, View(db), typ, db.definitions[typ].fields, updated)
  {
    forall g | g in updated && g.unique
        ensures FieldStaysApart(fm, View(db), typ, db.definitions[typ].fields, updated, g.name)
    {
      UnchangedStaysApart(fm, db, typ, updated, g);
    }
  }

  // ---------- the other types ----------

  /** The unique indexes of every type but one are exact. */
  ghost predicate OthersOwned(fm: Formats, db: Db, typ: string) {
    forall other, f, key {:trigger OwnedRight(fm, db, other, f, key)} ::
      other != typ && other in db.definitions && other in db.uniqueIndices && f in db.definitions[other].fields
          && f.unique ==>
        OwnedRight(fm, db, other, f, key)
  }

  lemma ReplaceKeepsOthers(fm: Formats, db: Db, e: Entity, e': Entity)
    requires Structured(db) && OthersOwned(fm, db, e.typ) && KeyOf(e) in db.entities && db.entities[KeyOf(e)] == e
    requires e'.typ == e.typ && e'.id == e.id
    ensures OthersOwned(fm, Replace(fm, db, e, e'), e.typ)
  {
    var db' := Replace(fm, db, e, e');
    forall other, f, key | other != e.typ && other in db'.definitions && other in db'.uniqueIndices
                           && f in db'.definitions[other].fields && f.unique
      ensures OwnedRight(fm, db', other, f, key)
    {
      assert OwnedRight(fm, db, other, f, key);
      forall id ensures Owns(fm, db'.entities, other, f.name, key, id)
          <==> Owns(fm, db.entities, other, f.name, key, id)
      {
        if CreateKey(other, id) == KeyOf(e) { KeyInjective(other, id, e.typ, e.id); }
      }
    }
  }

  lemma {:induction false} MigrateKeepsOthers(fm: Formats, db: Db, typ: string, updated: Definition, es: seq<Entity>)
    requires Valid(fm, db) && typ in db.definitions && Listed(db, typ, es)
    ensures OthersOwned(fm, MigrateAll(fm, db, typ, updated, es), typ)
  {
    if es == [] {
    } else {
      var n := |es| - 1;
      ListedFront(db, typ, es);
      MigrateKeepsOthers(fm, db, typ, updated, es[..n]);
      MigrateKeepsLists(fm, db, typ, updated, es[..n]);
      MigrateOneMore(db.definitions[typ].fields, updated, db.entities, es[..n], es[n]);
      var front := MigrateAll(fm, db, typ, updated, es[..n]);
      ReplaceKeepsOthers(fm, front, es[n], Migrated(db.definitions[typ].fields, updated, es[n]));
    }
  }
}
