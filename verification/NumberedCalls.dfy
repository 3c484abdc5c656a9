/** Insert and Delete of an auto-increment type together with its generator and what the database keeps of both. */
module NumberedCalls {
  import opened Common
  import opened Keys
  import opened IdFormats
  import opened Numerals
  import opened Tables
  import opened Journals
  import opened Engines
  import opened IdGenerators
  import opened Numbering
  import opened Lifetimes

  /** The entries counter:<type> and deleted_ids:<type>. */
  class NumberStore {
    var counters: map<string, nat>
    var deleted: map<string, set<string>>

    constructor ()
      ensures counters == map[] && deleted == map[]
    {
      counters, deleted := map[], map[];
    }

    ghost function Of(typ: string): Saved reads this { SavedOf(counters, deleted, typ) }
  }

  ghost function NumbersOf(generator: AutoIncrementGenerator, store: NumberStore, typ: string): Numbers
    reads generator, store
  {
    Numbers(generator.Of(typ), store.Of(typ))
  }

  lemma AfterOne(n: Numbers, c: Change)
    ensures AllChanged(n, [c]) == Changed(n, c)
  {
    assert [c][..0] == [];
  }

  lemma AfterTwo(n: Numbers, c1: Change, c2: Change)
    ensures AllChanged(n, [c1, c2]) == Changed(Changed(n, c1), c2)
  {
    assert [c1, c2][..1] == [c1];
    AfterOne(n, c1);
  }

  /** What an insert should do to the numbers, told from its outcome. */
  lemma InsertChanges(fm: Formats, t: Table, typ: string, id: string, data: Fields, now: int, disk: bool,
      generated: bool, n: Numbers)
    ensures var taken := if generated && typ in t.definitions then Changed(n, NumberTaken) else n;
            AllChanged(n, CallChanges(fm, t, typ, OpInsert(typ, id, data), now, disk, generated))
            == if disk && Perform(fm, t, OpInsert(typ, id, data), now).1 == Done then Changed(taken, InsertLogged)
               else taken
  {
    AfterOne(n, NumberTaken);
    AfterOne(n, InsertLogged);
    AfterTwo(n, NumberTaken, InsertLogged);
  }

  lemma InsertIsDone(fm: Formats, s: Journals.System, op: Op, now: int, disk: bool)
    requires op.OpInsert?
    ensures Persisted(fm, s, op, now, disk).1 == Done <==> disk && Perform(fm, s.table, op, now).1 == Done
  {
  }

  /** Insert, once the id is known: an insert that reached the log saves the counter. */
  method InsertSaving(engine: Engine, generator: AutoIncrementGenerator, store: NumberStore, typ: string,
      givenId: string, data: Fields, generated: Option<string>, now: int, disk: bool) returns (o: Outcome)
    requires engine.Valid() && engine.file != null
    requires givenId == "" && typ in engine.definitions ==>
        UsesCounter(engine, typ) && generated.Some? && ParseUint(generated.value).Some?
    modifies engine, engine.file, store
    ensures engine.Valid()
    ensures var id := if givenId == "" && generated.Some? then generated.value else givenId;
            (engine.System(), o) == Persisted(engine.fm, old(engine.System()), OpInsert(typ, id, data), now, disk)
    ensures store.Of(typ) ==
            if o == Done then old(store.Of(typ)).(counter := Some(CounterValue(generator.Of(typ))))
            else old(store.Of(typ))
  {
    o := engine.Insert(typ, givenId, data, generated, now, disk);
    if o == Done {
      var counter := generator.GetCounter(typ);
      store.counters := store.counters[typ := counter];
    }
  }

  /** Insert: an empty id is replaced by the next number, which is used up whether or not the insert succeeds. */
  method InsertNumbered(engine: Engine, generator: AutoIncrementGenerator, store: NumberStore, typ: string,
      givenId: string, data: Fields, now: int, disk: bool) returns (o: Outcome, ghost id: string)
    requires engine.Valid() && engine.file != null && generator.Valid()
    requires typ in engine.definitions ==> UsesCounter(engine, typ)
    requires givenId == "" ==> Next(generator.Of(typ)) < TWO_64
    modifies engine, engine.file, generator, store
    ensures engine.Valid() && generator.Valid()
    ensures id == if givenId == "" && typ in old(engine.definitions) then Decimal(Next(old(generator.Of(typ))))
                  else givenId
    ensures (engine.System(), o) == Persisted(engine.fm, old(engine.System()), OpInsert(typ, id, data), now, disk)
    ensures NumbersOf(generator, store, typ) == AllChanged(old(NumbersOf(generator, store, typ)),
        CallChanges(engine.fm, old(engine.Table()), typ, OpInsert(typ, id, data), now, disk, givenId == ""))
  {
    var generated: Option<string> := None;
    if givenId == "" && typ in engine.definitions {
      var number := generator.GenerateID(typ);
      generated := Some(number);
    }
    id := if generated.Some? then generated.value else givenId;
    InsertChanges(engine.fm, engine.Table(), typ, id, data, now, disk, givenId == "",
        old(NumbersOf(generator, store, typ)));
    InsertIsDone(engine.fm, engine.System(), OpInsert(typ, id, data), now, disk);
    o := InsertSaving(engine, generator, store, typ, givenId, data, generated, now, disk);
  }

  lemma DeleteChanges(fm: Formats, t: Table, typ: string, id: string, disk: bool, n: Numbers)
    ensures AllChanged(n, CallChanges(fm, t, typ, OpDelete(typ, id), 0, disk, false))
            == if CreateKey(typ, id) in t.entities then Changed(n, DeleteMarked(id)) else n
  {
    AfterOne(n, DeleteMarked(id));
  }

  /** Delete: the id of an entity that is found is marked, and the deleted ids are saved, before the log is written. */
  method DeleteNumbered(engine: Engine, generator: AutoIncrementGenerator, store: NumberStore, typ: string, id: string,
      disk: bool) returns (o: Outcome)
    requires engine.Valid() && engine.file != null && generator.Valid() && NoColon(typ)
    requires typ in engine.definitions ==> UsesCounter(engine, typ)
    modifies engine, engine.file, generator, store
    ensures engine.Valid() && generator.Valid()
    ensures (engine.System(), o) == Persisted(engine.fm, old(engine.System()), OpDelete(typ, id), 0, disk)
    ensures NumbersOf(generator, store, typ) == AllChanged(old(NumbersOf(generator, store, typ)),
        CallChanges(engine.fm, old(engine.Table()), typ, OpDelete(typ, id), 0, disk, false))
  {
    DeleteChanges(engine.fm, engine.Table(), typ, id, disk, NumbersOf(generator, store, typ));
    if CreateKey(typ, id) in engine.entities {
      generator.MarkIDDeleted(typ, id);
      var deleted := generator.SaveDeletedIDs(typ);
      store.deleted := store.deleted[typ := deleted];
    }
    o := engine.Delete(typ, id, disk);
  }
}
