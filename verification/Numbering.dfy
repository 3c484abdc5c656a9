/**
 * Numbers across restarts: what the database keeps of a type's counter and deleted ids, and which numbers can come
 * back.
 */
module Numbering {
  import opened Common
  import opened Numerals
  import opened Engines
  import opened IdGenerators

  // ---------- which numbers a process can still give out ----------

  /** The number lies at or below the counter, or is marked deleted for a counter that exists. */
  predicate Spent(c: Counting, m: nat) {
    m <= CounterValue(c) || (c.counter.Some? && IsDeleted(c.deleted, m))
  }

  lemma {:induction false} SpentStays(s: IdState, calls: seq<IdCall>, m: nat)
    requires Spent(s.counting, m)
    ensures Spent(IdRun(s, calls).counting, m) && m !in Generated(s, calls)
  {
    if calls == [] {
    } else {
      var front, last := calls[..|calls| - 1], calls[|calls| - 1];
      SpentStays(s, front, m);
      var before := IdRun(s, front).counting;
      assert last.Create? ==> Next(before) > CounterValue(before) && Next(before) != m;
    }
  }

  lemma {:induction false} RunFirst(s: IdState, call: IdCall, rest: seq<IdCall>)
    ensures IdRun(s, [call] + rest) == IdRun(IdStep(s, call), rest)
  {
    if rest == [] {
      assert [call] + rest == [call] && [call][..0] == [];
    } else {
      RunFirst(s, call, rest[..|rest| - 1]);
      assert ([call] + rest)[..|rest|] == [call] + rest[..|rest| - 1];
    }
  }

  lemma {:induction false} GeneratedFirst(s: IdState, call: IdCall, rest: seq<IdCall>)
    ensures Generated(s, [call] + rest) == (if call.Create? then [Next(s.counting)] else [])
        + Generated(IdStep(s, call), rest)
  {
    if rest == [] {
      assert [call] + rest == [call] && [call][..0] == [];
    } else {
      var front := rest[..|rest| - 1];
      GeneratedFirst(s, call, front);
      RunFirst(s, call, front);
      assert ([call] + rest)[..|rest|] == [call] + front;
    }
  }

  lemma NextAtMost(c: Counting, m: nat)
    requires !Spent(c, m)
    ensures Next(c) <= m
  {
    assert !IsDeleted({}, m);
  }

  /** A number that is not spent is given out by creating often enough. */
  lemma Reaches(s: IdState, m: nat) returns (calls: seq<IdCall>)
    requires !Spent(s.counting, m)
    ensures m in Generated(s, calls)
    decreases m - CounterValue(s.counting)
  {
    NextAtMost(s.counting, m);
    var rest := [];
    if Next(s.counting) < m { rest := Reaches(IdStep(s, Create(false)), m); }
    GeneratedFirst(s, Create(false), rest);
    calls := [Create(false)] + rest;
  }

  /** Whatever clients do, a number is never given out again if and only if it is spent; 64-bit overflow aside. */
  lemma NeverAgainIff(s: IdState, m: nat)
    ensures (forall calls :: m !in Generated(s, calls)) <==> Spent(s.counting, m)
  {
    if Spent(s.counting, m) {
      forall calls ensures m !in Generated(s, calls) { SpentStays(s, calls, m); }
    } else {
      var calls := Reaches(s, m);
    }
  }

  // ---------- what a process writes about its numbers ----------

  /** The entries counter:<type> and deleted_ids:<type> of the database. */
  datatype Saved = Saved(counter: Option<nat>, deleted: Option<set<string>>)

  datatype Numbers = Numbers(counting: Counting, saved: Saved)

  /**
   * A generated id, an insert that reached the log, and a delete that found its entity. Loading causes the last two as
   * well.
   */
  datatype Change = NumberTaken | InsertLogged | DeleteMarked(id: string)

  ghost function Changed(n: Numbers, c: Change): Numbers {
    match c
    case NumberTaken => n.(counting := AfterNext(n.counting))
    case InsertLogged => n.(saved := n.saved.(counter := Some(CounterValue(n.counting))))
    case DeleteMarked(id) =>
      var deleted := n.counting.deleted + {id};
      Numbers(n.counting.(deleted := deleted), n.saved.(deleted := Some(deleted)))
  }

  ghost function AllChanged(n: Numbers, changes: seq<Change>): Numbers {
    if changes == [] then n else Changed(AllChanged(n, changes[..|changes| - 1]), changes[|changes| - 1])
  }

  const UNUSED := Counting(None, {})

  /** Deletes among the changes, and the ids they mark. */
  function Marked(changes: seq<Change>): set<string> {
    set i | 0 <= i < |changes| && changes[i].DeleteMarked? :: changes[i].id
  }

  predicate Loading(changes: seq<Change>) { forall c :: c in changes ==> !c.NumberTaken? }

  /**
   * Loading a snapshot and a log overwrites what was saved: the counter with zero, the deleted ids with those deleted
   * again.
   */
  lemma {:induction false} LoadingOverwrites(saved: Saved, loading: seq<Change>)
    requires Loading(loading)
    ensures AllChanged(Numbers(UNUSED, saved), loading) ==
            Numbers(Counting(None, Marked(loading)),
                    Saved(if InsertLogged in loading then Some(0) else saved.counter,
                          if Marked(loading) != {} then Some(Marked(loading)) else saved.deleted))
  {
    if loading == [] {
    } else {
      var front, last := loading[..|loading| - 1], loading[|loading| - 1];
      assert last in loading && loading == front + [last];
      assert forall c :: c in loading <==> c in front || c == last;
      LoadingOverwrites(saved, front);
      MarkedStep(front, last);
    }
  }

  lemma MarkedStep(front: seq<Change>, last: Change)
    ensures Marked(front + [last]) == Marked(front) + if last.DeleteMarked? then {last.id} else {}
  {
    var all := front + [last];
    assert all[|front|] == last && forall i :: 0 <= i < |front| ==> all[i] == front[i];
  }

  // ---------- start-up ----------

  /** LoadCounters, LoadDeletedIDs and EnsureAutoIncrementCounterAboveExistingIDs, for one type. */
  ghost function Started(n: Numbers, live: set<string>): Counting {
    var c := if n.saved.counter.Some? then Raised(n.counting, n.saved.counter.value) else n.counting;
    RaisedAbove(c.(deleted := c.deleted + (if n.saved.deleted.Some? then n.saved.deleted.value else {})), live)
  }

  function SavedOf(counters: map<string, nat>, deleted: map<string, set<string>>, typ: string): Saved {
    Saved(if typ in counters then Some(counters[typ]) else None, if typ in deleted then Some(deleted[typ]) else None)
  }

  /** The counter of a type once the saved ones outside rest have been loaded. */
  ghost function CounterLoaded(engine: Engine, counters: map<string, nat>, rest: set<string>, typ: string,
      c: Counting): Counting
    reads engine
  {
    if typ in counters && typ !in rest && UsesCounter(engine, typ) then Raised(c, counters[typ]) else c
  }

  ghost function DeletedLoaded(engine: Engine, deleted: map<string, set<string>>, rest: set<string>, typ: string,
      c: Counting): Counting
    reads engine
  {
    if typ in deleted && typ !in rest && UsesCounter(engine, typ) then c.(deleted := c.deleted + deleted[typ]) else c
  }

  /** LoadCounters: one SetCounter for each saved counter of a type that uses one. */
  method LoadCounters(engine: Engine, generator: AutoIncrementGenerator, counters: map<string, nat>)
    requires generator.Valid() && forall typ :: typ in counters ==> counters[typ] < TWO_64
    modifies generator
    ensures generator.Valid()
    ensures forall typ :: generator.Of(typ) == CounterLoaded(engine, counters, {}, typ, old(generator.Of(typ)))
  {
    var rest := counters.Keys;
    while rest != {}
      invariant generator.Valid() && rest <= counters.Keys
      invariant forall typ :: generator.Of(typ) == CounterLoaded(engine, counters, rest, typ, old(generator.Of(typ)))
      decreases rest
    {
      var typ :| typ in rest;
      if UsesCounter(engine, typ) {
        generator.SetCounter(typ, counters[typ]);
      }
      rest := rest - {typ};
    }
  }

  /** LoadDeletedIDs: the saved deleted ids of each type that uses a counter are added. */
  method LoadDeletedIDs(engine: Engine, generator: AutoIncrementGenerator, deleted: map<string, set<string>>)
    requires generator.Valid()
    modifies generator
    ensures generator.Valid()
    ensures forall typ :: generator.Of(typ) == DeletedLoaded(engine, deleted, {}, typ, old(generator.Of(typ)))
  {
    var rest := deleted.Keys;
    while rest != {}
      invariant generator.Valid() && rest <= deleted.Keys
      invariant forall typ :: generator.Of(typ) == DeletedLoaded(engine, deleted, rest, typ, old(generator.Of(typ)))
      decreases rest
    {
      var typ :| typ in rest;
      if UsesCounter(engine, typ) {
        generator.LoadDeletedIDs(typ, deleted[typ]);
      }
      rest := rest - {typ};
    }
  }

  /** The end of NewDataStoreEngine: counters, deleted ids, and the raise above what is stored. */
  method StartNumbers(engine: Engine, generator: AutoIncrementGenerator, counters: map<string, nat>,
      deleted: map<string, set<string>>)
    requires engine.Valid() && generator.Valid() && forall typ :: typ in counters ==> counters[typ] < TWO_64
    modifies generator
    ensures generator.Valid()
    ensures forall typ :: UsesCounter(engine, typ) ==>
              generator.Of(typ) == Started(Numbers(old(generator.Of(typ)), SavedOf(counters, deleted, typ)),
                  LiveIds(engine, typ))
  {
    LoadCounters(engine, generator, counters);
    LoadDeletedIDs(engine, generator, deleted);
    EnsureAboveExisting(engine, generator);
    forall typ | UsesCounter(engine, typ)
      ensures generator.Of(typ) == Started(Numbers(old(generator.Of(typ)), SavedOf(counters, deleted, typ)),
          LiveIds(engine, typ))
    {
      LoadedIsStarted(old(generator.Of(typ)), SavedOf(counters, deleted, typ), LiveIds(engine, typ));
    }
  }

  /** A type without saved deleted ids has none to add. */
  lemma LoadedIsStarted(c: Counting, saved: Saved, live: set<string>)
    ensures saved.deleted.None? ==>
              Started(Numbers(c, saved), live)
              == RaisedAbove(if saved.counter.Some? then Raised(c, saved.counter.value) else c, live)
  {
    assert c.deleted + {} == c.deleted;
  }

  /**
   * After a restart a number is never given out again if and only if it lies at or below the highest stored number or
   * the saved counter, which loading any entity resets to zero, or is one of the saved deleted ids, which loading any
   * delete replaces by the ids deleted again, while the type has a counter.
   */
  lemma NeverAfterRestartIff(saved: Saved, loading: seq<Change>, live: set<string>, m: nat)
    requires Loading(loading)
    ensures var c := Started(AllChanged(Numbers(UNUSED, saved), loading), live);
            var counter := if InsertLogged in loading then Some(0) else saved.counter;
            var deleted := if Marked(loading) != {} then Marked(loading) else if saved.deleted.Some?
                then saved.deleted.value else {};
            (forall calls :: m !in Generated(IdState(c, live), calls))
            <==> || m <= Highest(live)
                 || (counter.Some? && m <= counter.value)
                 || ((counter.Some? || Highest(live) > 0) && IsDeleted(deleted, m))
  {
    LoadingOverwrites(saved, loading);
    NeverAgainIff(IdState(Started(AllChanged(Numbers(UNUSED, saved), loading), live), live), m);
  }

  /** Every number a process gives out exceeds every number that was stored when it started, so it is no stored id. */
  lemma GeneratedExceedStored(n: Numbers, live: set<string>, calls: seq<IdCall>, m: nat)
    requires m in Generated(IdState(Started(n, live), live), calls)
    ensures forall id :: id in live && ParseUint(id).Some? ==> ParseUint(id).value < m
    ensures m < TWO_64 ==> Decimal(m) !in live
  {
    GeneratedIdsRise(IdState(Started(n, live), live), calls);
    ParseUintOfDecimal(m);
  }

  /** Every process starts covered, whatever ids were deleted before. */
  lemma StartedIsCovered(n: Numbers, live: set<string>)
    ensures Covered(IdState(Started(n, live), live))
  {
  }
}
