/**
 * What goes wrong when two entity types use the same id: a run that recovery loses part of, and a log whose second
 * replay is felt.
 */
module RecoveryExample {
  import opened Common
  import opened Keys
  import opened IdFormats
  import opened Validation
  import opened Store
  import opened Agreement
  import opened Tables
  import opened Journals
  import opened Recovery
  import opened LogTails
  import opened CrashRecovery
  import opened ReplayIdempotence

  /** A type with one optional text field. */
  function Plain(name: string): EntityDefinition {
    EntityDefinition(name, [FieldDefinition("x", TString, false, false, false, false, false)], Custom)
  }

  function Example(): seq<Command> {
    [
      Call(OpRegister(Plain("a")), 0, true), Call(OpRegister(Plain("b")), 0, true),
      Call(OpInsert("a", "1", map[]), 0, true), Call(OpInsert("b", "1", map[]), 0, true)
    ]
  }

  lemma PlainCompleted(name: string)
    ensures Completed(Plain(name)) ==
            EntityDefinition(name, Plain(name).fields + [InternalDefinition(CREATED_AT),
                InternalDefinition(UPDATED_AT)], Custom)
  {
    assert !HasField(Plain(name).fields, CREATED_AT) && !HasField(Plain(name).fields, UPDATED_AT);
  }

  /** Such a type takes any new id. */
  lemma PlainInsert(fm: Formats, t: Table, name: string, id: string, now: int)
    requires name in t.definitions && t.definitions[name] == Completed(Plain(name)) && id != ""
        && CreateKey(name, id) !in t.entities
    ensures Insert(fm, t, name, id, map[], now) ==
            (t.(entities := t.entities[CreateKey(name, id) := Entity(id, name, Stamped(map[], now))]), Done)
  {
    PlainCompleted(name);
    var data := Stamped(map[], now);
    var def := t.definitions[name];
    assert data == map[CREATED_AT := Time(now), UPDATED_AT := Time(now)];
    assert InternalField(def, CREATED_AT) by { assert def.fields[1].name == CREATED_AT && def.fields[1] in def.fields; }
    assert InternalField(def, UPDATED_AT) by { assert def.fields[2].name == UPDATED_AT && def.fields[2] in def.fields; }
    assert EntityDataOk(fm, def, data);
    assert !Clashes(fm, def, t.entities, data, "");
  }

  function AfterRegistrations(): Table {
    Table(map["a" := Completed(Plain("a")), "b" := Completed(Plain("b"))], map[])
  }

  lemma ExampleRun(fm: Formats)
    ensures Run(fm, Example()[..0]) == FRESH_SYSTEM
    ensures Run(fm, Example()[..1]).table.definitions == map["a" := Completed(Plain("a"))]
    ensures Run(fm, Example()[..2]).table == AfterRegistrations()
    ensures Run(fm, Example()[..3]).table ==
            AfterRegistrations().(entities := map[CreateKey("a", "1") := Entity("1", "a", Stamped(map[], 0))])
  {
    RunStep(fm, Example(), 0);
    RunStep(fm, Example(), 1);
    RunStep(fm, Example(), 2);
    PlainInsert(fm, AfterRegistrations(), "a", "1", 0);
  }

  lemma ExampleLegal(fm: Formats)
    ensures Legal(fm, Example())
  {
    forall i | 0 <= i < |Example()| ensures CommandOk(Run(fm, Example()[..i]), Example()[i]) {
      assert Example()[i].Call? && OpOk(Example()[i].op);
    }
  }

  lemma SecondInsertSucceeds(fm: Formats, s: System)
    requires s.table == AfterRegistrations().(entities :=
        map[CreateKey("a", "1") := Entity("1", "a", Stamped(map[], 0))])
    ensures Loses(fm, s, Example()[3])
  {
    assert CreateKey("b", "1") !in s.table.entities by {
      if CreateKey("b", "1") == CreateKey("a", "1") { KeyInjective("b", "1", "a", "1"); }
    }
    PlainInsert(fm, s.table, "b", "1", 0);
    ParseCreated("a", "1");
    assert CreateKey("a", "1") in s.table.entities.Keys && ParseKey(CreateKey("a", "1")).1 == "1";
  }

  /**
   * The insert of "1" under the second type succeeds, but after a crash the replay takes it for the first type's
   * entity.
   */
  lemma TwoTypesOneId(fm: Formats)
    ensures Legal(fm, Example())
    ensures exists n :: 0 <= n <= 4 && !RecoversExactly(fm, Run(fm, Example()[..n]))
  {
    ExampleLegal(fm);
    ExampleRun(fm);
    SecondInsertSucceeds(fm, Run(fm, Example()[..3]));
    assert LosesAt(fm, Example(), 3);
    RecoveryIsExact(fm, Example());
  }

  // ---------- a truncate whose log write fails ----------

  function FailedTruncate(): seq<Command> {
    [
      Call(OpRegister(Plain("a")), 0, true), Call(OpInsert("a", "1", map[]), 0, true),
      Call(OpTruncateDatabase, 0, false)
    ]
  }

  lemma FailedTruncateLegal(fm: Formats)
    ensures Legal(fm, FailedTruncate())
  {
    forall i | 0 <= i < |FailedTruncate()| ensures CommandOk(Run(fm, FailedTruncate()[..i]), FailedTruncate()[i]) {
      assert FailedTruncate()[i].Call? && OpOk(FailedTruncate()[i].op);
    }
  }

  lemma FailedTruncateRun(fm: Formats)
    ensures Run(fm, FailedTruncate()[..2]).table.entities != map[]
  {
    RunStep(fm, FailedTruncate(), 0);
    RunStep(fm, FailedTruncate(), 1);
    assert Run(fm, FailedTruncate()[..1]).table == Table(map["a" := Completed(Plain("a"))], map[]);
    PlainInsert(fm, Run(fm, FailedTruncate()[..1]).table, "a", "1", 0);
    assert CreateKey("a", "1") in Run(fm, FailedTruncate()[..2]).table.entities;
  }

  /** What such a truncate removed is back after a crash, although it was gone before. */
  lemma TruncateComesUndone(fm: Formats)
    ensures Legal(fm, FailedTruncate()) && Run(fm, FailedTruncate()).table.entities == map[]
    ensures !RecoversExactly(fm, Run(fm, FailedTruncate()))
  {
    FailedTruncateLegal(fm);
    FailedTruncateRun(fm);
    RunStep(fm, FailedTruncate(), 2);
    assert FailedTruncate()[..3] == FailedTruncate();
    LegalCommand(fm, FailedTruncate(), 2);
    CleanUntilTruncate(fm);
    RunIsTracked(fm, FailedTruncate(), 0, 2);
    RunIsBalanced(fm, FailedTruncate(), 2);
    LossIsFelt(fm, Run(fm, FailedTruncate()[..2]), MarkOf(fm, FailedTruncate()[..2]), FailedTruncate()[2]);
  }

  lemma CleanUntilTruncate(fm: Formats)
    ensures NoLoss(fm, FailedTruncate(), 0, 2)
  {
    assert FailedTruncate()[..0] == [];
    RunStep(fm, FailedTruncate(), 0);
    assert !LosesAt(fm, FailedTruncate(), 0);
    assert !LosesAt(fm, FailedTruncate(), 1);
  }

  // ---------- the second replay of a log ----------

  /** Entity "1" of type "a" is updated and deleted before entity "1" of type "b" is stored. */
  function Calls(): seq<Op> {
    [OpInsert("a", "1", map[]), OpUpdate("a", "1", map["x" := Str("u")]), OpDelete("a", "1"), OpInsert("b", "1", map[])]
  }

  lemma ChangesOk(fm: Formats, def: EntityDefinition, data: Fields, now: int)
    requires |def.fields| == 3 && def.fields[0].name == "x" && def.fields[0].typ == TString
    requires def.fields[1].name == CREATED_AT && def.fields[2] == InternalDefinition(UPDATED_AT)
    requires data == map["x" := Str("u"), UPDATED_AT := Time(now)]
    ensures UpdateDataOk(fm, def, data)
  {
    assert InternalField(def, UPDATED_AT) by { assert def.fields[2] in def.fields; }
    assert Declares(def, "x") by { assert def.fields[0] in def.fields; }
    forall f | f in def.fields && f.name in data ensures ValueOk(fm, f, data[f.name]) {
      assert f == def.fields[0] || f == def.fields[1] || f == def.fields[2];
    }
  }

  lemma PlainChangesOk(fm: Formats, name: string, now: int)
    ensures UpdateDataOk(fm, Completed(Plain(name)), Restamped(map["x" := Str("u")], now))
    ensures forall f :: f in Completed(Plain(name)).fields ==> !f.unique
  {
    PlainCompleted(name);
    assert Restamped(map["x" := Str("u")], now) == map["x" := Str("u"), UPDATED_AT := Time(now)];
    ChangesOk(fm, Completed(Plain(name)), Restamped(map["x" := Str("u")], now), now);
  }

  function Holding(e: Entity): Table { AfterRegistrations().(entities := map[KeyOf(e) := e]) }

  function Stored(name: string, now: int): Entity { Entity("1", name, Stamped(map[], now)) }

  lemma PlainIsClean(name: string)
    ensures Clean(Completed(Plain(name))) && Completed(Plain(name)).name == name
    ensures forall f :: f in Completed(Plain(name)).fields ==> !f.unique
  {
    PlainCompleted(name);
    var fields := Completed(Plain(name)).fields;
    assert fields[1] in fields && fields[2] in fields;
  }

  lemma PlainTypesReady(t: Table)
    requires t.entities == map[]
    requires forall name :: name in t.definitions ==> t.definitions[name] == Completed(Plain(name)) && NoColon(name)
    ensures Ready(t)
  {
    forall name | name in t.definitions
      ensures Clean(Completed(Plain(name))) && Completed(Plain(name)).name == name
      ensures forall f :: f in Completed(Plain(name)).fields ==> !f.unique
    {
      PlainIsClean(name);
    }
  }

  lemma StartReady()
    ensures Ready(AfterRegistrations())
  {
    PlainTypesReady(AfterRegistrations());
  }

  lemma InsertCall(fm: Formats, name: string, now: int)
    requires name == "a" || name == "b"
    ensures Perform(fm, AfterRegistrations(), OpInsert(name, "1", map[]), now).0 == Holding(Stored(name, now))
    ensures Recordable(fm, AfterRegistrations(), OpInsert(name, "1", map[]), now)
  {
    PlainInsert(fm, AfterRegistrations(), name, "1", now);
  }

  lemma UpdateAccepted(fm: Formats, e: Entity, now: int)
    requires e.id == "1" && e.typ == "a"
    ensures UpdateError(fm, Holding(e), "a", "1", Restamped(map["x" := Str("u")], now)).None?
  {
    PlainChangesOk(fm, "a", now);
  }

  lemma UpdateCall(fm: Formats, e: Entity, now: int)
    requires e.id == "1" && e.typ == "a"
    ensures Recordable(fm, Holding(e), Calls()[1], now)
    ensures Perform(fm, Holding(e), Calls()[1], now).0 == Holding(Updated(e, Restamped(map["x" := Str("u")], now)))
  {
    UpdateAccepted(fm, e, now);
    PutTwice(map[], KeyOf(e), e, Updated(e, Restamped(map["x" := Str("u")], now)));
  }

  lemma DeleteCall(fm: Formats, e: Entity, now: int)
    requires e.id == "1" && e.typ == "a"
    ensures Recordable(fm, Holding(e), Calls()[2], now) && Perform(fm, Holding(e), Calls()[2], now).0
        == AfterRegistrations()
  {
    assert map[KeyOf(e) := e] - {KeyOf(e)} == map[];
  }

  lemma AfterStep(fm: Formats, t: Table, ops: seq<Op>, nows: seq<int>, i: nat)
    requires |nows| == |ops| && i < |ops|
    ensures After(fm, t, ops[..i + 1], nows[..i + 1]) == Perform(fm, After(fm, t, ops[..i], nows[..i]), ops[i],
        nows[i]).0
  {
    assert ops[..i + 1][..i] == ops[..i] && nows[..i + 1][..i] == nows[..i];
  }

  function AfterCalls(fm: Formats, nows: seq<int>, i: nat): Table
    requires |nows| == 4 && i <= 4
  {
    After(fm, AfterRegistrations(), Calls()[..i], nows[..i])
  }

  lemma CallsBegin(fm: Formats, nows: seq<int>)
    requires |nows| == 4
    ensures AfterCalls(fm, nows, 0) == AfterRegistrations() && AfterCalls(fm, nows, 1) == Holding(Stored("a", nows[0]))
    ensures AfterCalls(fm, nows, 2) == Holding(Updated(Stored("a", nows[0]), Restamped(map["x" := Str("u")], nows[1])))
  {
    InsertCall(fm, "a", nows[0]);
    AfterStep(fm, AfterRegistrations(), Calls(), nows, 0);
    UpdateCall(fm, Stored("a", nows[0]), nows[1]);
    AfterStep(fm, AfterRegistrations(), Calls(), nows, 1);
  }

  lemma CallsAfter(fm: Formats, nows: seq<int>)
    requires |nows| == 4
    ensures AfterCalls(fm, nows, 3) == AfterRegistrations() && AfterCalls(fm, nows, 4) == Holding(Stored("b", nows[3]))
  {
    CallsBegin(fm, nows);
    DeleteCall(fm, Updated(Stored("a", nows[0]), Restamped(map["x" := Str("u")], nows[1])), nows[2]);
    AfterStep(fm, AfterRegistrations(), Calls(), nows, 2);
    InsertCall(fm, "b", nows[3]);
    AfterStep(fm, AfterRegistrations(), Calls(), nows, 3);
  }

  lemma CallsHistory(fm: Formats, nows: seq<int>)
    requires |nows| == 4
    ensures History(fm, AfterRegistrations(), Calls(), nows)
    ensures After(fm, AfterRegistrations(), Calls(), nows) == Holding(Stored("b", nows[3]))
  {
    var a := Stored("a", nows[0]);
    CallsBegin(fm, nows);
    CallsAfter(fm, nows);
    assert Calls()[..4] == Calls() && nows[..4] == nows;
    forall i | 0 <= i < 4 ensures Recordable(fm, AfterCalls(fm, nows, i), Calls()[i], nows[i]) {
      if i == 0 { InsertCall(fm, "a", nows[0]); }
      else if i == 1 { UpdateCall(fm, a, nows[1]); }
      else if i == 2 { DeleteCall(fm, Updated(a, Restamped(map["x" := Str("u")], nows[1])), nows[2]); }
      else { InsertCall(fm, "b", nows[3]); }
    }
  }

  lemma CallsForgetNothing(nows: seq<int>)
    requires |nows| == 4
    ensures !Forgets(LoggedOps(Calls(), nows), "b", "1")
  {
  }

  /** Type "b" takes the update that was logged for type "a". */
  lemma CallsChange(fm: Formats, definitions: Definitions, nows: seq<int>)
    requires |nows| == 4 && "b" in definitions && definitions["b"] == Completed(Plain("b"))
    ensures "x" in Changes(fm, definitions, LoggedOps(Calls(), nows), "b", "1")
  {
    PlainChangesOk(fm, "b", nows[1]);
    ChangesInclude(fm, definitions, LoggedOps(Calls(), nows), 1, "b", "1", "x");
  }

  lemma StoredIsHarmed(fm: Formats, definitions: Definitions, log: seq<Op>, e: Entity)
    requires !Forgets(log, e.typ, e.id) && "x" in Changes(fm, definitions, log, e.typ, e.id) && "x" !in e.fields
    ensures !Unharmed(fm, definitions, log, e)
    ensures KeyOf(e) in Holding(e).entities && Holding(e).entities[KeyOf(e)] == e
  {
  }

  lemma SecondIsHarmed(fm: Formats, nows: seq<int>)
    requires |nows| == 4
    ensures var b := Stored("b", nows[3]);
            && !Unharmed(fm, AfterRegistrations().definitions, LoggedOps(Calls(), nows), b)
            && KeyOf(b) in Holding(b).entities && Holding(b).entities[KeyOf(b)] == b
  {
    CallsForgetNothing(nows);
    CallsChange(fm, AfterRegistrations().definitions, nows);
    StoredIsHarmed(fm, AfterRegistrations().definitions, LoggedOps(Calls(), nows), Stored("b", nows[3]));
  }

  /**
   * A session really writes such a log. Replaying it over the store it describes changes that store: the update logged
   * for the first type's entity reaches the second type's.
   */
  lemma SecondReplayIsFelt(fm: Formats, nows: seq<int>, later: seq<Moment>)
    requires |nows| == 4 && |later| == 4
    ensures var start := AfterRegistrations();
            && History(fm, start, Calls(), nows)
            && !Same(ReplayAll(fm, After(fm, start, Calls(), nows), LoggedOps(Calls(), nows), later),
                After(fm, start, Calls(), nows))
  {
    var b := Stored("b", nows[3]);
    StartReady();
    CallsHistory(fm, nows);
    SecondIsHarmed(fm, nows);
    HarmIsFelt(fm, AfterRegistrations(), Calls(), nows, later, Holding(b), KeyOf(b));
  }
}
