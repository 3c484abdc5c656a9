/** A run, a crash and a start after which a number that was generated, deleted and saved as deleted comes back. */
module NumberingExample {
  import opened Common
  import opened Keys
  import opened IdFormats
  import opened Numerals
  import opened Validation
  import opened Agreement
  import opened Tables
  import opened Journals
  import opened Recovery
  import opened SnapshotLoading
  import opened CrashRecovery
  import opened IdGenerators
  import opened Numbering
  import opened Lifetimes

  function Counted(): EntityDefinition { EntityDefinition("a", [], AutoIncrement) }

  function Made(id: string): Entity { Entity(id, "a", Stamped(map[], 0)) }

  function Dumped(): seq<DumpItem> {
    [DumpDefinition(Completed(Counted())), DumpEntity(Made("1")), DumpEntity(Made("2"))]
  }

  /**
   * Three entities are created with generated ids, the third is deleted; a snapshot is taken; the second is deleted.
   */
  function Session(): seq<Command> {
    [
      Call(OpRegister(Counted()), 0, true),
      Call(OpInsert("a", "1", map[]), 0, true), Call(OpInsert("a", "2", map[]), 0, true),
      Call(OpInsert("a", "3", map[]), 0, true), Call(OpDelete("a", "3"), 0, true),
      TakeSnapshot(5, Dumped()),
      Call(OpDelete("a", "2"), 0, true)
    ]
  }

  const GENERATED: set<nat> := {1, 2, 3}

  // ---------- the stores of the run ----------

  function Holding(entities: map<string, Entity>): Table { Table(map["a" := Completed(Counted())], entities) }

  const KEY_1 := CreateKey("a", "1")
  const KEY_2 := CreateKey("a", "2")
  const KEY_3 := CreateKey("a", "3")

  lemma KeysDistinct()
    ensures KEY_1 != KEY_2 && KEY_1 != KEY_3 && KEY_2 != KEY_3
  {
    if KEY_1 == KEY_2 { KeyInjective("a", "1", "a", "2"); }
    if KEY_1 == KEY_3 { KeyInjective("a", "1", "a", "3"); }
    if KEY_2 == KEY_3 { KeyInjective("a", "2", "a", "3"); }
  }

  lemma CountedCompleted()
    ensures Completed(Counted()) ==
            EntityDefinition("a", [InternalDefinition(CREATED_AT), InternalDefinition(UPDATED_AT)], AutoIncrement)
  {
    assert !HasField([], CREATED_AT) && !HasField([], UPDATED_AT);
  }

  lemma FirstNumbers()
    ensures Decimal(1) == "1" && Decimal(2) == "2" && Decimal(3) == "3"
    ensures Next(UNUSED) == 1 && Next(Counting(Some(1), {})) == 2 && Next(Counting(Some(2), {})) == 3
  {
    assert !IsDeleted({}, 1) && !IsDeleted({}, 2) && !IsDeleted({}, 3);
  }

  lemma MadeIsOk(fm: Formats)
    ensures EntityDataOk(fm, Completed(Counted()), Stamped(map[], 0))
  {
    CountedCompleted();
    var data, def := Stamped(map[], 0), Completed(Counted());
    assert data == map[CREATED_AT := Time(0), UPDATED_AT := Time(0)];
    assert InternalField(def, CREATED_AT) by { assert def.fields[0].name == CREATED_AT && def.fields[0] in def.fields; }
    assert InternalField(def, UPDATED_AT) by { assert def.fields[1].name == UPDATED_AT && def.fields[1] in def.fields; }
  }

  /** The type takes any new number as an id. */
  lemma InsertMade(fm: Formats, entities: map<string, Entity>, n: nat)
    requires n < TWO_64 && CreateKey("a", Decimal(n)) !in entities
    ensures Insert(fm, Holding(entities), "a", Decimal(n), map[], 0) ==
            (Holding(entities[CreateKey("a", Decimal(n)) := Made(Decimal(n))]), Done)
  {
    CountedCompleted();
    MadeIsOk(fm);
    ParseUintOfDecimal(n);
    assert !Clashes(fm, Completed(Counted()), entities, Stamped(map[], 0), "");
  }

  lemma DeleteMade(entities: map<string, Entity>, id: string)
    requires CreateKey("a", id) in entities && entities[CreateKey("a", id)] == Made(id)
    ensures Delete(Holding(entities), "a", id) == (Holding(entities - {CreateKey("a", id)}), Done)
  {
  }

  /** The store before command i. */
  function StoreAt(i: nat): Table
    requires i <= 7
  {
    if i == 0 then EMPTY_TABLE
    else
      Holding(match i
              case 1 => map[]
              case 2 => map[KEY_1 := Made("1")]
              case 3 => map[KEY_1 := Made("1"), KEY_2 := Made("2")]
              case 4 => map[KEY_1 := Made("1"), KEY_2 := Made("2"), KEY_3 := Made("3")]
              case 7 => map[KEY_1 := Made("1")]
              case _ => map[KEY_1 := Made("1"), KEY_2 := Made("2")])
  }

  lemma InsertsMatch(fm: Formats)
    ensures Insert(fm, StoreAt(1), "a", "1", map[], 0) == (StoreAt(2), Done)
    ensures Insert(fm, StoreAt(2), "a", "2", map[], 0) == (StoreAt(3), Done)
    ensures Insert(fm, StoreAt(3), "a", "3", map[], 0) == (StoreAt(4), Done)
  {
    KeysDistinct();
    FirstNumbers();
    InsertMade(fm, map[], 1);
    InsertMade(fm, StoreAt(2).entities, 2);
    InsertMade(fm, StoreAt(3).entities, 3);
  }

  lemma DeletesMatch()
    ensures Delete(StoreAt(4), "a", "3") == (StoreAt(5), Done)
    ensures Delete(StoreAt(6), "a", "2") == (StoreAt(7), Done)
  {
    KeysDistinct();
    DeleteMade(StoreAt(4).entities, "3");
    assert StoreAt(4).entities - {KEY_3} == StoreAt(5).entities;
    DeleteMade(StoreAt(6).entities, "2");
    assert StoreAt(6).entities - {KEY_2} == StoreAt(7).entities;
  }

  /** Each call of the session succeeds and is logged. */
  lemma CallMatches(fm: Formats, i: nat)
    requires i < 7 && i != 5
    ensures var c := Session()[i];
            Perform(fm, StoreAt(i), c.op, c.now).0 == StoreAt(i + 1) && Writes(fm, StoreAt(i), c.op, c.now)
  {
    if i == 0 {
    } else if i <= 3 {
      InsertsMatch(fm);
    } else {
      DeletesMatch();
    }
  }

  function SequenceAt(i: nat): nat { if i <= 5 then i else i - 1 }

  lemma {:induction false} RunAt(fm: Formats, i: nat)
    requires i <= 7
    ensures Run(fm, Session()[..i]).table == StoreAt(i) && Run(fm, Session()[..i]).journal.sequence == SequenceAt(i)
  {
    if i == 0 {
      assert Session()[..0] == [];
    } else {
      RunAt(fm, i - 1);
      RunStep(fm, Session(), i - 1);
      if i != 6 {
        var c := Session()[i - 1];
        CallMatches(fm, i - 1);
        PersistedIsExecute(fm, Run(fm, Session()[..i - 1]), c.op, c.now);
      }
    }
  }

  // ---------- the run is legal and loses nothing after its snapshot ----------

  lemma DumpedIsDump()
    ensures IsDump(Dumped(), StoreAt(5))
  {
    KeysDistinct();
    var t := StoreAt(5);
    assert Dumped()[0] == DumpDefinition(t.definitions["a"]);
    assert ItemOk(Dumped(), 0, t) && ItemOk(Dumped(), 1, t) && ItemOk(Dumped(), 2, t);
    assert Dumped()[0] in Dumped() && Dumped()[1] in Dumped() && Dumped()[2] in Dumped();
  }

  lemma SessionLegal(fm: Formats)
    ensures Legal(fm, Session())
  {
    forall i | 0 <= i < |Session()| ensures CommandOk(Run(fm, Session()[..i]), Session()[i]) {
      if i == 5 {
        RunAt(fm, 5);
        DumpedIsDump();
      } else {
        assert Session()[i].Call? && OpOk(Session()[i].op);
      }
    }
  }

  lemma SlateIsClean(fm: Formats)
    ensures CleanSlate(fm, Session(), 6) && NoLoss(fm, Session(), 6, 7)
  {
    RunAt(fm, 6);
    assert Session()[5].TakeSnapshot? && IdsDiffer(StoreAt(6));
    assert !LosesAt(fm, Session(), 6);
  }

  /** The snapshot describes two entities, and the log has the one delete since. */
  lemma MarkIs(fm: Formats)
    ensures MarkOf(fm, Session()) == Mark(StoreAt(6), 5, Then(Empty, 6, OpDelete("a", "2")))
  {
    RunAt(fm, 6);
    DumpedMark(fm, Session(), 6);
    RunStep(fm, Session(), 6);
    CallMatches(fm, 6);
    assert Session()[..7] == Session();
  }

  // ---------- what the session saves ----------

  function Changes(): seq<Change> {
    [NumberTaken, InsertLogged, NumberTaken, InsertLogged, NumberTaken, InsertLogged, DeleteMarked("3"),
        DeleteMarked("2")]
  }

  /** How many of the changes come before command i. */
  function ChangesAt(i: nat): nat
    requires i <= 7
  {
    match i
    case 0 => 0
    case 1 => 0
    case 2 => 2
    case 3 => 4
    case 4 => 6
    case 7 => 8
    case _ => 7
  }

  function PieceAt(i: nat): seq<Change>
    requires i < 7
  {
    if 1 <= i <= 3 then [NumberTaken, InsertLogged]
    else if i == 4 then [DeleteMarked("3")]
    else if i == 6 then [DeleteMarked("2")]
    else []
  }

  lemma Pieces(i: nat)
    requires i < 7
    ensures Changes()[..ChangesAt(i + 1)] == Changes()[..ChangesAt(i)] + PieceAt(i)
  {
  }

  lemma OneChange(fm: Formats, i: nat)
    requires i < 7 && i != 5
    ensures var c := Session()[i];
            CallChanges(fm, StoreAt(i), "a", c.op, c.now, c.disk, i in GENERATED) == PieceAt(i)
  {
    CallMatches(fm, i);
  }

  lemma {:induction false} SessionIs(fm: Formats, i: nat)
    requires i <= 7
    ensures SessionChanges(fm, "a", Session()[..i], GENERATED) == Changes()[..ChangesAt(i)]
  {
    if i == 0 {
      assert Session()[..0] == [];
    } else {
      SessionIs(fm, i - 1);
      RunAt(fm, i - 1);
      assert Session()[..i][..i - 1] == Session()[..i - 1];
      Pieces(i - 1);
      if i != 6 { OneChange(fm, i - 1); }
    }
  }

  lemma {:induction false} AllChangedStep(n: Numbers, changes: seq<Change>, k: nat)
    requires k < |changes|
    ensures AllChanged(n, changes[..k + 1]) == Changed(AllChanged(n, changes[..k]), changes[k])
  {
    assert changes[..k + 1][..k] == changes[..k];
  }

  lemma ChangesBegin()
    ensures var n := Numbers(UNUSED, Saved(None, None));
            && AllChanged(n, Changes()[..0]) == n
            && AllChanged(n, Changes()[..2]) == Numbers(Counting(Some(1), {}), Saved(Some(1), None))
            && AllChanged(n, Changes()[..4]) == Numbers(Counting(Some(2), {}), Saved(Some(2), None))
  {
    FirstNumbers();
    var n := Numbers(UNUSED, Saved(None, None));
    assert AllChanged(n, Changes()[..0]) == n;
    AllChangedStep(n, Changes(), 0);
    AllChangedStep(n, Changes(), 1);
    assert AllChanged(n, Changes()[..2]) == Numbers(Counting(Some(1), {}), Saved(Some(1), None));
    AllChangedStep(n, Changes(), 2);
    AllChangedStep(n, Changes(), 3);
  }

  lemma ChangesSave()
    ensures AllChanged(Numbers(UNUSED, Saved(None, None)), Changes()).saved == Saved(Some(3), Some({"2", "3"}))
  {
    FirstNumbers();
    ChangesBegin();
    var n := Numbers(UNUSED, Saved(None, None));
    AllChangedStep(n, Changes(), 4);
    AllChangedStep(n, Changes(), 5);
    assert AllChanged(n, Changes()[..6]) == Numbers(Counting(Some(3), {}), Saved(Some(3), None));
    AllChangedStep(n, Changes(), 6);
    AllChangedStep(n, Changes(), 7);
    assert Changes()[..8] == Changes() && {} + {"3"} + {"2"} == {"2", "3"};
  }

  lemma FirstCounts(fm: Formats, i: nat)
    requires 1 <= i <= 3
    ensures Next(NumbersAfter(fm, "a", Session()[..i], GENERATED).counting) == i
  {
    FirstNumbers();
    ChangesBegin();
    SessionIs(fm, i);
  }

  /** The three ids are the ones the generator answers. */
  lemma IdIsGenerated(fm: Formats, i: nat)
    requires i in GENERATED
    ensures GeneratedAt(fm, "a", Session(), GENERATED, i)
  {
    FirstNumbers();
    FirstCounts(fm, i);
  }

  /** The session leaves counter 3 and the deleted ids "2" and "3" in the database. */
  lemma SessionSaves(fm: Formats)
    ensures NumbersAfter(fm, "a", Session(), GENERATED).saved == Saved(Some(3), Some({"2", "3"}))
  {
    SessionIs(fm, 7);
    ChangesSave();
    assert Session()[..7] == Session() && Changes()[..8] == Changes();
  }

  lemma OnlyFirstIsStored(fm: Formats)
    ensures IdsOf(Run(fm, Session()).table, "a") == {"1"} && Highest({"1"}) == 1
  {
    RunAt(fm, 7);
    assert Session()[..7] == Session();
    assert KEY_1 in StoreAt(7).entities;
    FirstNumbers();
    ParseUintOfDecimal(1);
    HighestIs({"1"}, 1);
  }

  lemma ThreeIsInReach()
    requires Highest({"1"}) == 1
    ensures !OutOfReach(Saved(Some(3), Some({"2", "3"})), true, {"2"}, {"1"}, 3)
  {
    FirstNumbers();
  }

  lemma SnapshotStays(fm: Formats)
    ensures Run(fm, Session()).journal.snapshot == Some(Dumped())
  {
    RunStep(fm, Session(), 5);
    RunStep(fm, Session(), 6);
    assert Session()[..7] == Session();
  }

  lemma ThreeComesBack(fm: Formats, loadNows: seq<int>, entries: Entries, transactions: seq<string>,
      moments: seq<Moment>)
    requires Legal(fm, Session()) && StartUp(fm, Run(fm, Session()).journal, loadNows, entries, transactions, moments)
    ensures var c := CountingAtStart(fm, "a", Saved(Some(3), Some({"2", "3"})), Run(fm, Session()).journal, loadNows,
                entries, transactions, moments);
            exists calls :: 3 in Generated(IdState(c, {"1"}), calls)
  {
    SlateIsClean(fm);
    MarkIs(fm);
    OnlyFirstIsStored(fm);
    assert Session()[..7] == Session();
    var tail := Then(Empty, 6, OpDelete("a", "2"));
    assert DeletedIn("a", tail) == {"2"} by { assert {} + {"2"} == {"2"}; }
    assert OfType(StoreAt(6).entities, KEY_1, "a");
    SnapshotStays(fm);
    ThreeIsInReach();
    NeverAfterCrashIff(fm, "a", Session(), 6, 7, Saved(Some(3), Some({"2", "3"})), loadNows, entries, transactions,
        moments, 3);
  }

  /**
   * However the crash and the start go, the next process can give out 3 again, although 3 was generated, deleted and
   * saved as deleted, and the saved counter is 3.
   */
  lemma DeletedNumberComesBack(fm: Formats, loadNows: seq<int>, entries: Entries, transactions: seq<string>,
      moments: seq<Moment>)
    requires StartUp(fm, Run(fm, Session()).journal, loadNows, entries, transactions, moments)
    ensures Legal(fm, Session()) && GeneratedAt(fm, "a", Session(), GENERATED, 3)
    ensures NumbersAfter(fm, "a", Session(), GENERATED).saved == Saved(Some(3), Some({"2", "3"}))
    ensures IdsOf(Run(fm, Session()).table, "a") == {"1"}
    ensures var c := CountingAtStart(fm, "a", NumbersAfter(fm, "a", Session(), GENERATED).saved,
                Run(fm, Session()).journal, loadNows, entries, transactions, moments);
            exists calls :: 3 in Generated(IdState(c, {"1"}), calls)
  {
    SessionLegal(fm);
    IdIsGenerated(fm, 3);
    SessionSaves(fm);
    OnlyFirstIsStored(fm);
    ThreeComesBack(fm, loadNows, entries, transactions, moments);
  }
}
