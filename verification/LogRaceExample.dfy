/** A delete whose log entry overtakes that of the insert it removes. */
module LogRaceExample {
  import opened Common
  import opened Keys
  import opened IdFormats
  import opened Validation
  import opened Store
  import opened Agreement
  import opened Tables
  import opened Journals
  import opened Commits
  import opened Interleaving
  import opened Recovery
  import opened ReplayIdempotence
  import opened LogRaces

  /** The store of a run, some clients inside calls, and nothing written so far. */
  function Unwritten(db: Db, clients: map<nat, Client>, calls: seq<Commit>, pending: map<nat, nat>): Machine {
    Machine(State(db, clients, calls), calls, pending, [], [])
  }

  /** A call that would store an entity in the empty store. */
  ghost predicate Storable(fm: Formats, db: Db, insert: Commit) {
    && Valid(fm, db) && Ready(View(db)) && db.entities == map[]
    && insert.op.OpInsert? && OpOk(insert.op) && Perform(fm, View(db), insert.op, insert.now).1 == Done
  }

  function StoredBy(insert: Commit): Entity
    requires insert.op.OpInsert?
  {
    Entity(insert.op.id, insert.op.typ, Stamped(insert.op.data, insert.now))
  }

  lemma NothingClashes(fm: Formats, db: Db, insert: Commit)
    requires Storable(fm, db, insert)
    ensures var e := StoredBy(insert);
            e.typ in db.definitions && HasMaps(db, e.typ) && UniqueFree(fm, db, e.typ, e.fields, "") && e.id != ""
  {
    assert InsertError(fm, View(db), insert.op.typ, insert.op.id, Stamped(insert.op.data, insert.now)).None?;
    UniqueFreeIsScan(fm, db, insert.op.typ, StoredBy(insert).fields, "");
    ValidIdNonEmpty(db.definitions[insert.op.typ].idGenerator, insert.op.id);
  }

  // Client 0 prepares and commits the insert; then client 1 deletes the entity, and no entry has been written yet.
  function Prepared(db: Db, insert: Commit, client: Client): Machine { Unwritten(db, map[0 := client], [], map[]) }

  function Inserted(fm: Formats, db: Db, insert: Commit): Machine
    requires insert.op.OpInsert? && HasMaps(db, insert.op.typ)
  {
    Unwritten(Attach(fm, db, StoredBy(insert)), map[0 := Idle], [insert], map[0 := 0])
  }

  function Deletion(insert: Commit): Commit
    requires insert.op.OpInsert?
  {
    Commit(OpDelete(insert.op.typ, insert.op.id), 0)
  }

  function Deleting(fm: Formats, db: Db, insert: Commit): Machine
    requires insert.op.OpInsert? && HasMaps(db, insert.op.typ)
  {
    var checked := map[0 := Idle, 1 := DeleteChecked(insert.op.typ, insert.op.id)];
    Unwritten(Attach(fm, db, StoredBy(insert)), checked, [insert], map[0 := 0])
  }

  function Deleted(fm: Formats, db: Db, insert: Commit): Machine
    requires insert.op.OpInsert? && HasMaps(db, insert.op.typ)
  {
    var e := StoredBy(insert);
    Unwritten(Detach(fm, Attach(fm, db, e), e), map[0 := Idle, 1 := Idle], [insert, Deletion(insert)],
        map[0 := 0, 1 := 1])
  }

  lemma PrepareMoves(fm: Formats, db: Db, insert: Commit)
    requires Storable(fm, db, insert)
    ensures var op := insert.op;
            var known, ready := InsertKnown(op.typ, op.id, op.data), InsertPrepared(op.typ, op.id, op.data, insert.now);
            && Moves(fm, Unwritten(db, map[], [], map[]), Acts(BeginInsert(0, op.typ, op.id, op.data)),
                 Prepared(db, insert, known))
            && Moves(fm, Prepared(db, insert, known), Acts(PrepareInsert(0, insert.now)), Prepared(db, insert, ready))
  {
    NothingClashes(fm, db, insert);
    var op := insert.op;
    assert InsertError(fm, View(db), op.typ, op.id, Stamped(op.data, insert.now)).None?;
  }

  lemma InsertMove(fm: Formats, db: Db, insert: Commit)
    requires Storable(fm, db, insert)
    ensures HasMaps(db, insert.op.typ)
    ensures var op := insert.op;
            Moves(fm, Prepared(db, insert, InsertPrepared(op.typ, op.id, op.data, insert.now)), Acts(CommitInsert(0)),
                Inserted(fm, db, insert))
  {
    NothingClashes(fm, db, insert);
    CommitInsertMove(fm, db, insert);
  }

  lemma CommitInsertMove(fm: Formats, db: Db, insert: Commit)
    requires insert.op.OpInsert? && HasMaps(db, insert.op.typ) && db.entities == map[]
    requires Writes(fm, View(db), insert.op, insert.now)
    requires UniqueFree(fm, db, insert.op.typ, StoredBy(insert).fields, "")
    ensures var op := insert.op;
            Moves(fm, Prepared(db, insert, InsertPrepared(op.typ, op.id, op.data, insert.now)), Acts(CommitInsert(0)),
                Inserted(fm, db, insert))
  {
    var op := insert.op;
    var ready := InsertPrepared(op.typ, op.id, op.data, insert.now);
    assert map[0 := ready][0 := Idle] == map[0 := Idle] && map[][0 := 0] == map[0 := 0];
    assert [] + [insert] == [insert] && Commit(op, insert.now) == insert;
  }

  lemma BeginDeleteMove(fm: Formats, db: Db, insert: Commit)
    requires insert.op.OpInsert? && HasMaps(db, insert.op.typ)
    ensures Moves(fm, Inserted(fm, db, insert), Acts(BeginDelete(1, insert.op.typ, insert.op.id)),
        Deleting(fm, db, insert))
  {
    assert map[0 := Idle][1 := DeleteChecked(insert.op.typ, insert.op.id)]
        == map[0 := Idle, 1 := DeleteChecked(insert.op.typ, insert.op.id)];
  }

  lemma DeleteIsLogged(fm: Formats, t: Table, e: Entity)
    requires KeyOf(e) in t.entities && t.entities[KeyOf(e)] == e
    ensures Writes(fm, t, OpDelete(e.typ, e.id), 0)
  {
  }

  lemma CommitDeleteMove(fm: Formats, db: Db, insert: Commit)
    requires insert.op.OpInsert? && HasMaps(db, insert.op.typ)
    ensures Moves(fm, Deleting(fm, db, insert), Acts(CommitDelete(1)), Deleted(fm, db, insert))
  {
    var e, m := StoredBy(insert), Deleting(fm, db, insert);
    DeleteIsLogged(fm, View(m.s.db), e);
    assert m.s.clients[1 := Idle] == map[0 := Idle, 1 := Idle];
    assert [insert] + [Deletion(insert)] == [insert, Deletion(insert)];
    assert m.pending[1 := 1] == map[0 := 0, 1 := 1];
  }

  lemma DeletedIsEmpty(fm: Formats, db: Db, insert: Commit)
    requires insert.op.OpInsert? && HasMaps(db, insert.op.typ) && db.entities == map[]
    ensures Deleted(fm, db, insert).s.db.entities == map[]
  {
    var e := StoredBy(insert);
    assert map[KeyOf(e) := e] - {KeyOf(e)} == map[];
  }

  // Client 1 writes its entry, then client 0.
  function HalfWritten(fm: Formats, db: Db, insert: Commit): Machine
    requires insert.op.OpInsert? && HasMaps(db, insert.op.typ)
  {
    Deleted(fm, db, insert).(pending := map[0 := 0], written := [1], log := [Deletion(insert).op])
  }

  function Overtaken(fm: Formats, db: Db, insert: Commit): Machine
    requires insert.op.OpInsert? && HasMaps(db, insert.op.typ)
  {
    Deleted(fm, db, insert).(pending := map[], written := [1] + [0],
                             log := [Deletion(insert).op] + [EntryFor(insert.op, insert.now)])
  }

  lemma LogMoves(fm: Formats, db: Db, insert: Commit)
    requires insert.op.OpInsert? && HasMaps(db, insert.op.typ)
    ensures Moves(fm, Deleted(fm, db, insert), Logs(1), HalfWritten(fm, db, insert))
    ensures Moves(fm, HalfWritten(fm, db, insert), Logs(0), Overtaken(fm, db, insert))
  {
    var calls := [insert, Deletion(insert)];
    assert calls[..1] == [insert];
    assert FieldsNow(calls, 0) == FieldsNow([insert], 0);
    assert map[0 := 0, 1 := 1] - {1} == map[0 := 0] && map[0 := 0] - {0} == map[];
  }

  lemma OvertakenRun(fm: Formats, db: Db, insert: Commit) returns (ms: seq<Machine>, moves: seq<Move>)
    requires Storable(fm, db, insert)
    ensures HasMaps(db, insert.op.typ) && IsLoggedRun(fm, ms, moves) && ms[0].s.db == db
    ensures ms[|moves|] == Overtaken(fm, db, insert)
  {
    var op := insert.op;
    var known, ready := InsertKnown(op.typ, op.id, op.data), InsertPrepared(op.typ, op.id, op.data, insert.now);
    PrepareMoves(fm, db, insert);
    InsertMove(fm, db, insert);
    BeginDeleteMove(fm, db, insert);
    CommitDeleteMove(fm, db, insert);
    LogMoves(fm, db, insert);
    ms, moves := [Unwritten(db, map[], [], map[])], [];
    ms, moves := OneMove(fm, ms, moves, Acts(BeginInsert(0, op.typ, op.id, op.data)), Prepared(db, insert, known));
    ms, moves := OneMove(fm, ms, moves, Acts(PrepareInsert(0, insert.now)), Prepared(db, insert, ready));
    ms, moves := OneMove(fm, ms, moves, Acts(CommitInsert(0)), Inserted(fm, db, insert));
    ms, moves := OneMove(fm, ms, moves, Acts(BeginDelete(1, op.typ, op.id)), Deleting(fm, db, insert));
    ms, moves := OneMove(fm, ms, moves, Acts(CommitDelete(1)), Deleted(fm, db, insert));
    ms, moves := OneMove(fm, ms, moves, Logs(1), HalfWritten(fm, db, insert));
    ms, moves := OneMove(fm, ms, moves, Logs(0), Overtaken(fm, db, insert));
  }

  lemma OneMove(fm: Formats, ms: seq<Machine>, moves: seq<Move>, move: Move, m: Machine)
    returns (ms': seq<Machine>, moves': seq<Move>)
    requires IsLoggedRun(fm, ms, moves) && Moves(fm, ms[|moves|], move, m)
    ensures IsLoggedRun(fm, ms', moves') && ms'[0] == ms[0] && ms'[|moves'|] == m
  {
    ms', moves' := ms + [m], moves + [move];
  }

  lemma TwoFates(fm: Formats, definitions: Definitions, a: Op, b: Op, id: string)
    ensures Fates(fm, definitions, None, [a] + [b], id) == Fate(fm, definitions, Fate(fm, definitions, None, a, id), b,
        id)
  {
    FatesAppend(fm, definitions, None, [a], [b], id);
    assert [a][..0] == [] && [b][..0] == [];
    assert Fates(fm, definitions, None, [a], id) == Fate(fm, definitions, None, a, id);
  }

  lemma OvertakenFates(fm: Formats, db: Db, insert: Commit)
    requires insert.op.OpInsert? && HasMaps(db, insert.op.typ)
    ensures var m := Overtaken(fm, db, insert);
            && Fates(fm, db.definitions, None, m.log, insert.op.id).Some?
            && Fates(fm, db.definitions, None, CommitOrder(m.calls), insert.op.id).None?
  {
    var m, entry, removal := Overtaken(fm, db, insert), EntryFor(insert.op, insert.now), Deletion(insert).op;
    TwoFates(fm, db.definitions, removal, entry, insert.op.id);
    TwoFates(fm, db.definitions, entry, removal, insert.op.id);
    assert CommitOrder(m.calls) == [entry] + [removal];
  }

  lemma StorableNames(fm: Formats, db: Db, insert: Commit)
    requires Storable(fm, db, insert)
    ensures NoColon(insert.op.typ) && NoColon(insert.op.id) && !GetFinds(db.entities.Keys, insert.op.id)
  {
  }

  lemma OvertakenPlain(fm: Formats, db: Db, insert: Commit)
    requires insert.op.OpInsert? && NoColon(insert.op.typ) && NoColon(insert.op.id)
    requires !GetFinds(db.entities.Keys, insert.op.id)
    ensures Plain(fm, View(db), [insert, Deletion(insert)])
  {
    assert Sequential(fm, View(db), [insert, Deletion(insert)][..0]) == View(db);
  }

  lemma OvertakenIsBack(fm: Formats, db: Db, insert: Commit, moments: seq<Moment>)
    requires Storable(fm, db, insert) && |moments| == 2 && HasMaps(db, insert.op.typ)
    requires LoggedInv(fm, View(db), Overtaken(fm, db, insert))
    ensures HeldBy(ReplayAll(fm, View(db), Overtaken(fm, db, insert).log, moments), insert.op.id).Some?
  {
    var m := Overtaken(fm, db, insert);
    StorableNames(fm, db, insert);
    OvertakenPlain(fm, db, insert);
    OvertakenFates(fm, db, insert);
    DeletedIsEmpty(fm, db, insert);
    IdRecoversIff(fm, View(db), m, moments, insert.op.id);
    assert HeldBy(View(m.s.db), insert.op.id).None?;
  }

  /**
   * Any entity that can be stored in the empty store: one client inserts it, another deletes it and writes its entry
   * first. Then every call has returned, the store is empty, and after a crash the entity is back.
   */
  lemma DeletedComesBack(fm: Formats, db: Db, insert: Commit, moments: seq<Moment>)
    requires Storable(fm, db, insert) && |moments| == 2
    ensures exists ms: seq<Machine>, moves: seq<Move> ::
              && IsLoggedRun(fm, ms, moves) && ms[0].s.db == db
              && ms[|moves|].pending == map[] && ms[|moves|].s.db.entities == map[] && |ms[|moves|].log| == 2
              && HeldBy(ReplayAll(fm, View(db), ms[|moves|].log, moments), insert.op.id).Some?
  {
    var ms, moves := OvertakenRun(fm, db, insert);
    DeletedIsEmpty(fm, db, insert);
    LoggedRunKeepsInv(fm, ms, moves, |moves|);
    OvertakenIsBack(fm, db, insert, moments);
  }
}
