/**
 * Any number of clients calling the engine at once. Each call is split where the engine releases its lock:
 * a check under the read lock, then a commit under the write lock that checks again.
 */
module Interleaving {
  import opened Common
  import opened Keys
  import opened IdFormats
  import opened Validation
  import opened Store
  import opened Agreement
  import opened Tables
  import opened Journals
  import opened Commits

  // ---------- clients ----------

  // Where a client is inside a call. The checks it has passed were made on the store of that moment.
  datatype Client =
    | Idle
    | InsertKnown(typ: string, id: string, data: Fields)            // type exists, id well formed
    | InsertPrepared(typ: string, id: string, data: Fields, now: int) // data validated, id and keys were free
    | UpdateChecked(typ: string, id: string, data: Fields, now: int)  // entity was there, data validated
    | DeleteChecked(typ: string, id: string)                          // entity was there
    | TruncateChecked(typ: string)                                    // type exists

  datatype Commit = Commit(op: Op, now: int)

  datatype State = State(db: Db, clients: map<nat, Client>, history: seq<Commit>)

  function ClientOf(s: State, c: nat): Client { if c in s.clients then s.clients[c] else Idle }

  // ---------- steps ----------

  datatype Step =
    | BeginInsert(c: nat, typ: string, id: string, data: Fields)
    | PrepareInsert(c: nat, now: int)
    | CommitInsert(c: nat)
    | BeginUpdate(c: nat, typ: string, id: string, data: Fields, now: int)
    | CommitUpdate(c: nat)
    | BeginDelete(c: nat, typ: string, id: string)
    | CommitDelete(c: nat)
    | BeginTruncateType(c: nat, typ: string)
    | CommitTruncateType(c: nat, order: seq<Entity>)
    | CommitTruncateDatabase(c: nat)

  function With(s: State, c: nat, client: Client): State { s.(clients := s.clients[c := client]) }

  function Finish(s: State, c: nat, db: Db, op: Op, now: int): State {
    State(db, s.clients[c := Idle], s.history + [Commit(op, now)])
  }

  predicate HasMaps(db: Db, typ: string) { typ in db.definitions && typ in db.indices && typ in db.uniqueIndices }

  /** The outcome of a step; a check that fails ends the call with an error and changes nothing. */
  ghost predicate Next(fm: Formats, s: State, step: Step, s': State) {
    var db, client := s.db, ClientOf(s, step.c);
    match step
    case BeginInsert(c, typ, id, data) =>
      client.Idle? && NoColon(typ) &&
      s' == if typ in db.definitions && ValidId(db.definitions[typ].idGenerator, id)
          then With(s, c, InsertKnown(typ, id, data)) else s
    case PrepareInsert(c, now) =>
      client.InsertKnown? &&
      var data := Stamped(client.data, now);
      s' == With(s, c,
        if HasMaps(db, client.typ) && EntityDataOk(fm, db.definitions[client.typ], data)
           && UniqueFree(fm, db, client.typ, data, "") && CreateKey(client.typ, client.id) !in db.entities
        then InsertPrepared(client.typ, client.id, client.data, now) else Idle)
    case CommitInsert(c) =>
      client.InsertPrepared? &&
      var e := Entity(client.id, client.typ, Stamped(client.data, client.now));
      s' == if HasMaps(db, e.typ) && KeyOf(e) !in db.entities && UniqueFree(fm, db, e.typ, e.fields, "")
            then Finish(s, c, Attach(fm, db, e), OpInsert(client.typ, client.id, client.data), client.now)
            else With(s, c, Idle)
    case BeginUpdate(c, typ, id, data, now) =>
      client.Idle? && NoColon(typ) &&
      s' == if CreateKey(typ, id) in db.entities && HasMaps(db, typ)
               && UpdateDataOk(fm, db.definitions[typ], Restamped(data, now))
                   && UniqueFree(fm, db, typ, Restamped(data, now), id)
            then With(s, c, UpdateChecked(typ, id, data, now)) else s
    case CommitUpdate(c) =>
      client.UpdateChecked? &&
      var key := CreateKey(client.typ, client.id);
      s' == if key !in db.entities then With(s, c, Idle)
            else
              var e := db.entities[key];
              var merged := Updated(e, Restamped(client.data, client.now));
              if HasMaps(db, e.typ) && e.typ == client.typ && UniqueFree(fm, db, e.typ, merged.fields, client.id)
              then Finish(s, c, Replace(fm, db, e, merged), OpUpdate(client.typ, client.id, client.data), client.now)
              else With(s, c, Idle)
    case BeginDelete(c, typ, id) =>
      client.Idle? &&
      s' == if CreateKey(typ, id) in db.entities then With(s, c, DeleteChecked(typ, id)) else s
    case CommitDelete(c) =>
      client.DeleteChecked? &&
      var key := CreateKey(client.typ, client.id);
      s' == if key in db.entities && db.entities[key].id == client.id && db.entities[key].typ == client.typ
          && HasMaps(db, client.typ)
            then Finish(s, c, Detach(fm, db, db.entities[key]), OpDelete(client.typ, client.id), 0)
            else With(s, c, Idle)
    case BeginTruncateType(c, typ) =>
      client.Idle? && s' == if typ in db.definitions then With(s, c, TruncateChecked(typ)) else s
    case CommitTruncateType(c, order) =>
      client.TruncateChecked? && ListsType(db, client.typ, order) && HasMaps(db, client.typ) &&
      s' == Finish(s, c, DetachAll(fm, db, order), OpTruncateType(client.typ), 0)
    case CommitTruncateDatabase(c) =>
      client.Idle? && s' == Finish(s, c, Cleared(db), OpTruncateDatabase, 0)
  }

  /** A run: states[0] is quiet, and each state follows from the one before by some client's step. */
  ghost predicate IsRun(fm: Formats, states: seq<State>, steps: seq<Step>) {
    && |states| == |steps| + 1
    && Valid(fm, states[0].db) && states[0].clients == map[] && states[0].history == []
    && forall i :: 0 <= i < |steps| ==> Next(fm, states[i], steps[i], states[i + 1])
  }

  // ---------- the sequential run behind it ----------

  function Ops(history: seq<Commit>): seq<Op> { seq(|history|, i requires 0 <= i < |history| => history[i].op) }
  function Nows(history: seq<Commit>): seq<int> { seq(|history|, i requires 0 <= i < |history| => history[i].now) }

  /** The store after performing the committed calls one after another, in commit order. */
  function Sequential(fm: Formats, t: Table, history: seq<Commit>): Table {
    After(fm, t, Ops(history), Nows(history))
  }

  /** Performed alone at its turn, each committed call succeeds. */
  ghost predicate AllSucceed(fm: Formats, t: Table, history: seq<Commit>) {
    forall i :: 0 <= i < |history| ==>
      Perform(fm, Sequential(fm, t, history[..i]), history[i].op, history[i].now).1 == Done
  }

  lemma SequentialStep(fm: Formats, t: Table, history: seq<Commit>, commit: Commit)
    ensures Sequential(fm, t, history + [commit]) == Perform(fm, Sequential(fm, t, history), commit.op, commit.now).0
  {
    var h := history + [commit];
    assert Ops(h)[..|history|] == Ops(history) && Nows(h)[..|history|] == Nows(history);
  }

  /**
   * What a client's earlier checks still guarantee, whatever the others did since: only what depends on definitions.
   */
  ghost predicate ClientSound(fm: Formats, definitions: map<string, EntityDefinition>, client: Client) {
    match client
    case Idle => true
    case InsertKnown(typ, id, _) =>
      typ in definitions && NoColon(typ) && ValidId(definitions[typ].idGenerator, id)
    case InsertPrepared(typ, id, data, now) =>
      typ in definitions && NoColon(typ) && ValidId(definitions[typ].idGenerator, id)
          && EntityDataOk(fm, definitions[typ], Stamped(data, now))
    case UpdateChecked(typ, id, data, now) =>
      typ in definitions && NoColon(typ) && UpdateDataOk(fm, definitions[typ], Restamped(data, now))
    case DeleteChecked(typ, id) => true
    case TruncateChecked(typ) => typ in definitions
  }

  /** Holds between any two steps of any clients. */
  ghost predicate Inv(fm: Formats, start: Table, s: State) {
    && Valid(fm, s.db)
    && (forall c :: c in s.clients ==> ClientSound(fm, s.db.definitions, s.clients[c]))
    && View(s.db) == Sequential(fm, start, s.history)
    && AllSucceed(fm, start, s.history)
  }

  /** A commit whose database step does what the sequential call would do keeps the invariant. */
  lemma CommitKeepsInv(fm: Formats, start: Table, s: State, c: nat, db: Db, op: Op, now: int)
    requires Inv(fm, start, s) && Valid(fm, db) && db.definitions == s.db.definitions
    requires Perform(fm, View(s.db), op, now) == (View(db), Done)
    ensures Inv(fm, start, Finish(s, c, db, op, now))
  {
    SequentialStep(fm, start, s.history, Commit(op, now));
    var h := s.history + [Commit(op, now)];
    forall i | 0 <= i < |h| ensures Perform(fm, Sequential(fm, start, h[..i]), h[i].op, h[i].now).1 == Done {
      if i < |s.history| { assert h[..i] == s.history[..i]; } else { assert h[..i] == s.history; }
    }
  }

  lemma InsertCommits(fm: Formats, db: Db, typ: string, id: string, data: Fields, now: int)
    requires Valid(fm, db) && ClientSound(fm, db.definitions, InsertPrepared(typ, id, data, now))
    requires CreateKey(typ, id) !in db.entities && UniqueFree(fm, db, typ, Stamped(data, now), "")
    ensures var db' := Attach(fm, db, Entity(id, typ, Stamped(data, now)));
            Valid(fm, db') && Perform(fm, View(db), OpInsert(typ, id, data), now) == (View(db'), Done)
  {
    var e := Entity(id, typ, Stamped(data, now));
    UniqueFreeIsScan(fm, db, typ, e.fields, "");
    ClashOnlyWithOthers(fm, db.definitions[typ], db.entities, e.fields, id);
    ValidIdNonEmpty(db.definitions[typ].idGenerator, id);
    AttachKeepsValid(fm, db, e);
  }

  lemma UpdateCommits(fm: Formats, db: Db, typ: string, id: string, data: Fields, now: int)
    requires Valid(fm, db) && ClientSound(fm, db.definitions, UpdateChecked(typ, id, data, now))
    requires CreateKey(typ, id) in db.entities && db.entities[CreateKey(typ, id)].typ == typ
    requires UniqueFree(fm, db, typ, Updated(db.entities[CreateKey(typ, id)], Restamped(data, now)).fields, id)
    ensures var e := db.entities[CreateKey(typ, id)];
            var db' := Replace(fm, db, e, Updated(e, Restamped(data, now)));
            Valid(fm, db') && Perform(fm, View(db), OpUpdate(typ, id, data), now) == (View(db'), Done)
  {
    var e := db.entities[CreateKey(typ, id)];
    var e' := Updated(e, Restamped(data, now));
    KeyInjective(typ, id, e.typ, e.id);
    UniqueFreeIsScan(fm, db, typ, e'.fields, id);
    ReplaceKeepsValid(fm, db, e, e');
  }

  lemma MoveKeepsInv(fm: Formats, start: Table, s: State, c: nat, client: Client)
    requires Inv(fm, start, s) && ClientSound(fm, s.db.definitions, client)
    ensures Inv(fm, start, With(s, c, client))
  {
  }

  lemma CommitInsertKeepsInv(fm: Formats, start: Table, s: State, c: nat, s': State)
    requires Inv(fm, start, s) && Next(fm, s, CommitInsert(c), s')
    ensures Inv(fm, start, s')
  {
    var db, client := s.db, ClientOf(s, c);
    var e := Entity(client.id, client.typ, Stamped(client.data, client.now));
    if HasMaps(db, e.typ) && KeyOf(e) !in db.entities && UniqueFree(fm, db, e.typ, e.fields, "") {
      InsertCommits(fm, db, client.typ, client.id, client.data, client.now);
      CommitKeepsInv(fm, start, s, c, Attach(fm, db, e), OpInsert(client.typ, client.id, client.data), client.now);
    } else {
      MoveKeepsInv(fm, start, s, c, Idle);
    }
  }

  lemma CommitUpdateKeepsInv(fm: Formats, start: Table, s: State, c: nat, s': State)
    requires Inv(fm, start, s) && Next(fm, s, CommitUpdate(c), s')
    ensures Inv(fm, start, s')
  {
    var db, client := s.db, ClientOf(s, c);
    MoveKeepsInv(fm, start, s, c, Idle);
    var key := CreateKey(client.typ, client.id);
    if key in db.entities {
      var e := db.entities[key];
      var merged := Updated(e, Restamped(client.data, client.now));
      if HasMaps(db, e.typ) && e.typ == client.typ && UniqueFree(fm, db, e.typ, merged.fields, client.id) {
        UpdateCommits(fm, db, client.typ, client.id, client.data, client.now);
        CommitKeepsInv(fm, start, s, c, Replace(fm, db, e, merged), OpUpdate(client.typ, client.id, client.data),
            client.now);
      }
    }
  }

  lemma CommitDeleteKeepsInv(fm: Formats, start: Table, s: State, c: nat, s': State)
    requires Inv(fm, start, s) && Next(fm, s, CommitDelete(c), s')
    ensures Inv(fm, start, s')
  {
    var db, client := s.db, ClientOf(s, c);
    MoveKeepsInv(fm, start, s, c, Idle);
    var key := CreateKey(client.typ, client.id);
    if key in db.entities && db.entities[key].id == client.id && db.entities[key].typ == client.typ
        && HasMaps(db, client.typ) {
      DetachKeepsValid(fm, db, db.entities[key]);
      CommitKeepsInv(fm, start, s, c, Detach(fm, db, db.entities[key]), OpDelete(client.typ, client.id), 0);
    }
  }

  lemma CommitTruncateKeepsInv(fm: Formats, start: Table, s: State, step: Step, s': State)
    requires Inv(fm, start, s) && Next(fm, s, step, s') && (step.CommitTruncateType? || step.CommitTruncateDatabase?)
    ensures Inv(fm, start, s')
  {
    if step.CommitTruncateType? {
      var typ := ClientOf(s, step.c).typ;
      TruncateKeepsValid(fm, s.db, typ, step.order);
      CommitKeepsInv(fm, start, s, step.c, DetachAll(fm, s.db, step.order), OpTruncateType(typ), 0);
    } else {
      ClearedIsValid(fm, s.db);
      CommitKeepsInv(fm, start, s, step.c, Cleared(s.db), OpTruncateDatabase, 0);
    }
  }

  /** A check under the read lock changes only the client, to one whose promises hold. */
  lemma CheckKeepsInv(fm: Formats, start: Table, s: State, step: Step, s': State)
    requires Inv(fm, start, s) && Next(fm, s, step, s')
    requires step.BeginInsert? || step.PrepareInsert? || step.BeginUpdate? || step.BeginDelete?
        || step.BeginTruncateType?
    ensures Inv(fm, start, s')
  {
    MoveKeepsInv(fm, start, s, step.c, Idle);
    var client' := ClientOf(s', step.c);
    assert ClientSound(fm, s.db.definitions, ClientOf(s, step.c));
    assert ClientSound(fm, s.db.definitions, client');
    MoveKeepsInv(fm, start, s, step.c, client');
    assert s' == s || s' == With(s, step.c, client');
  }

  /** Every step of every client keeps the invariant. */
  lemma StepKeepsInv(fm: Formats, start: Table, s: State, step: Step, s': State)
    requires Inv(fm, start, s) && Next(fm, s, step, s')
    ensures Inv(fm, start, s')
  {
    match step
    case CommitInsert(c) => CommitInsertKeepsInv(fm, start, s, c, s');
    case CommitUpdate(c) => CommitUpdateKeepsInv(fm, start, s, c, s');
    case CommitDelete(c) => CommitDeleteKeepsInv(fm, start, s, c, s');
    case CommitTruncateType(_, _) => CommitTruncateKeepsInv(fm, start, s, step, s');
    case CommitTruncateDatabase(_) => CommitTruncateKeepsInv(fm, start, s, step, s');
    case _ => CheckKeepsInv(fm, start, s, step, s');
  }

  /**
   * Every interleaving keeps the indexes exact, and is equivalent to performing its committed calls
   * one after another in commit order, where each of them succeeds.
   */
  lemma {:induction false} InterleavingsAreSequential(fm: Formats, states: seq<State>, steps: seq<Step>, n: nat)
    requires IsRun(fm, states, steps) && n < |states|
    ensures Valid(fm, states[n].db)
    ensures View(states[n].db) == Sequential(fm, View(states[0].db), states[n].history)
    ensures AllSucceed(fm, View(states[0].db), states[n].history)
    ensures Inv(fm, View(states[0].db), states[n])
  {
    if n == 0 {
    } else {
      InterleavingsAreSequential(fm, states, steps, n - 1);
      StepKeepsInv(fm, View(states[0].db), states[n - 1], steps[n - 1], states[n]);
    }
  }

  // ---------- two inserts of one id ----------

  predicate Removes(op: Op, typ: string, id: string) {
    (op.OpDelete? && op.typ == typ && op.id == id) || (op.OpTruncateType? && op.typ == typ) || op.OpTruncateDatabase?
  }

  lemma PerformKeepsWellFormed(fm: Formats, t: Table, op: Op, now: int)
    requires WellFormed(t) && !op.OpRegister?
    ensures WellFormed(Perform(fm, t, op, now).0)
  {
    if op.OpInsert? && InsertError(fm, t, op.typ, op.id, Stamped(op.data, now)).None? {
      ValidIdNonEmpty(t.definitions[op.typ].idGenerator, op.id);
    }
  }

  lemma LiveUnlessRemoved(fm: Formats, t: Table, op: Op, now: int, typ: string, id: string)
    requires WellFormed(t) && NoColon(typ) && !op.OpRegister?
    requires CreateKey(typ, id) in t.entities && !Removes(op, typ, id)
    ensures CreateKey(typ, id) in Perform(fm, t, op, now).0.entities
  {
    var e := t.entities[CreateKey(typ, id)];
    KeyInjective(typ, id, e.typ, e.id);
  }

  predicate NoRegistrations(history: seq<Commit>) {
    forall i :: 0 <= i < |history| ==> !history[i].op.OpRegister?
  }

  lemma {:induction false} SequentialWellFormed(fm: Formats, t: Table, history: seq<Commit>)
    requires WellFormed(t) && NoRegistrations(history)
    ensures WellFormed(Sequential(fm, t, history))
  {
    if history == [] {
    } else {
      var front, last := history[..|history| - 1], history[|history| - 1];
      SequentialWellFormed(fm, t, front);
      assert history == front + [last];
      SequentialStep(fm, t, front, last);
      PerformKeepsWellFormed(fm, Sequential(fm, t, front), last.op, last.now);
    }
  }

  lemma InsertNeedsAbsence(fm: Formats, t: Table, op: Op, now: int)
    requires WellFormed(t) && op.OpInsert? && Perform(fm, t, op, now).1 == Done
    ensures NoColon(op.typ) && CreateKey(op.typ, op.id) !in t.entities
    ensures CreateKey(op.typ, op.id) in Perform(fm, t, op, now).0.entities
  {
    assert InsertError(fm, t, op.typ, op.id, Stamped(op.data, now)).None?;
  }

  /** An entity committed at i stays live up to j if nothing in between removes it. */
  lemma {:induction false} StaysLive(fm: Formats, t: Table, history: seq<Commit>, i: nat, j: nat, typ: string,
      id: string)
    requires WellFormed(t) && NoRegistrations(history) && i < j <= |history|
    requires history[i].op.OpInsert? && history[i].op.typ == typ && history[i].op.id == id
    requires Perform(fm, Sequential(fm, t, history[..i]), history[i].op, history[i].now).1 == Done
    requires forall k :: i < k < j ==> !Removes(history[k].op, typ, id)
    ensures NoColon(typ) && CreateKey(typ, id) in Sequential(fm, t, history[..j]).entities
  {
    var before, commit := Sequential(fm, t, history[..j - 1]), history[j - 1];
    SequentialWellFormed(fm, t, history[..j - 1]);
    assert history[..j] == history[..j - 1] + [commit];
    SequentialStep(fm, t, history[..j - 1], commit);
    if i == j - 1 {
      InsertNeedsAbsence(fm, before, commit.op, commit.now);
    } else {
      StaysLive(fm, t, history, i, j - 1, typ, id);
      LiveUnlessRemoved(fm, before, commit.op, commit.now, typ, id);
    }
  }

  lemma {:induction false} HistoryHasNoRegistrations(fm: Formats, states: seq<State>, steps: seq<Step>, n: nat)
    requires IsRun(fm, states, steps) && n < |states|
    ensures NoRegistrations(states[n].history)
  {
    if n == 0 {
    } else {
      HistoryHasNoRegistrations(fm, states, steps, n - 1);
      assert Next(fm, states[n - 1], steps[n - 1], states[n]);
    }
  }

  /**
   * In every interleaving, of two inserts that both succeed on one (type, id), something removed the first in between.
   */
  lemma InsertsExclude(fm: Formats, states: seq<State>, steps: seq<Step>, n: nat, i: nat, j: nat)
    requires IsRun(fm, states, steps) && n < |states| && i < j < |states[n].history|
    requires var h := states[n].history;
             h[i].op.OpInsert? && h[j].op.OpInsert? && h[i].op.typ == h[j].op.typ && h[i].op.id == h[j].op.id
    ensures var h := states[n].history; exists k :: i < k < j && Removes(h[k].op, h[i].op.typ, h[i].op.id)
  {
    var start, h := View(states[0].db), states[n].history;
    InterleavingsAreSequential(fm, states, steps, n);
    HistoryHasNoRegistrations(fm, states, steps, n);
    SequentialWellFormed(fm, start, h[..j]);
    InsertNeedsAbsence(fm, Sequential(fm, start, h[..j]), h[j].op, h[j].now);
    if forall k :: i < k < j ==> !Removes(h[k].op, h[i].op.typ, h[i].op.id) {
      StaysLive(fm, start, h, i, j, h[i].op.typ, h[i].op.id);
    }
  }
}
