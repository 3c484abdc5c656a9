/**
 * Calls of many clients commit under the lock and write their log entries after it, so the log can tell another story
 * than the store: when exactly a crash still recovers the store.
 */
module LogRaces {
  import opened Common
  import opened Keys
  import opened IdFormats
  import opened Validation
  import opened Store
  import opened Agreement
  import opened Tables
  import opened Journals
  import opened Commits
  import opened Interleaving
  import opened Recovery
  import opened ReplayIdempotence

  // ---------- the engine with its log ----------

  /**
   * The clients and the store, the committed calls that are to be logged, which of them each client has still to write,
   * which have been written in what order, and what was written. Client and log refer to a call by its place in calls.
   */
  datatype Machine = Machine(s: State, calls: seq<Commit>, pending: map<nat, nat>, written: seq<nat>, log: seq<Op>)

  datatype Move = Acts(step: Step) | Logs(c: nat)

  predicate RemovedSince(calls: seq<Commit>, i: nat)
    requires i < |calls| && calls[i].op.OpInsert?
  {
    exists k :: i < k < |calls| && Removes(calls[k].op, calls[i].op.typ, calls[i].op.id)
  }

  /** The map of fields an insert has stored. Updates change it in place until the entity is removed. */
  function FieldsNow(calls: seq<Commit>, i: nat): Fields
    requires i < |calls| && calls[i].op.OpInsert?
  {
    var n := |calls| - 1;
    if n == i then Stamped(calls[i].op.data, calls[i].now)
    else
      var op, before := calls[n].op, calls[..n];
      if op.OpUpdate? && op.typ == calls[i].op.typ && op.id == calls[i].op.id && !RemovedSince(before, i)
      then FieldsNow(before, i) + Restamped(op.data, calls[n].now)
      else FieldsNow(before, i)
  }

  /** What the log gets for call i if it is written now. */
  function EntryNow(calls: seq<Commit>, i: nat): Op
    requires i < |calls|
  {
    if calls[i].op.OpInsert? then OpInsert(calls[i].op.typ, calls[i].op.id, FieldsNow(calls, i))
    else EntryFor(calls[i].op, calls[i].now)
  }

  /** After a step of client c: a call it has committed is to be logged unless it was a truncate that found nothing. */
  function Stepped(fm: Formats, m: Machine, c: nat, s': State): Machine {
    if |s'.history| <= |m.s.history| then m.(s := s')
    else
      var commit := s'.history[|s'.history| - 1];
      if Writes(fm, View(m.s.db), commit.op, commit.now)
      then m.(s := s', calls := m.calls + [commit], pending := m.pending[c := |m.calls|])
      else m.(s := s')
  }

  /** Between its commit and its log write a client does nothing else. */
  ghost predicate Moves(fm: Formats, m: Machine, move: Move, m': Machine) {
    match move
    case Acts(step) => step.c !in m.pending && Next(fm, m.s, step, m'.s) && m' == Stepped(fm, m, step.c, m'.s)
    case Logs(c) =>
      && c in m.pending && m.pending[c] < |m.calls|
      && m' == Machine(m.s, m.calls, m.pending - {c}, m.written + [m.pending[c]],
          m.log + [EntryNow(m.calls, m.pending[c])])
  }

  /** A run from a store without entities, under definitions without unique fields. */
  ghost predicate IsLoggedRun(fm: Formats, ms: seq<Machine>, moves: seq<Move>) {
    && |ms| == |moves| + 1
    && ms[0] == Machine(State(ms[0].s.db, map[], []), [], map[], [], [])
    && Valid(fm, ms[0].s.db) && Ready(View(ms[0].s.db)) && ms[0].s.db.entities == map[]
    && forall i :: 0 <= i < |moves| ==> Moves(fm, ms[i], moves[i], ms[i + 1])
  }

  /** The entries, had each call written its own at its commit. */
  function CommitOrder(calls: seq<Commit>): seq<Op> { LoggedOps(Ops(calls), Nows(calls)) }

  /** Ids without colons, and no insert of an id that is live, under whatever type. */
  ghost predicate Plain(fm: Formats, start: Table, calls: seq<Commit>) {
    forall i :: 0 <= i < |calls| ==> OpOk(calls[i].op) && (calls[i].op.OpInsert? ==>
      !GetFinds(Sequential(fm, start, calls[..i]).entities.Keys, calls[i].op.id))
  }

  // ---------- what every run keeps ----------

  ghost predicate AllWrite(fm: Formats, start: Table, calls: seq<Commit>) {
    forall i :: 0 <= i < |calls| ==>
      !calls[i].op.OpRegister? && Writes(fm, Sequential(fm, start, calls[..i]), calls[i].op, calls[i].now)
  }

  /** Every call is written once or waits with one client. */
  ghost predicate Bookkept(m: Machine) {
    && |m.log| == |m.written| && Distinct(m.written) && InRange(m.written, |m.calls|)
    && (forall c :: c in m.pending ==> m.pending[c] < |m.calls| && m.pending[c] !in m.written)
    && (forall c1, c2 :: c1 in m.pending && c2 in m.pending && m.pending[c1] == m.pending[c2] ==> c1 == c2)
    && forall i: nat :: i < |m.calls| ==> WrittenOrWaits(m, i)
  }

  predicate InRange(order: seq<nat>, n: nat) { forall p :: 0 <= p < |order| ==> order[p] < n }

  ghost predicate WrittenOrWaits(m: Machine, i: nat) {
    i in m.written || exists c :: c in m.pending && m.pending[c] == i
  }

  /** The entry was, at some moment after the commit, what the call had to write. */
  ghost predicate WrittenAt(m: Machine, p: nat)
    requires p < |m.log| && |m.log| == |m.written|
  {
    exists k :: m.written[p] < k <= |m.calls| && m.log[p] == EntryNow(m.calls[..k], m.written[p])
  }

  ghost predicate AllWritten(m: Machine)
    requires |m.log| == |m.written|
  {
    forall p :: 0 <= p < |m.log| ==> WrittenAt(m, p)
  }

  ghost predicate LoggedInv(fm: Formats, start: Table, m: Machine) {
    && Inv(fm, start, m.s) && View(m.s.db) == Sequential(fm, start, m.calls)
    && AllWrite(fm, start, m.calls) && Bookkept(m) && AllWritten(m)
  }

  lemma HistoryGrows(fm: Formats, s: State, step: Step, s': State)
    requires Next(fm, s, step, s')
    ensures s'.history == s.history
            || (|s'.history| == |s.history| + 1 && s'.history[..|s.history|] == s.history
                && !s'.history[|s.history|].op.OpRegister?)
  {
  }

  /** The store has not changed, or as the last call of the history changes it alone. */
  ghost predicate Performed(fm: Formats, s: State, s': State) {
    if |s'.history| <= |s.history| then View(s'.db) == View(s.db)
    else
      var commit := s'.history[|s'.history| - 1];
      !commit.op.OpRegister? && Perform(fm, View(s.db), commit.op, commit.now) == (View(s'.db), Done)
  }

  lemma StepPerforms(fm: Formats, start: Table, s: State, step: Step, s': State)
    requires Inv(fm, start, s) && Next(fm, s, step, s')
    ensures Inv(fm, start, s') && Performed(fm, s, s')
  {
    StepKeepsInv(fm, start, s, step, s');
    HistoryGrows(fm, s, step, s');
    if |s'.history| > |s.history| {
      var commit := s'.history[|s.history|];
      assert s'.history == s.history + [commit];
      SequentialStep(fm, start, s.history, commit);
    }
  }

  lemma UnloggedChangesNothing(fm: Formats, t: Table, op: Op, now: int)
    requires Perform(fm, t, op, now).1 == Done && !Writes(fm, t, op, now)
    ensures Perform(fm, t, op, now).0 == t
  {
    if op.OpTruncateType? {
      assert forall key :: key in t.entities ==> !OfType(t.entities, key, op.typ);
      assert TruncateType(t, op.typ).0.entities == t.entities;
    }
  }

  lemma OneMoreWrites(fm: Formats, start: Table, calls: seq<Commit>, commit: Commit)
    requires AllWrite(fm, start, calls) && !commit.op.OpRegister?
    requires Writes(fm, Sequential(fm, start, calls), commit.op, commit.now)
    ensures AllWrite(fm, start, calls + [commit])
  {
    var more := calls + [commit];
    forall i | 0 <= i < |more|
      ensures !more[i].op.OpRegister? && Writes(fm, Sequential(fm, start, more[..i]), more[i].op, more[i].now)
    {
      assert more[..i] == if i < |calls| then calls[..i] else calls;
    }
  }

  lemma WrittenStays(m: Machine, m': Machine, p: nat)
    requires p < |m.log| && |m.log| == |m.written| && WrittenAt(m, p)
    requires m.log <= m'.log && m.written <= m'.written && |m'.log| == |m'.written| && m.calls <= m'.calls
    ensures WrittenAt(m', p)
  {
    var k :| m.written[p] < k <= |m.calls| && m.log[p] == EntryNow(m.calls[..k], m.written[p]);
    assert m'.calls[..k] == m.calls[..k];
  }

  lemma CommitKeepsBooks(m: Machine, c: nat, s': State, commit: Commit)
    requires Bookkept(m) && c !in m.pending
    ensures Bookkept(m.(s := s', calls := m.calls + [commit], pending := m.pending[c := |m.calls|]))
  {
    var m' := m.(s := s', calls := m.calls + [commit], pending := m.pending[c := |m.calls|]);
    assert |m.calls| !in m.written;
    forall i: nat | i < |m'.calls| ensures WrittenOrWaits(m', i) {
      if i == |m.calls| {
        assert c in m'.pending && m'.pending[c] == i;
      } else {
        assert WrittenOrWaits(m, i);
        if i !in m.written {
          var d :| d in m.pending && m.pending[d] == i;
          assert d in m'.pending && m'.pending[d] == i;
        }
      }
    }
  }

  lemma LogKeepsBooks(fm: Formats, m: Machine, c: nat, m': Machine)
    requires Bookkept(m) && Moves(fm, m, Logs(c), m')
    ensures Bookkept(m')
  {
    assert forall q :: 0 <= q < |m.written| ==> m'.written[q] == m.written[q] && m.written[q] in m.written;
    assert m'.written[|m.written|] == m.pending[c];
    forall j: nat | j < |m'.calls| ensures WrittenOrWaits(m', j) {
      assert WrittenOrWaits(m, j);
      if j !in m'.written {
        assert j !in m.written && j != m.pending[c];
        var d :| d in m.pending && m.pending[d] == j;
        assert d in m'.pending && m'.pending[d] == j;
      }
    }
  }

  lemma AllWrittenStay(m: Machine, m': Machine)
    requires |m.log| == |m.written| && AllWritten(m) && m.calls <= m'.calls
    requires m'.log == m.log && m'.written == m.written
    ensures AllWritten(m')
  {
    forall p | 0 <= p < |m'.log| ensures WrittenAt(m', p) { WrittenStays(m, m', p); }
  }

  lemma LogKeepsWritten(fm: Formats, m: Machine, c: nat, m': Machine)
    requires |m.log| == |m.written| && AllWritten(m) && Moves(fm, m, Logs(c), m')
    ensures AllWritten(m')
  {
    forall p | 0 <= p < |m'.log| ensures WrittenAt(m', p) {
      if p < |m.log| { WrittenStays(m, m', p); } else { assert m.calls[..|m.calls|] == m.calls; }
    }
  }

  /** A step that leaves nothing to be logged. */
  lemma UnloggedKeepsInv(fm: Formats, start: Table, m: Machine, s': State)
    requires LoggedInv(fm, start, m) && Inv(fm, start, s') && View(s'.db) == View(m.s.db)
    ensures LoggedInv(fm, start, m.(s := s'))
  {
    forall i: nat | i < |m.calls| ensures WrittenOrWaits(m.(s := s'), i) { assert WrittenOrWaits(m, i); }
    AllWrittenStay(m, m.(s := s'));
  }

  lemma LoggedKeepsInv(fm: Formats, start: Table, m: Machine, c: nat, s': State, commit: Commit)
    requires LoggedInv(fm, start, m) && Inv(fm, start, s') && c !in m.pending && !commit.op.OpRegister?
    requires Writes(fm, View(m.s.db), commit.op, commit.now)
    requires Perform(fm, View(m.s.db), commit.op, commit.now).0 == View(s'.db)
    ensures LoggedInv(fm, start, m.(s := s', calls := m.calls + [commit], pending := m.pending[c := |m.calls|]))
  {
    var m' := m.(s := s', calls := m.calls + [commit], pending := m.pending[c := |m.calls|]);
    CommitKeepsBooks(m, c, s', commit);
    AllWrittenStay(m, m');
    OneMoreWrites(fm, start, m.calls, commit);
    SequentialStep(fm, start, m.calls, commit);
  }

  /** A step leaves nothing to be logged, or one more call. */
  lemma SteppedIs(fm: Formats, m: Machine, c: nat, s': State)
    requires Performed(fm, m.s, s')
    ensures var m' := Stepped(fm, m, c, s');
            if |s'.history| <= |m.s.history| then m' == m.(s := s')
            else
              var commit := s'.history[|s'.history| - 1];
              if Writes(fm, View(m.s.db), commit.op, commit.now)
              then m' == m.(s := s', calls := m.calls + [commit], pending := m.pending[c := |m.calls|])
              else m' == m.(s := s') && View(s'.db) == View(m.s.db)
  {
    if |s'.history| > |m.s.history| {
      var commit := s'.history[|s'.history| - 1];
      if !Writes(fm, View(m.s.db), commit.op, commit.now) {
        UnloggedChangesNothing(fm, View(m.s.db), commit.op, commit.now);
      }
    }
  }

  lemma SteppedKeepsInv(fm: Formats, start: Table, m: Machine, c: nat, s': State)
    requires LoggedInv(fm, start, m) && Inv(fm, start, s') && c !in m.pending && Performed(fm, m.s, s')
    ensures LoggedInv(fm, start, Stepped(fm, m, c, s'))
  {
    SteppedIs(fm, m, c, s');
    if Stepped(fm, m, c, s') == m.(s := s') && View(s'.db) == View(m.s.db) {
      UnloggedKeepsInv(fm, start, m, s');
    } else {
      LoggedKeepsInv(fm, start, m, c, s', s'.history[|s'.history| - 1]);
    }
  }

  /** Every move of every client keeps the invariant. */
  lemma MoveKeepsLoggedInv(fm: Formats, start: Table, m: Machine, move: Move, m': Machine)
    requires LoggedInv(fm, start, m) && Moves(fm, m, move, m')
    ensures LoggedInv(fm, start, m')
  {
    match move
    case Acts(step) =>
      StepPerforms(fm, start, m.s, step, m'.s);
      SteppedKeepsInv(fm, start, m, step.c, m'.s);
    case Logs(c) =>
      LogKeepsBooks(fm, m, c, m');
      LogKeepsWritten(fm, m, c, m');
  }

  lemma {:induction false} LoggedRunKeepsInv(fm: Formats, ms: seq<Machine>, moves: seq<Move>, n: nat)
    requires IsLoggedRun(fm, ms, moves) && n < |ms|
    ensures LoggedInv(fm, View(ms[0].s.db), ms[n])
  {
    if n == 0 {
    } else {
      LoggedRunKeepsInv(fm, ms, moves, n - 1);
      assert Moves(fm, ms[n - 1], moves[n - 1], ms[n]);
      MoveKeepsLoggedInv(fm, View(ms[0].s.db), ms[n - 1], moves[n - 1], ms[n]);
    }
  }

  // ---------- when a crash recovers the store ----------

  lemma PlainIsHistory(fm: Formats, start: Table, calls: seq<Commit>)
    requires AllWrite(fm, start, calls) && Plain(fm, start, calls)
    ensures History(fm, start, Ops(calls), Nows(calls))
  {
    forall i | 0 <= i < |calls|
      ensures Recordable(fm, After(fm, start, Ops(calls)[..i], Nows(calls)[..i]), calls[i].op, calls[i].now)
    {
      SequentialFront(fm, start, calls, i);
      PlainAt(fm, start, calls, i);
    }
  }

  lemma SequentialFront(fm: Formats, start: Table, calls: seq<Commit>, i: nat)
    requires i <= |calls|
    ensures After(fm, start, Ops(calls)[..i], Nows(calls)[..i]) == Sequential(fm, start, calls[..i])
  {
    assert Ops(calls[..i]) == Ops(calls)[..i] && Nows(calls[..i]) == Nows(calls)[..i];
  }

  lemma PlainAt(fm: Formats, start: Table, calls: seq<Commit>, i: nat)
    requires AllWrite(fm, start, calls) && Plain(fm, start, calls) && i < |calls|
    ensures Recordable(fm, Sequential(fm, start, calls[..i]), calls[i].op, calls[i].now)
  {
  }

  predicate EntryAccepted(fm: Formats, definitions: Definitions, commit: Commit) {
    Accepted(fm, definitions, EntryFor(commit.op, commit.now))
  }

  predicate EntriesAccepted(fm: Formats, definitions: Definitions, calls: seq<Commit>) {
    forall j :: 0 <= j < |calls| ==> EntryAccepted(fm, definitions, calls[j])
  }

  /** An insert, perhaps with the changes of an accepted update in it, is still accepted. */
  lemma EntryStaysAccepted(fm: Formats, definitions: Definitions, insert: Op, update: Op, later: Op)
    requires Accepted(fm, definitions, insert) && Accepted(fm, definitions, update) && Extends(insert, update, later)
    ensures Accepted(fm, definitions, later)
  {
    if later != insert {
      UpdateKeepsDataOk(fm, definitions[insert.typ], insert.data, update.data);
    }
  }

  /** The later entry is the same insert, or has the changes of an update of its type in it. */
  predicate Extends(insert: Op, update: Op, later: Op) {
    && insert.OpInsert?
    && (later == insert
        || (update.OpUpdate? && update.typ == insert.typ
            && later == OpInsert(insert.typ, insert.id, insert.data + update.data)))
  }

  lemma EntryNowFirst(calls: seq<Commit>, i: nat)
    requires i < |calls| && (!calls[i].op.OpInsert? || i == |calls| - 1)
    ensures EntryNow(calls, i) == EntryFor(calls[i].op, calls[i].now)
  {
  }

  lemma EntryNowStep(calls: seq<Commit>, i: nat)
    requires i < |calls| - 1 && calls[i].op.OpInsert?
    ensures var n := |calls| - 1;
            Extends(EntryNow(calls[..n], i), EntryFor(calls[n].op, calls[n].now), EntryNow(calls, i))
  {
  }

  lemma {:induction false} EntryNowAccepted(fm: Formats, definitions: Definitions, calls: seq<Commit>, i: nat)
    requires i < |calls| && EntriesAccepted(fm, definitions, calls)
    ensures Accepted(fm, definitions, EntryNow(calls, i))
  {
    var n := |calls| - 1;
    if !calls[i].op.OpInsert? || n == i {
      EntryNowFirst(calls, i);
      assert EntryAccepted(fm, definitions, calls[i]);
    } else {
      EntryNowAccepted(fm, definitions, calls[..n], i);
      EntryNowStep(calls, i);
      assert EntryAccepted(fm, definitions, calls[n]);
      EntryStaysAccepted(fm, definitions, EntryNow(calls[..n], i), EntryFor(calls[n].op, calls[n].now),
          EntryNow(calls, i));
    }
  }

  lemma LogIsAccepted(fm: Formats, definitions: Definitions, m: Machine)
    requires Bookkept(m) && AllWritten(m) && LogAccepted(fm, definitions, CommitOrder(m.calls))
    ensures LogAccepted(fm, definitions, m.log)
  {
    forall j | 0 <= j < |m.calls| ensures EntryAccepted(fm, definitions, m.calls[j]) {
      assert Accepted(fm, definitions, CommitOrder(m.calls)[j]);
    }
    forall p | 0 <= p < |m.log| ensures Accepted(fm, definitions, m.log[p]) {
      assert WrittenAt(m, p);
      var k :| m.written[p] < k <= |m.calls| && m.log[p] == EntryNow(m.calls[..k], m.written[p]);
      EntryNowAccepted(fm, definitions, m.calls[..k], m.written[p]);
    }
  }

  /** What replaying the log makes of a bare id, and what the commits made of it. */
  ghost predicate FateKept(fm: Formats, definitions: Definitions, m: Machine, id: string) {
    Fates(fm, definitions, None, m.log, id) == Fates(fm, definitions, None, CommitOrder(m.calls), id)
  }

  lemma IdRecoversIff(fm: Formats, start: Table, m: Machine, moments: seq<Moment>, id: string)
    requires Ready(start) && start.entities == map[] && LoggedInv(fm, start, m) && Plain(fm, start, m.calls)
    requires |moments| == |m.log| && NoColon(id)
    ensures HeldBy(ReplayAll(fm, start, m.log, moments), id) == HeldBy(View(m.s.db), id)
            <==> FateKept(fm, start.definitions, m, id)
    ensures Ready(View(m.s.db)) && View(m.s.db).definitions == start.definitions
    ensures Ready(ReplayAll(fm, start, m.log, moments))
    ensures ReplayAll(fm, start, m.log, moments).definitions == start.definitions
  {
    PlainIsHistory(fm, start, m.calls);
    HistoryFates(fm, start, Ops(m.calls), Nows(m.calls));
    LogIsAccepted(fm, start.definitions, m);
    ReplayFates(fm, start, m.log, moments);
    assert FateTells(fm, View(m.s.db), CommitOrder(m.calls), id);
    assert HeldBy(start, id).None?;
  }

  /**
   * At every moment of every run, whatever has been written by then: a crash recovers the store if and only if every
   * bare id fares the same by the entries in the order they were written as by the commits in theirs.
   */
  lemma CrashRecoversIff(fm: Formats, ms: seq<Machine>, moves: seq<Move>, n: nat, moments: seq<Moment>)
    requires IsLoggedRun(fm, ms, moves) && n < |ms| && Plain(fm, View(ms[0].s.db), ms[n].calls)
    requires |moments| == |ms[n].log|
    ensures var start := View(ms[0].s.db);
            Same(ReplayAll(fm, start, ms[n].log, moments), View(ms[n].s.db))
            <==> forall id :: NoColon(id) ==> FateKept(fm, start.definitions, ms[n], id)
  {
    var start, m := View(ms[0].s.db), ms[n];
    LoggedRunKeepsInv(fm, ms, moves, n);
    forall id | NoColon(id)
      ensures HeldBy(ReplayAll(fm, start, m.log, moments), id) == HeldBy(View(m.s.db), id)
          <==> FateKept(fm, start.definitions, m, id)
    {
      IdRecoversIff(fm, start, m, moments, id);
    }
    IdRecoversIff(fm, start, m, moments, "");
    SameIff(ReplayAll(fm, start, m.log, moments), View(m.s.db));
  }

  // ---------- calls that take turns ----------

  predicate Concerns(op: Op, id: string) {
    match op
    case OpRegister(_) => false
    case OpTruncateType(_) => true
    case OpTruncateDatabase => true
    case _ => op.id == id
  }

  ghost predicate Conflict(a: Op, b: Op) { exists id :: Concerns(a, id) && Concerns(b, id) }

  /** No call commits while the entry of another that concerns the same bare id is still to be written. */
  ghost predicate TakesTurns(ms: seq<Machine>, n: nat)
    requires n < |ms|
  {
    forall i :: 0 <= i < n && |ms[i + 1].calls| > |ms[i].calls| ==>
      NothingPending(ms[i], ms[i + 1].calls[|ms[i + 1].calls| - 1].op)
  }

  ghost predicate NothingPending(m: Machine, op: Op) {
    forall c :: c in m.pending && m.pending[c] < |m.calls| ==> !Conflict(m.calls[m.pending[c]].op, op)
  }

  /** Entries of order that meet keep the order they have. */
  ghost predicate OrderKept(calls: seq<Commit>, order: seq<nat>) {
    && Distinct(order) && InRange(order, |calls|)
    && forall p, q {:trigger PairKept(calls, order, p, q)} :: 0 <= p < q < |order| ==> PairKept(calls, order, p, q)
  }

  ghost predicate PairKept(calls: seq<Commit>, order: seq<nat>, p: nat, q: nat)
    requires p < |order| && q < |order| && InRange(order, |calls|)
  {
    Conflict(calls[order[p]].op, calls[order[q]].op) ==> order[p] < order[q]
  }

  /** Nothing that concerns the same bare id has committed since call i. */
  ghost predicate Undisturbed(calls: seq<Commit>, i: nat)
    requires i < |calls|
  {
    forall j :: i < j < |calls| ==> !Conflict(calls[i].op, calls[j].op)
  }

  /** Entries that concern the same bare id are written in the order of their commits, and as of their commits. */
  ghost predicate InTurn(m: Machine)
    requires Bookkept(m)
  {
    && OrderKept(m.calls, m.written)
    && (forall c :: c in m.pending ==> Undisturbed(m.calls, m.pending[c]))
    && m.log == Picked(m.calls, m.written)
  }

  /** The entries of the calls, taken in the given order. */
  function Picked(calls: seq<Commit>, order: seq<nat>): seq<Op>
    requires InRange(order, |calls|)
  {
    seq(|order|, p requires 0 <= p < |order| && InRange(order, |calls|) => CommitOrder(calls)[order[p]])
  }

  lemma CommitOrderFront(calls: seq<Commit>, front: seq<Commit>)
    requires front <= calls
    ensures CommitOrder(calls)[..|front|] == CommitOrder(front)
    ensures forall i :: 0 <= i < |front| ==> CommitOrder(calls)[i] == CommitOrder(front)[i]
  {
    forall i | 0 <= i < |front| ensures CommitOrder(calls)[i] == CommitOrder(front)[i] {
      assert calls[i] == front[i];
    }
  }

  lemma {:induction false} UndisturbedEntry(calls: seq<Commit>, i: nat)
    requires i < |calls| && Undisturbed(calls, i)
    ensures EntryNow(calls, i) == CommitOrder(calls)[i]
  {
    var n := |calls| - 1;
    if !calls[i].op.OpInsert? || n == i {
    } else {
      UndisturbedEntry(calls[..n], i);
      if calls[n].op.OpUpdate? && calls[n].op.id == calls[i].op.id {
        assert Concerns(calls[n].op, calls[i].op.id) && Concerns(calls[i].op, calls[i].op.id);
        assert Conflict(calls[i].op, calls[n].op);
      }
    }
  }

  lemma CommitKeepsTurns(m: Machine, m': Machine, c: nat, commit: Commit)
    requires Bookkept(m) && Bookkept(m') && InTurn(m) && NothingPending(m, commit.op) && c !in m.pending
    requires m'.calls == m.calls + [commit] && m'.pending == m.pending[c := |m.calls|]
        && m'.written == m.written && m'.log == m.log
    ensures InTurn(m')
  {
    forall p, q | 0 <= p < q < |m'.written| ensures PairKept(m'.calls, m'.written, p, q) {
      assert PairKept(m.calls, m.written, p, q);
    }
    forall d | d in m'.pending ensures Undisturbed(m'.calls, m'.pending[d]) {
      if d != c { assert Undisturbed(m.calls, m.pending[d]); }
    }
    CommitOrderFront(m'.calls, m.calls);
    assert Picked(m'.calls, m.written) == Picked(m.calls, m.written);
  }

  lemma LogKeepsTurns(fm: Formats, m: Machine, c: nat, m': Machine)
    requires Bookkept(m) && Bookkept(m') && InTurn(m) && Moves(fm, m, Logs(c), m')
    ensures InTurn(m')
  {
    var i := m.pending[c];
    UndisturbedEntry(m.calls, i);
    forall p, q | 0 <= p < q < |m'.written| ensures PairKept(m'.calls, m'.written, p, q) {
      if q < |m.written| {
        assert PairKept(m.calls, m.written, p, q);
      } else {
        assert m.written[p] in m.written;
        ConflictIsMutual(m.calls[m.written[p]].op, m.calls[i].op);
      }
    }
  }

  lemma ConflictIsMutual(a: Op, b: Op)
    ensures Conflict(a, b) == Conflict(b, a)
  {
  }

  lemma MoveKeepsTurns(fm: Formats, m: Machine, move: Move, m': Machine)
    requires Bookkept(m) && Bookkept(m') && InTurn(m) && Moves(fm, m, move, m')
    requires |m'.calls| > |m.calls| ==> NothingPending(m, m'.calls[|m'.calls| - 1].op)
    ensures InTurn(m')
  {
    match move
    case Logs(c) => LogKeepsTurns(fm, m, c, m');
    case Acts(step) =>
      if |m'.calls| > |m.calls| { CommitKeepsTurns(m, m', step.c, m'.calls[|m'.calls| - 1]); }
  }

  lemma {:induction false} TurnsKeepOrder(fm: Formats, ms: seq<Machine>, moves: seq<Move>, n: nat)
    requires IsLoggedRun(fm, ms, moves) && n < |ms| && TakesTurns(ms, n)
    ensures Bookkept(ms[n]) && InTurn(ms[n])
  {
    LoggedRunKeepsInv(fm, ms, moves, n);
    if n == 0 {
    } else {
      TurnsKeepOrder(fm, ms, moves, n - 1);
      assert Moves(fm, ms[n - 1], moves[n - 1], ms[n - 1 + 1]);
      MoveKeepsTurns(fm, ms[n - 1], moves[n - 1], ms[n]);
    }
  }

  // ---------- the order of entries that do not meet ----------

  lemma {:induction false} FatesSkip(fm: Formats, definitions: Definitions, cur: Option<Held>, ops: seq<Op>, id: string)
    requires forall i :: 0 <= i < |ops| ==> !Concerns(ops[i], id)
    ensures Fates(fm, definitions, cur, ops, id) == cur
  {
    if ops == [] {
    } else {
      FatesSkip(fm, definitions, cur, ops[..|ops| - 1], id);
    }
  }

  lemma {:induction false} FatesAppend(fm: Formats, definitions: Definitions, cur: Option<Held>, a: seq<Op>,
      b: seq<Op>, id: string)
    ensures Fates(fm, definitions, cur, a + b, id) == Fates(fm, definitions, Fates(fm, definitions, cur, a, id), b, id)
  {
    if b == [] {
      assert a + b == a;
    } else {
      var n := |b| - 1;
      FatesAppend(fm, definitions, cur, a, b[..n], id);
      assert (a + b)[..|a + b| - 1] == a + b[..n];
    }
  }

  /** An operation can wait for others if it or they do not concern the id. */
  lemma FatesMoveLast(fm: Formats, definitions: Definitions, a: seq<Op>, op: Op, b: seq<Op>, id: string)
    requires !Concerns(op, id) || forall i :: 0 <= i < |b| ==> !Concerns(b[i], id)
    ensures Fates(fm, definitions, None, a + [op] + b, id)
            == Fate(fm, definitions, Fates(fm, definitions, None, a + b, id), op, id)
  {
    var before := Fates(fm, definitions, None, a, id);
    FatesAppend(fm, definitions, None, a, b, id);
    FatesAppend(fm, definitions, None, a + [op], b, id);
    assert (a + [op])[..|a|] == a;
    if Concerns(op, id) {
      FatesSkip(fm, definitions, before, b, id);
      FatesSkip(fm, definitions, Fate(fm, definitions, before, op, id), b, id);
    }
  }

  function LeftOut(order: seq<nat>, p: nat): seq<nat>
    requires p < |order|
  {
    order[..p] + order[p + 1..]
  }

  lemma LeftOutKept(calls: seq<Commit>, order: seq<nat>, p: nat)
    requires OrderKept(calls, order) && p < |order| && order[p] == |calls| - 1
    ensures OrderKept(calls[..|calls| - 1], LeftOut(order, p))
  {
    var n, rest := |calls| - 1, LeftOut(order, p);
    assert forall q :: 0 <= q < |rest| ==> rest[q] == order[if q < p then q else q + 1];
    assert InRange(rest, n);
    forall q, r | 0 <= q < r < |rest| ensures PairKept(calls[..n], rest, q, r) {
      assert PairKept(calls, order, if q < p then q else q + 1, if r < p then r else r + 1);
    }
  }

  lemma PickedAround(calls: seq<Commit>, order: seq<nat>, p: nat)
    requires OrderKept(calls, order) && p < |order| && order[p] == |calls| - 1
    ensures var n := |calls| - 1;
            && InRange(order[..p], n) && InRange(order[p + 1..], n) && InRange(LeftOut(order, p), n)
            && Picked(calls, order)
               == Picked(calls[..n], order[..p]) + [CommitOrder(calls)[n]] + Picked(calls[..n], order[p + 1..])
            && Picked(calls[..n], LeftOut(order, p))
               == Picked(calls[..n], order[..p]) + Picked(calls[..n], order[p + 1..])
  {
    LeftOutKept(calls, order, p);
    var n := |calls| - 1;
    assert order[..p] == LeftOut(order, p)[..p] && order[p + 1..] == LeftOut(order, p)[p..];
    CommitOrderFront(calls, calls[..n]);
  }

  /** What comes after the last call in the order does not meet it. */
  lemma RestDoesNotMeet(calls: seq<Commit>, order: seq<nat>, p: nat, id: string)
    requires OrderKept(calls, order) && p < |order| && order[p] == |calls| - 1
    requires Concerns(calls[order[p]].op, id) && InRange(order[p + 1..], |calls| - 1)
    ensures var rest := Picked(calls[..|calls| - 1], order[p + 1..]);
            forall q :: 0 <= q < |rest| ==> !Concerns(rest[q], id)
  {
    var rest := Picked(calls[..|calls| - 1], order[p + 1..]);
    forall q | 0 <= q < |rest| ensures !Concerns(rest[q], id) {
      var i := order[p + 1 + q];
      assert order[p + 1..][q] == i && PairKept(calls, order, p, p + 1 + q);
      assert i == order[p + 1..][q] && i < |calls| - 1;
      assert rest[q] == CommitOrder(calls[..|calls| - 1])[i];
      assert !Conflict(calls[order[p]].op, calls[order[p + 1 + q]].op);
    }
  }

  /** The last call can be taken out of the order and put at its end. */
  lemma FatesTakeLast(fm: Formats, definitions: Definitions, calls: seq<Commit>, order: seq<nat>, p: nat, id: string)
    requires OrderKept(calls, order) && p < |order| && order[p] == |calls| - 1
    ensures InRange(LeftOut(order, p), |calls| - 1)
    ensures Fates(fm, definitions, None, Picked(calls, order), id)
            == Fate(fm, definitions, Fates(fm, definitions, None, Picked(calls[..|calls| - 1], LeftOut(order, p)), id),
                 CommitOrder(calls)[|calls| - 1], id)
  {
    var n := |calls| - 1;
    PickedAround(calls, order, p);
    if Concerns(calls[n].op, id) { RestDoesNotMeet(calls, order, p, id); }
    FatesMoveLast(fm, definitions, Picked(calls[..n], order[..p]), CommitOrder(calls)[n],
        Picked(calls[..n], order[p + 1..]), id);
  }

  /** Whoever is not in the order does not concern the id. */
  predicate OthersElsewhere(calls: seq<Commit>, order: seq<nat>, id: string) {
    forall i: nat :: i < |calls| && i !in order ==> !Concerns(calls[i].op, id)
  }

  lemma NothingInRange(order: seq<nat>)
    ensures InRange(order, 0) ==> order == []
  {
    if order != [] { assert order[0] >= 0; }
  }

  /** Writing the entries in another order makes no difference to an id if those that meet keep theirs. */
  lemma {:induction false} FatesInOrder(fm: Formats, definitions: Definitions, calls: seq<Commit>, order: seq<nat>,
      id: string)
    requires OrderKept(calls, order) && OthersElsewhere(calls, order, id)
    ensures Fates(fm, definitions, None, Picked(calls, order), id)
            == Fates(fm, definitions, None, CommitOrder(calls), id)
  {
    if calls == [] {
      NothingInRange(order);
      assert Picked(calls, order) == CommitOrder(calls);
    } else {
      var n := |calls| - 1;
      CommitOrderFront(calls, calls[..n]);
      FatesStep(fm, definitions, None, CommitOrder(calls), id);
      if p :| 0 <= p < |order| && order[p] == n {
        LeftOutKept(calls, order, p);
        MissingWithout(calls, order, p, id);
        FatesInOrder(fm, definitions, calls[..n], LeftOut(order, p), id);
        FatesTakeLast(fm, definitions, calls, order, p, id);
      } else {
        LastMissing(calls, order);
        FatesInOrder(fm, definitions, calls[..n], order, id);
      }
    }
  }

  lemma MissingWithout(calls: seq<Commit>, order: seq<nat>, p: nat, id: string)
    requires p < |order| && order[p] == |calls| - 1 && OthersElsewhere(calls, order, id)
    ensures OthersElsewhere(calls[..|calls| - 1], LeftOut(order, p), id)
  {
    forall i: nat | i in order && i != order[p] ensures i in LeftOut(order, p) {
      var q :| 0 <= q < |order| && order[q] == i;
      assert LeftOut(order, p)[if q < p then q else q - 1] == i;
    }
  }

  lemma LastMissing(calls: seq<Commit>, order: seq<nat>)
    requires calls != [] && OrderKept(calls, order)
    requires forall p :: 0 <= p < |order| ==> order[p] != |calls| - 1
    ensures OrderKept(calls[..|calls| - 1], order) && Picked(calls[..|calls| - 1], order) == Picked(calls, order)
  {
    var n := |calls| - 1;
    CommitOrderFront(calls, calls[..n]);
    forall p, q | 0 <= p < q < |order| ensures PairKept(calls[..n], order, p, q) {
      assert PairKept(calls, order, p, q);
    }
  }

  /** The client has no entry to write that concerns the id. */
  predicate Settled(m: Machine, id: string) {
    forall c :: c in m.pending && m.pending[c] < |m.calls| ==> !Concerns(m.calls[m.pending[c]].op, id)
  }

  lemma SettledIsWritten(m: Machine, id: string)
    requires Bookkept(m) && Settled(m, id)
    ensures OthersElsewhere(m.calls, m.written, id)
  {
    forall i: nat | i < |m.calls| && i !in m.written ensures !Concerns(m.calls[i].op, id) {
      assert WrittenOrWaits(m, i);
    }
  }

  /**
   * If no two calls that concern one bare id overlap between commit and log write, a crash at any moment recovers what
   * the store holds under every bare id that no unwritten entry concerns.
   */
  lemma SettledIdsRecover(fm: Formats, ms: seq<Machine>, moves: seq<Move>, n: nat, moments: seq<Moment>, id: string)
    requires IsLoggedRun(fm, ms, moves) && n < |ms| && Plain(fm, View(ms[0].s.db), ms[n].calls)
    requires TakesTurns(ms, n) && |moments| == |ms[n].log| && NoColon(id) && Settled(ms[n], id)
    ensures FateKept(fm, ms[0].s.db.definitions, ms[n], id)
    ensures HeldBy(ReplayAll(fm, View(ms[0].s.db), ms[n].log, moments), id) == HeldBy(View(ms[n].s.db), id)
  {
    LoggedRunKeepsInv(fm, ms, moves, n);
    TurnsKeepOrder(fm, ms, moves, n);
    SettledIsWritten(ms[n], id);
    FatesInOrder(fm, ms[0].s.db.definitions, ms[n].calls, ms[n].written, id);
    IdRecoversIff(fm, View(ms[0].s.db), ms[n], moments, id);
  }

  /** And the whole store once every entry is written. */
  lemma TurnsRecover(fm: Formats, ms: seq<Machine>, moves: seq<Move>, n: nat, moments: seq<Moment>)
    requires IsLoggedRun(fm, ms, moves) && n < |ms| && Plain(fm, View(ms[0].s.db), ms[n].calls)
    requires TakesTurns(ms, n) && |moments| == |ms[n].log| && ms[n].pending == map[]
    ensures Same(ReplayAll(fm, View(ms[0].s.db), ms[n].log, moments), View(ms[n].s.db))
  {
    forall id | NoColon(id) ensures FateKept(fm, ms[0].s.db.definitions, ms[n], id) {
      SettledIdsRecover(fm, ms, moves, n, moments, id);
    }
    CrashRecoversIff(fm, ms, moves, n, moments);
  }
}
