/**
 * Transactions in the write-ahead log. Any number of clients write single entries and commit transactions at once;
 * taking a sequence number and writing the entry are separate steps, a snapshot may prune the log at any time, and a
 * crash may come between any two steps.
 */
module Transactions {
  import opened Common
  import opened Journals
  import opened LogOrder

  datatype Writer =
    | Quiet
    | SingleNumbered(op: Op, sequence: nat)
    | Committing(transaction: string, next: nat)
    | CommitNumbered(transaction: string, next: nat, sequence: nat)

  // current and submitted record the operations of a transaction before and after its commit began;
  // numbers records the sequence numbers its entries were written under, cuts how many of them had been written when
  // the log was last pruned, failed the transactions whose commit returned an error half-way; all for the proof only.
  datatype State = State(
    sequence: nat,
    wal: Wal,
    current: map<string, seq<Op>>,
    submitted: map<string, seq<Op>>,
    numbers: map<string, seq<nat>>,
    cuts: map<string, nat>,
    failed: set<string>,
    names: set<string>,
    writers: map<nat, Writer>)

  const START := State(0, map[], map[], map[], map[], map[], {}, {}, map[])

  function WriterOf(s: State, c: nat): Writer { if c in s.writers then s.writers[c] else Quiet }

  datatype Step =
    | Begin(name: string)
    | Add(name: string, op: Op)
    | Abort(name: string)
    | StartCommit(c: nat, name: string)
    | NumberEntry(c: nat)
    | WriteEntry(c: nat)
    | FinishCommit(c: nat)
    | NumberSingle(c: nat, op: Op)
    | WriteSingle(c: nat)
    | FailWrite(c: nat)
    | Prune(timestamp: nat)

  predicate Enabled(s: State, step: Step) {
    match step
    case Begin(name) => name != "" && name !in s.names  // a fresh UUID
    case Add(name, _) => name in s.current
    case Abort(name) => name in s.current
    case StartCommit(c, name) => WriterOf(s, c).Quiet? && name in s.current
    case NumberEntry(c) => var w := WriterOf(s, c);
        w.Committing? && w.transaction in s.submitted
        && w.next < |s.submitted[w.transaction]|
    case WriteEntry(c) =>
      var w := WriterOf(s, c);
      w.CommitNumbered? && w.transaction in s.submitted && w.transaction in s.numbers
          && w.next < |s.submitted[w.transaction]|
    case FinishCommit(c) => var w := WriterOf(s, c);
        w.Committing? && w.transaction in s.submitted
        && w.next == |s.submitted[w.transaction]|
    case NumberSingle(c, _) => WriterOf(s, c).Quiet?
    case WriteSingle(c) => WriterOf(s, c).SingleNumbered?
    case FailWrite(c) => Numbering(WriterOf(s, c))
    case Prune(timestamp) => s.sequence <= timestamp  // a time in nanoseconds
  }

  function EntryOf(name: string, ops: seq<Op>, i: nat, sequence: nat): WalEntry
    requires i < |ops|
  {
    WalEntry(sequence, name, ops[i], i == |ops| - 1)
  }

  function Next(s: State, step: Step): State
    requires Enabled(s, step)
  {
    match step
    case Begin(name) => s.(current := s.current[name := []], names := s.names + {name})
    case Add(name, op) => s.(current := s.current[name := s.current[name] + [op]])
    case Abort(name) => s.(current := s.current - {name})
    case StartCommit(c, name) =>
      s.(current := s.current - {name}, submitted := s.submitted[name := s.current[name]],
          numbers := s.numbers[name := []], cuts := s.cuts[name := 0],
          writers := s.writers[c := Committing(name, 0)])
    case NumberEntry(c) =>
      var w := s.writers[c];
      s.(sequence := s.sequence + 1, writers := s.writers[c := CommitNumbered(w.transaction, w.next, s.sequence + 1)])
    case WriteEntry(c) =>
      var w := s.writers[c];
      var ops := s.submitted[w.transaction];
      s.(wal := s.wal[KeyFor(w.sequence, ops[w.next]) := EntryOf(w.transaction, ops, w.next, w.sequence)],
         numbers := s.numbers[w.transaction := s.numbers[w.transaction] + [w.sequence]],
         writers := s.writers[c := Committing(w.transaction, w.next + 1)])
    case FinishCommit(c) => s.(writers := s.writers[c := Quiet])
    case NumberSingle(c, op) =>
      s.(sequence := s.sequence + 1, writers := s.writers[c := SingleNumbered(op, s.sequence + 1)])
    case WriteSingle(c) =>
      var w := s.writers[c];
      s.(wal := s.wal[KeyFor(w.sequence, w.op) := WalEntry(w.sequence, "", w.op, false)],
          writers := s.writers[c := Quiet])
    case FailWrite(c) =>
      var w := s.writers[c];
      s.(failed := if w.CommitNumbered? then s.failed + {w.transaction} else s.failed, writers := s.writers[c := Quiet])
    case Prune(timestamp) =>
      s.(wal := Pruned(s.wal, timestamp), cuts := map name | name in s.numbers :: |s.numbers[name]|)
  }

  // ---------- invariant ----------

  /** The entry with index i of a submitted transaction is in the log under its recorded number. */
  predicate Written(s: State, name: string, i: nat)
    requires name in s.submitted && name in s.numbers && i < |s.numbers[name]| <= |s.submitted[name]|
  {
    var key := KeyFor(s.numbers[name][i], s.submitted[name][i]);
    key in s.wal && s.wal[key] == EntryOf(name, s.submitted[name], i, s.numbers[name][i])
  }

  /** A log entry belongs to no transaction, or is one of the recorded entries of a submitted one. */
  predicate Accounted(s: State, key: WalKey)
    requires key in s.wal
  {
    var e := s.wal[key];
    && e.sequence == key.sequence <= s.sequence
    && (e.transaction != "" ==>
          && e.transaction in s.submitted && e.transaction in s.numbers && e.transaction in s.cuts
          && exists i :: s.cuts[e.transaction] <= i < |s.numbers[e.transaction]| && i < |s.submitted[e.transaction]|
               && key == KeyFor(s.numbers[e.transaction][i], s.submitted[e.transaction][i])
               && e == EntryOf(e.transaction, s.submitted[e.transaction], i, s.numbers[e.transaction][i]))
  }

  predicate Numbering(w: Writer) { w.SingleNumbered? || w.CommitNumbered? }

  predicate Commits(w: Writer, name: string) {
    (w.Committing? || w.CommitNumbered?) && w.transaction == name
  }

  /** No two clients hold the same number or commit the same transaction. */
  predicate Apart(w1: Writer, w2: Writer) {
    && (Numbering(w1) && Numbering(w2) ==> w1.sequence != w2.sequence)
    && ((w1.Committing? || w1.CommitNumbered?) && (w2.Committing? || w2.CommitNumbered?) ==>
        w1.transaction != w2.transaction)
  }

  predicate WriterSound(s: State, c: nat)
    requires c in s.writers
  {
    var w := s.writers[c];
    && (w.Committing? || w.CommitNumbered? ==>
          w.transaction in s.submitted && w.transaction in s.numbers && w.next == |s.numbers[w.transaction]|)
    && (w.CommitNumbered? ==>
          && w.next < |s.submitted[w.transaction]|
          && forall i :: 0 <= i < |s.numbers[w.transaction]| ==> s.numbers[w.transaction][i] < w.sequence)
    && (w.SingleNumbered? || w.CommitNumbered? ==>
          w.sequence <= s.sequence && forall key :: key in s.wal ==> key.sequence != w.sequence)
  }

  predicate Ascending(numbers: seq<nat>) {
    forall i, j :: 0 <= i < j < |numbers| ==> numbers[i] < numbers[j]
  }

  predicate AtMost(numbers: seq<nat>, last: nat) {
    forall i :: 0 <= i < |numbers| ==> numbers[i] <= last
  }

  predicate TransactionSound(s: State, name: string)
    requires name in s.submitted
  {
    && name in s.numbers && name in s.cuts && name in s.names && name != "" && name !in s.current
    && s.cuts[name] <= |s.numbers[name]| <= |s.submitted[name]|
    && Ascending(s.numbers[name]) && AtMost(s.numbers[name], s.sequence)
    && (forall i :: s.cuts[name] <= i < |s.numbers[name]| ==> Written(s, name, i))
    // unfinished only while some client is committing it, or because its commit failed
    && (|s.numbers[name]| < |s.submitted[name]| ==> name in s.failed || exists c ::
        c in s.writers && Commits(s.writers[c], name))
    && (name in s.failed ==>
          |s.numbers[name]| < |s.submitted[name]| && forall c :: c in s.writers ==> !Commits(s.writers[c], name))
  }

  ghost predicate Inv(s: State) {
    && Numbered(s.wal) && s.failed <= s.submitted.Keys
    && (forall key {:trigger Accounted(s, key)} :: key in s.wal ==> Accounted(s, key))
    && (forall name {:trigger TransactionSound(s, name)} :: name in s.submitted ==> TransactionSound(s, name))
    && (forall name :: name in s.current ==> name in s.names && name != "")
    && (forall c {:trigger WriterSound(s, c)} :: c in s.writers ==> WriterSound(s, c))
    && (forall c1, c2 {:trigger Apart(s.writers[c1], s.writers[c2])} ::
          c1 in s.writers && c2 in s.writers && c1 != c2 ==> Apart(s.writers[c1], s.writers[c2]))
  }

  predicate IsRun(states: seq<State>, steps: seq<Step>) {
    && |states| == |steps| + 1 && states[0] == START
    && forall i :: 0 <= i < |steps| ==> Enabled(states[i], steps[i]) && states[i + 1] == Next(states[i], steps[i])
  }

  // ---------- every step keeps the invariant ----------

  predicate LogGrows(wal: Wal, wal': Wal) {
    forall key :: key in wal ==> key in wal' && wal'[key] == wal[key]
  }

  /** A transaction untouched by a step stays sound. */
  lemma Carried(s: State, s': State, name: string)
    requires name in s.submitted && TransactionSound(s, name)
    requires name in s'.submitted && s'.submitted[name] == s.submitted[name]
    requires name in s'.numbers && s'.numbers[name] == s.numbers[name]
    requires name in s'.cuts && s'.cuts[name] == s.cuts[name]
    requires name in s'.names && name !in s'.current && s.sequence <= s'.sequence && LogGrows(s.wal, s'.wal)
    requires |s.numbers[name]| < |s.submitted[name]| ==>
      forall c :: c in s.writers && Commits(s.writers[c], name) ==> c in s'.writers && Commits(s'.writers[c], name)
    requires name in s'.failed <==> name in s.failed
    requires name in s.failed ==> forall c :: c in s'.writers && Commits(s'.writers[c], name) ==>
        c in s.writers && Commits(s.writers[c], name)
    ensures TransactionSound(s', name)
  {
    forall i | s.cuts[name] <= i < |s.numbers[name]| ensures Written(s', name, i) {
      assert Written(s, name, i);
    }
  }

  lemma StillAccounted(s: State, s': State, key: WalKey)
    requires key in s.wal && Accounted(s, key) && key in s'.wal && s'.wal[key] == s.wal[key]
        && s.sequence <= s'.sequence
    requires var name := s.wal[key].transaction; name in s.submitted && name in s.numbers && name in s.cuts ==>
      && name in s'.cuts && s'.cuts[name] == s.cuts[name]
      && name in s'.submitted && s'.submitted[name] == s.submitted[name]
      && name in s'.numbers && s.numbers[name] <= s'.numbers[name]
    ensures Accounted(s', key)
  {
    var e := s.wal[key];
    if e.transaction != "" {
      var i :| s.cuts[e.transaction] <= i < |s.numbers[e.transaction]| && i < |s.submitted[e.transaction]|
               && key == KeyFor(s.numbers[e.transaction][i], s.submitted[e.transaction][i])
               && e == EntryOf(e.transaction, s.submitted[e.transaction], i, s.numbers[e.transaction][i]);
      assert s'.numbers[e.transaction][i] == s.numbers[e.transaction][i];
    }
  }

  lemma BookkeepingKeepsInv(s: State, step: Step)
    requires Inv(s) && Enabled(s, step) && (step.Begin? || step.Add? || step.Abort?)
    ensures Inv(Next(s, step))
  {
    var s' := Next(s, step);
    forall key | key in s'.wal ensures Accounted(s', key) { assert Accounted(s, key); }
    forall name | name in s'.submitted ensures TransactionSound(s', name) {
      assert TransactionSound(s, name);
      Carried(s, s', name);
    }
    forall c | c in s'.writers ensures WriterSound(s', c) { assert WriterSound(s, c); }
    forall c1, c2 | c1 in s'.writers && c2 in s'.writers && c1 != c2 ensures Apart(s'.writers[c1], s'.writers[c2]) {
      assert Apart(s.writers[c1], s.writers[c2]);
    }
  }

  lemma StartCommitKeepsInv(s: State, c: nat, name: string)
    requires Inv(s) && Enabled(s, StartCommit(c, name))
    ensures Inv(Next(s, StartCommit(c, name)))
  {
    var s' := Next(s, StartCommit(c, name));
    assert name in s.submitted ==> TransactionSound(s, name);
    assert name !in s.submitted;
    forall key | key in s'.wal ensures Accounted(s', key) {
      assert Accounted(s, key);
      StillAccounted(s, s', key);
    }
    assert s'.writers[c] == Committing(name, 0);
    forall n | n in s'.submitted ensures TransactionSound(s', n) {
      if n != name {
        assert TransactionSound(s, n);
        Carried(s, s', n);
      } else {
        assert Commits(s'.writers[c], n);
      }
    }
    forall d | d in s'.writers ensures WriterSound(s', d) {
      assert d != c ==> WriterSound(s, d);
    }
    forall c1, c2 | c1 in s'.writers && c2 in s'.writers && c1 != c2 ensures Apart(s'.writers[c1], s'.writers[c2]) {
      if c1 != c { assert WriterSound(s, c1); }
      if c2 != c { assert WriterSound(s, c2); }
      if c1 != c && c2 != c { assert Apart(s.writers[c1], s.writers[c2]); }
    }
  }

  lemma NumberingKeepsWriters(s: State, step: Step, d: nat)
    requires Inv(s) && Enabled(s, step) && (step.NumberEntry? || step.NumberSingle?) && d in Next(s, step).writers
    ensures WriterSound(Next(s, step), d)
  {
    var c := step.c;
    forall key | key in s.wal ensures key.sequence <= s.sequence {
      assert Accounted(s, key);
    }
    assert c in s.writers ==> WriterSound(s, c);
    if d != c { assert WriterSound(s, d); }
    else if step.NumberEntry? { assert TransactionSound(s, s.writers[c].transaction); }
  }

  lemma NumberingKeepsApart(s: State, step: Step, c1: nat, c2: nat)
    requires Inv(s) && Enabled(s, step) && (step.NumberEntry? || step.NumberSingle?)
    requires c1 in Next(s, step).writers && c2 in Next(s, step).writers && c1 != c2
    ensures Apart(Next(s, step).writers[c1], Next(s, step).writers[c2])
  {
    if c1 != step.c { assert WriterSound(s, c1); }
    if c2 != step.c { assert WriterSound(s, c2); }
    if c1 in s.writers && c2 in s.writers { assert Apart(s.writers[c1], s.writers[c2]); }
  }

  lemma NumberingKeepsInv(s: State, step: Step)
    requires Inv(s) && Enabled(s, step) && (step.NumberEntry? || step.NumberSingle?)
    ensures Inv(Next(s, step))
  {
    var s' := Next(s, step);
    forall key | key in s'.wal ensures Accounted(s', key) {
      assert Accounted(s, key);
    }
    forall name | name in s'.submitted ensures TransactionSound(s', name) {
      assert TransactionSound(s, name);
      Carried(s, s', name);
    }
    forall d | d in s'.writers ensures WriterSound(s', d) {
      NumberingKeepsWriters(s, step, d);
    }
    forall c1, c2 | c1 in s'.writers && c2 in s'.writers && c1 != c2 ensures Apart(s'.writers[c1], s'.writers[c2]) {
      NumberingKeepsApart(s, step, c1, c2);
    }
  }

  lemma FinishKeepsInv(s: State, c: nat)
    requires Inv(s) && Enabled(s, FinishCommit(c))
    ensures Inv(Next(s, FinishCommit(c)))
  {
    var s' := Next(s, FinishCommit(c));
    assert WriterSound(s, c);
    forall key | key in s'.wal ensures Accounted(s', key) { assert Accounted(s, key); }
    forall name | name in s'.submitted ensures TransactionSound(s', name) {
      assert TransactionSound(s, name);
      Carried(s, s', name);
    }
    forall d | d in s'.writers ensures WriterSound(s', d) { assert d != c ==> WriterSound(s, d); }
    forall c1, c2 | c1 in s'.writers && c2 in s'.writers && c1 != c2 ensures Apart(s'.writers[c1], s'.writers[c2]) {
      assert Apart(s.writers[c1], s.writers[c2]);
    }
  }

  /** Writing under a number no log key has yet. */
  lemma FreshNumber(s: State, c: nat)
    requires Inv(s) && c in s.writers && Numbering(s.writers[c])
    ensures s.writers[c].sequence <= s.sequence
    ensures forall key :: key in s.wal ==> key.sequence != s.writers[c].sequence
    ensures forall d :: d in s.writers && d != c && Numbering(s.writers[d]) ==>
        s.writers[d].sequence != s.writers[c].sequence
  {
    assert WriterSound(s, c);
    forall d | d in s.writers && d != c ensures Apart(s.writers[c], s.writers[d]) { }
  }

  lemma WriteSingleKeepsLog(s: State, c: nat)
    requires Inv(s) && Enabled(s, WriteSingle(c))
    ensures var s' := Next(s, WriteSingle(c)); Numbered(s'.wal) && forall key :: key in s'.wal ==> Accounted(s', key)
  {
    var s' := Next(s, WriteSingle(c));
    FreshNumber(s, c);
    forall key | key in s'.wal ensures Accounted(s', key) {
      if key in s.wal {
        assert Accounted(s, key);
        StillAccounted(s, s', key);
      }
    }
  }

  lemma WriteSingleKeepsTransactions(s: State, c: nat, name: string)
    requires Inv(s) && Enabled(s, WriteSingle(c)) && name in s.submitted
    ensures TransactionSound(Next(s, WriteSingle(c)), name)
  {
    FreshNumber(s, c);
    assert TransactionSound(s, name);
    Carried(s, Next(s, WriteSingle(c)), name);
  }

  lemma WriteSingleKeepsInv(s: State, c: nat)
    requires Inv(s) && Enabled(s, WriteSingle(c))
    ensures Inv(Next(s, WriteSingle(c)))
  {
    var s' := Next(s, WriteSingle(c));
    FreshNumber(s, c);
    WriteSingleKeepsLog(s, c);
    forall name | name in s'.submitted ensures TransactionSound(s', name) { WriteSingleKeepsTransactions(s, c, name); }
    forall d | d in s'.writers ensures WriterSound(s', d) { assert d != c ==> WriterSound(s, d); }
    forall c1, c2 | c1 in s'.writers && c2 in s'.writers && c1 != c2 ensures Apart(s'.writers[c1], s'.writers[c2]) {
      assert Apart(s.writers[c1], s.writers[c2]);
    }
  }

  lemma WriteEntryKeepsLog(s: State, c: nat)
    requires Inv(s) && Enabled(s, WriteEntry(c))
    ensures var s' := Next(s, WriteEntry(c)); Numbered(s'.wal) && forall key :: key in s'.wal ==> Accounted(s', key)
  {
    var s', w := Next(s, WriteEntry(c)), s.writers[c];
    FreshNumber(s, c);
    assert WriterSound(s, c) && TransactionSound(s, w.transaction);
    forall key | key in s'.wal ensures Accounted(s', key) {
      if key in s.wal {
        assert Accounted(s, key);
        StillAccounted(s, s', key);
      } else {
        assert s'.numbers[w.transaction][w.next] == w.sequence;
      }
    }
  }

  lemma WriteEntryKeepsTransactions(s: State, c: nat, name: string)
    requires Inv(s) && Enabled(s, WriteEntry(c)) && name in s.submitted
    ensures TransactionSound(Next(s, WriteEntry(c)), name)
  {
    var s', w := Next(s, WriteEntry(c)), s.writers[c];
    FreshNumber(s, c);
    assert WriterSound(s, c) && TransactionSound(s, name);
    if name != w.transaction {
      Carried(s, s', name);
    } else {
      forall i | s.cuts[name] <= i < |s'.numbers[name]| ensures Written(s', name, i) {
        if i < |s.numbers[name]| { assert Written(s, name, i); }
      }
      assert Commits(s'.writers[c], name);
    }
  }

  lemma WriteEntryKeepsInv(s: State, c: nat)
    requires Inv(s) && Enabled(s, WriteEntry(c))
    ensures Inv(Next(s, WriteEntry(c)))
  {
    var s', w := Next(s, WriteEntry(c)), s.writers[c];
    FreshNumber(s, c);
    WriteEntryKeepsLog(s, c);
    forall name | name in s'.submitted ensures TransactionSound(s', name) {
      WriteEntryKeepsTransactions(s, c, name);
    }
    assert WriterSound(s, c);
    forall d | d in s'.writers ensures WriterSound(s', d) {
      if d != c { assert WriterSound(s, d) && Apart(s.writers[c], s.writers[d]); }
    }
    forall c1, c2 | c1 in s'.writers && c2 in s'.writers && c1 != c2 ensures Apart(s'.writers[c1], s'.writers[c2]) {
      assert Apart(s.writers[c1], s.writers[c2]);
    }
  }

  lemma FailKeepsTransactions(s: State, c: nat, name: string)
    requires Inv(s) && Enabled(s, FailWrite(c)) && name in s.submitted
    ensures TransactionSound(Next(s, FailWrite(c)), name)
  {
    var s', w := Next(s, FailWrite(c)), s.writers[c];
    assert WriterSound(s, c) && TransactionSound(s, name);
    if Commits(w, name) {
      forall i | s.cuts[name] <= i < |s.numbers[name]| ensures Written(s', name, i) { assert Written(s, name, i); }
      forall d | d in s'.writers ensures !Commits(s'.writers[d], name) {
        if d != c { assert Apart(s.writers[c], s.writers[d]); }
      }
    } else {
      Carried(s, s', name);
    }
  }

  lemma FailKeepsInv(s: State, c: nat)
    requires Inv(s) && Enabled(s, FailWrite(c))
    ensures Inv(Next(s, FailWrite(c)))
  {
    var s' := Next(s, FailWrite(c));
    assert WriterSound(s, c);
    forall key | key in s'.wal ensures Accounted(s', key) { assert Accounted(s, key); }
    forall name | name in s'.submitted ensures TransactionSound(s', name) {
      FailKeepsTransactions(s, c, name);
    }
    forall d | d in s'.writers ensures WriterSound(s', d) { assert d != c ==> WriterSound(s, d); }
    forall c1, c2 | c1 in s'.writers && c2 in s'.writers && c1 != c2 ensures Apart(s'.writers[c1], s'.writers[c2]) {
      assert Apart(s.writers[c1], s.writers[c2]);
    }
  }

  /** Every entry so far has a number below the time at which the log is pruned. */
  lemma PruneEmptiesLog(s: State, timestamp: nat)
    requires Inv(s) && Enabled(s, Prune(timestamp))
    ensures Next(s, Prune(timestamp)).wal == map[]
  {
    forall key | key in s.wal ensures key.sequence <= timestamp { assert Accounted(s, key); }
  }

  lemma PruneKeepsInv(s: State, timestamp: nat)
    requires Inv(s) && Enabled(s, Prune(timestamp))
    ensures Inv(Next(s, Prune(timestamp)))
  {
    var s' := Next(s, Prune(timestamp));
    PruneEmptiesLog(s, timestamp);
    forall name | name in s'.submitted ensures TransactionSound(s', name) {
      assert TransactionSound(s, name);
    }
    forall d | d in s'.writers ensures WriterSound(s', d) { assert WriterSound(s, d); }
    forall c1, c2 | c1 in s'.writers && c2 in s'.writers && c1 != c2 ensures Apart(s'.writers[c1], s'.writers[c2]) {
      assert Apart(s.writers[c1], s.writers[c2]);
    }
  }

  lemma StepKeepsInv(s: State, step: Step)
    requires Inv(s) && Enabled(s, step)
    ensures Inv(Next(s, step))
  {
    match step
    case StartCommit(c, name) => StartCommitKeepsInv(s, c, name);
    case NumberEntry(_) => NumberingKeepsInv(s, step);
    case NumberSingle(_, _) => NumberingKeepsInv(s, step);
    case WriteEntry(c) => WriteEntryKeepsInv(s, c);
    case WriteSingle(c) => WriteSingleKeepsInv(s, c);
    case FinishCommit(c) => FinishKeepsInv(s, c);
    case FailWrite(c) => FailKeepsInv(s, c);
    case Prune(timestamp) => PruneKeepsInv(s, timestamp);
    case _ => BookkeepingKeepsInv(s, step);
  }

  lemma {:induction false} RunKeepsInv(states: seq<State>, steps: seq<Step>, n: nat)
    requires IsRun(states, steps) && n < |states|
    ensures Inv(states[n])
  {
    if n == 0 {
    } else {
      RunKeepsInv(states, steps, n - 1);
      StepKeepsInv(states[n - 1], steps[n - 1]);
    }
  }

  // ---------- what start-up reads back ----------

  /** The log entry with index i of a submitted transaction. */
  function PairAt(s: State, name: string, i: nat): (WalKey, WalEntry)
    requires name in s.submitted && name in s.numbers && i < |s.numbers[name]| <= |s.submitted[name]|
  {
    (KeyFor(s.numbers[name][i], s.submitted[name][i]), EntryOf(name, s.submitted[name], i, s.numbers[name][i]))
  }

  predicate Bounded(s: State, name: string) {
    && name in s.submitted && name in s.numbers && name in s.cuts
    && s.cuts[name] <= |s.numbers[name]| <= |s.submitted[name]|
  }

  /** What is left in the log of a submitted transaction's entries, in the order its operations were added. */
  function Recorded(s: State, name: string): Entries
    requires Bounded(s, name)
  {
    seq(|s.numbers[name]| - s.cuts[name],
        i requires 0 <= i < |s.numbers[name]| - s.cuts[name] && Bounded(s, name) => PairAt(s, name, s.cuts[name] + i))
  }

  lemma RecordedAt(s: State, name: string, i: nat)
    requires Bounded(s, name) && i < |s.numbers[name]| - s.cuts[name]
    ensures Recorded(s, name)[i] == PairAt(s, name, s.cuts[name] + i)
  {
  }

  lemma PairIsRecorded(s: State, name: string, i: nat)
    requires Bounded(s, name) && s.cuts[name] <= i < |s.numbers[name]|
    ensures PairAt(s, name, i) in Recorded(s, name)
  {
    RecordedAt(s, name, i - s.cuts[name]);
  }

  lemma SelectedIsRecorded(s: State, entries: Entries, name: string, p: (WalKey, WalEntry))
    requires Inv(s) && LoadOrder(s.wal, entries) && name in s.submitted && TransactionSound(s, name)
    requires name != "" && (p in Select(entries, name) <==> p in entries && p.1.transaction == name)
    ensures p in Select(entries, name) ==> p in Recorded(s, name)
  {
    if p in Select(entries, name) {
      assert Accounted(s, p.0);
      var i :| s.cuts[name] <= i < |s.numbers[name]| && i < |s.submitted[name]|
               && p.0 == KeyFor(s.numbers[name][i], s.submitted[name][i])
               && p.1 == EntryOf(name, s.submitted[name], i, s.numbers[name][i]);
      assert p == (p.0, p.1) == PairAt(s, name, i);
      PairIsRecorded(s, name, i);
    }
  }

  lemma RecordedIsInLog(s: State, name: string, p: (WalKey, WalEntry))
    requires name in s.submitted && TransactionSound(s, name) && p in Recorded(s, name)
    ensures p.0 in s.wal && s.wal[p.0] == p.1 && p.1.transaction == name
  {
    var i :| 0 <= i < |Recorded(s, name)| && p == Recorded(s, name)[i];
    RecordedAt(s, name, i);
    assert Written(s, name, s.cuts[name] + i);
  }

  lemma RecordedIsOrdered(s: State, name: string)
    requires name in s.submitted && TransactionSound(s, name)
    ensures StrictlyOrdered(Recorded(s, name))
  {
    forall i, j | 0 <= i < j < |Recorded(s, name)|
      ensures Recorded(s, name)[i].1.sequence < Recorded(s, name)[j].1.sequence
    {
      RecordedAt(s, name, i);
      RecordedAt(s, name, j);
    }
  }

  lemma SelectIsRecorded(s: State, entries: Entries, name: string)
    requires Inv(s) && LoadOrder(s.wal, entries) && name in s.submitted
    ensures TransactionSound(s, name) && Select(entries, name) == Recorded(s, name)
  {
    assert TransactionSound(s, name);
    LoadOrderIsStrict(s.wal, entries);
    SelectIsOrdered(entries, name);
    RecordedIsOrdered(s, name);
    forall p ensures p in Select(entries, name) <==> p in Recorded(s, name) {
      SelectedIsRecorded(s, entries, name, p);
      if p in Recorded(s, name) { RecordedIsInLog(s, name, p); }
    }
    OrderIsUnique(Select(entries, name), Recorded(s, name));
  }

  /** The last entry is in the log exactly if all have been written and it has not been pruned. */
  lemma CompleteIff(s: State, entries: Entries, name: string)
    requires Inv(s) && LoadOrder(s.wal, entries) && name in s.submitted
    ensures TransactionSound(s, name)
    ensures Complete(entries, name) <==> s.cuts[name] < |s.submitted[name]| == |s.numbers[name]|
  {
    SelectIsRecorded(s, entries, name);
    LoadOrderIsStrict(s.wal, entries);
    SelectIsOrdered(entries, name);
    if Complete(entries, name) {
      var i :| 0 <= i < |entries| && entries[i].1.transaction == name && entries[i].1.isLast;
      LastIsRecorded(s, name, entries[i]);
    }
    if s.cuts[name] < |s.submitted[name]| == |s.numbers[name]| {
      var last := PairAt(s, name, |s.numbers[name]| - 1);
      PairIsRecorded(s, name, |s.numbers[name]| - 1);
      LastMakesComplete(entries, name, last);
    }
  }

  lemma LastMakesComplete(entries: Entries, name: string, p: (WalKey, WalEntry))
    requires p in entries && p.1.isLast && p.1.transaction == name
    ensures Complete(entries, name)
  {
    var i :| 0 <= i < |entries| && entries[i] == p;
  }

  lemma LastIsRecorded(s: State, name: string, p: (WalKey, WalEntry))
    requires Bounded(s, name) && p in Recorded(s, name) && p.1.isLast
    ensures s.cuts[name] < |s.submitted[name]| == |s.numbers[name]|
  {
    var i :| 0 <= i < |Recorded(s, name)| && Recorded(s, name)[i] == p;
    RecordedAt(s, name, i);
  }

  lemma OpsAreLeft(s: State, entries: Entries, name: string)
    requires Inv(s) && LoadOrder(s.wal, entries) && name in s.submitted
    requires name in s.numbers && |s.numbers[name]| == |s.submitted[name]|
    ensures TransactionSound(s, name) && OpsOf(entries, name) == s.submitted[name][s.cuts[name]..]
  {
    SelectIsRecorded(s, entries, name);
    OpsOfSelect(entries, name);
    var ops, left := OpsOf(entries, name), s.submitted[name][s.cuts[name]..];
    forall i | 0 <= i < |ops| ensures ops[i] == left[i] {
      RecordedAt(s, name, i);
    }
  }

  lemma UnsubmittedHasNothing(s: State, entries: Entries, name: string)
    requires Inv(s) && LoadOrder(s.wal, entries) && name !in s.submitted && name != ""
    ensures OpsOf(entries, name) == [] && !Complete(entries, name)
  {
    forall i | 0 <= i < |entries| ensures entries[i].1.transaction != name {
      assert Accounted(s, entries[i].0);
    }
    LoadOrderIsStrict(s.wal, entries);
    SelectIsOrdered(entries, name);
    OpsOfSelect(entries, name);
    if Select(entries, name) != [] { HasFirst(Select(entries, name)); }
  }

  /** What start-up hands over of a submitted transaction: all that the last prune left, if its last entry is there. */
  lemma GroupIs(s: State, entries: Entries, name: string)
    requires Inv(s) && LoadOrder(s.wal, entries) && name in s.submitted
    ensures TransactionSound(s, name)
    ensures Group(entries, name) ==
            if |s.numbers[name]| == |s.submitted[name]| then s.submitted[name][s.cuts[name]..] else []
  {
    CompleteIff(s, entries, name);
    if |s.numbers[name]| == |s.submitted[name]| { OpsAreLeft(s, entries, name); }
  }

  predicate Idle(s: State, name: string) { forall c :: c in s.writers ==> !Commits(s.writers[c], name) }

  /** The log is never pruned while some client is committing the transaction. */
  predicate NeverPrunedMidway(states: seq<State>, steps: seq<Step>, name: string)
    requires |states| == |steps| + 1
  {
    forall i :: 0 <= i < |steps| && steps[i].Prune? ==> Idle(states[i], name)
  }

  /** A prune then takes all entries of the transaction or none, unless its commit has failed. */
  predicate CutClean(s: State, name: string) {
    name in s.submitted && name in s.cuts ==>
      s.cuts[name] == 0 || s.cuts[name] == |s.submitted[name]| || name in s.failed
  }

  lemma CutStaysClean(s: State, step: Step, name: string)
    requires Inv(s) && Enabled(s, step) && CutClean(s, name) && (step.Prune? ==> Idle(s, name))
    ensures CutClean(Next(s, step), name)
  {
    if name in s.submitted { assert TransactionSound(s, name); }
    if step.WriteEntry? { assert WriterSound(s, step.c); }
  }

  lemma {:induction false} CutsAreClean(states: seq<State>, steps: seq<Step>, n: nat, name: string)
    requires IsRun(states, steps) && n < |states| && NeverPrunedMidway(states, steps, name)
    ensures CutClean(states[n], name)
  {
    if n == 0 {
    } else {
      CutsAreClean(states, steps, n - 1, name);
      RunKeepsInv(states, steps, n - 1);
      CutStaysClean(states[n - 1], steps[n - 1], name);
    }
  }

  /**
   * Crash atomicity: after a crash between any two steps of any clients, if no prune fell into its commit, start-up
   * hands a transaction to the store either with all its operations in the order they were added, or not at all. One
   * whose commit never began, because it was aborted or still open, contributes nothing. One that no client is
   * committing any more is handed whole if its commit returned without an error and no snapshot has been taken since,
   * and not at all otherwise.
   */
  lemma TransactionsAreAtomic(states: seq<State>, steps: seq<Step>, n: nat, entries: Entries, name: string)
    requires IsRun(states, steps) && n < |states| && name != "" && NeverPrunedMidway(states, steps, name)
    requires LoadOrder(states[n].wal, entries)
    ensures var s, group := states[n], Group(entries, name);
            && (name !in s.submitted ==> group == [] && OpsOf(entries, name) == [])
            && (name in s.submitted ==> group == [] || group == s.submitted[name])
            && (name in s.submitted && Idle(s, name) ==>
                  && name in s.cuts
                  && group == if name in s.failed || s.cuts[name] > 0 then [] else s.submitted[name])
  {
    var s := states[n];
    RunKeepsInv(states, steps, n);
    CutsAreClean(states, steps, n, name);
    if name !in s.submitted {
      UnsubmittedHasNothing(s, entries, name);
    } else {
      GroupIs(s, entries, name);
    }
  }

  /**
   * Whatever prunes there were: a transaction whose commit returned without an error is handed over whole or not at all
   * if and only if the last prune did not come after its first entry and before its last.
   */
  lemma AtomicIff(states: seq<State>, steps: seq<Step>, n: nat, entries: Entries, name: string)
    requires IsRun(states, steps) && n < |states| && LoadOrder(states[n].wal, entries)
    requires name in states[n].submitted && name !in states[n].failed && Idle(states[n], name)
    ensures var s, group := states[n], Group(entries, name);
            && name in s.cuts && s.cuts[name] <= |s.submitted[name]|
            && (group == [] || group == s.submitted[name]
                <==> s.cuts[name] == 0 || s.cuts[name] == |s.submitted[name]|)
  {
    RunKeepsInv(states, steps, n);
    GroupIs(states[n], entries, name);
  }
}
