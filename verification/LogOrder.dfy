/** Sorting the log by sequence number leaves no choice when no two entries share one. */
module LogOrder {
  import opened Common
  import opened Tables
  import opened Journals

  predicate StrictlyOrdered(entries: Entries) {
    forall i, j :: 0 <= i < j < |entries| ==> entries[i].1.sequence < entries[j].1.sequence
  }

  lemma HasFirst(b: Entries)
    requires b != []
    ensures b[0] in b
  {
  }

  /** Two strictly ordered listings of the same entries are the same listing. */
  lemma {:induction false} OrderIsUnique(a: Entries, b: Entries)
    requires StrictlyOrdered(a) && StrictlyOrdered(b) && forall p :: p in a <==> p in b
    ensures a == b
  {
    if a == [] {
      if b != [] { HasFirst(b); }
    } else {
      assert a[0] in b;
      var m, n := |a| - 1, |b| - 1;
      assert a[m] in b && b[n] in a;
      assert a[m] == b[n];
      forall p ensures p in a[..m] <==> p in b[..n] {
        assert p in a <==> p in a[..m] || p == a[m] by { assert a == a[..m] + [a[m]]; }
        assert p in b <==> p in b[..n] || p == b[n] by { assert b == b[..n] + [b[n]]; }
      }
      OrderIsUnique(a[..m], b[..n]);
      assert a == a[..m] + [a[m]] && b == b[..n] + [b[n]];
    }
  }

  /** No two keys of the log share a sequence number, and each entry repeats the number in its key. */
  predicate Numbered(wal: Wal) {
    && (forall key :: key in wal ==> wal[key].sequence == key.sequence)
    && (forall k1, k2 :: k1 in wal && k2 in wal && k1.sequence == k2.sequence ==> k1 == k2)
  }

  lemma LoadOrderIsStrict(wal: Wal, entries: Entries)
    requires Numbered(wal) && LoadOrder(wal, entries)
    ensures StrictlyOrdered(entries)
    ensures forall p :: p in entries <==> p.0 in wal && wal[p.0] == p.1
  {
    forall i, j | 0 <= i < j < |entries| ensures entries[i].0 != entries[j].0 {
      assert entries[i] != entries[j];
    }
    forall p: (WalKey, WalEntry) | p.0 in wal && wal[p.0] == p.1 ensures p in entries {
      assert p == (p.0, wal[p.0]);
    }
  }

  /** The entries of one transaction, in order. */
  function Select(entries: Entries, transaction: string): Entries {
    if entries == [] then []
    else
      Select(entries[..|entries| - 1], transaction)
      + (if entries[|entries| - 1].1.transaction == transaction then [entries[|entries| - 1]] else [])
  }

  lemma {:induction false} SelectIsOrdered(entries: Entries, transaction: string)
    requires StrictlyOrdered(entries)
    ensures StrictlyOrdered(Select(entries, transaction))
    ensures forall p :: p in Select(entries, transaction) <==> p in entries && p.1.transaction == transaction
  {
    if entries == [] {
    } else {
      SplitLast(entries);
      SelectIsOrdered(entries[..|entries| - 1], transaction);
    }
  }

  lemma {:induction false} OpsOfSelect(entries: Entries, transaction: string)
    ensures |OpsOf(entries, transaction)| == |Select(entries, transaction)|
    ensures forall i :: 0 <= i < |OpsOf(entries, transaction)| ==>
        OpsOf(entries, transaction)[i] == Select(entries, transaction)[i].1.op
  {
    if entries == [] {
    } else {
      OpsOfSelect(entries[..|entries| - 1], transaction);
    }
  }

  // ---------- replaying one list after another ----------

  lemma SplitBoth<T>(a: seq<Op>, b: seq<Op>, moments: seq<T>)
    requires |moments| == |a| + |b| && b != []
    ensures var n := |moments| - 1; var front, op := b[..|b| - 1], b[|b| - 1];
            && a + b == (a + front) + [op] && b == front + [op]
            && moments == moments[..n] + [moments[n]]
            && moments[..n][..|a|] == moments[..|a|] && moments[|a|..] == moments[..n][|a|..] + [moments[n]]
  {
  }

  lemma ReplayOneMore(fm: Formats, t: Table, ops: seq<Op>, op: Op, moments: seq<Moment>, m: Moment)
    requires |moments| == |ops|
    ensures ReplayAll(fm, t, ops + [op], moments + [m]) == Replay(fm, ReplayAll(fm, t, ops, moments), op, m)
  {
    assert (ops + [op])[..|ops|] == ops && (moments + [m])[..|ops|] == moments;
  }

  lemma {:induction false} ReplayAppend(fm: Formats, t: Table, a: seq<Op>, b: seq<Op>, moments: seq<Moment>)
    requires |moments| == |a| + |b|
    ensures ReplayAll(fm, t, a + b, moments) == ReplayAll(fm, ReplayAll(fm, t, a, moments[..|a|]), b, moments[|a|..])
  {
    if b == [] {
      assert a + b == a && moments[..|a|] == moments;
    } else {
      var n := |moments| - 1;
      var front, op, m := b[..|b| - 1], b[|b| - 1], moments[n];
      SplitBoth(a, b, moments);
      ReplayAppend(fm, t, a, front, moments[..n]);
      ReplayOneMore(fm, t, a + front, op, moments[..n], m);
      ReplayOneMore(fm, ReplayAll(fm, t, a, moments[..|a|]), front, op, moments[..n][|a|..], m);
    }
  }
}
