/** The cache of the persistence layer: a map and a recency list, and what several calls to it add up to. */
module LruCaches {
  import Common

  type Bytes = seq<bv8>

  datatype Entry = Entry(key: string, value: Bytes)

  // ---------- the recency list ----------

  predicate Has(r: seq<Entry>, key: string) {
    exists i :: 0 <= i < |r| && r[i].key == key
  }

  predicate DistinctKeys(r: seq<Entry>) {
    forall i, j :: 0 <= i < j < |r| ==> r[i].key != r[j].key
  }

  function Without(r: seq<Entry>, key: string): seq<Entry> {
    if r == [] then [] else if r[0].key == key then r[1..] else [r[0]] + Without(r[1..], key)
  }

  function Lookup(r: seq<Entry>, key: string): Bytes
    requires Has(r, key)
  {
    if r[0].key == key then r[0].value else Lookup(r[1..], key)
  }

  function Capped(r: seq<Entry>, capacity: int): seq<Entry> {
    if |r| > capacity && r != [] then r[..|r| - 1] else r
  }

  datatype Call = Get(key: string) | Put(key: string, value: Bytes) | Remove(key: string) | Clear

  /** What one call does to the list, most recently used first. */
  function Touch(r: seq<Entry>, capacity: int, call: Call): seq<Entry> {
    match call
    case Get(key) => if Has(r, key) then [Entry(key, Lookup(r, key))] + Without(r, key) else r
    case Put(key, value) =>
      if Has(r, key) then [Entry(key, value)] + Without(r, key) else Capped([Entry(key, value)] + r, capacity)
    case Remove(key) => Without(r, key)
    case Clear => []
  }

  function Run(capacity: int, calls: seq<Call>): seq<Entry> {
    if calls == [] then [] else Touch(Run(capacity, calls[..|calls| - 1]), capacity, calls[|calls| - 1])
  }

  function Room(capacity: int): nat { if capacity < 0 then 0 else capacity }

  lemma SplitFirst(r: seq<Entry>)
    requires DistinctKeys(r) && r != []
    ensures DistinctKeys(r[1..])
    ensures forall e :: e in r <==> e == r[0] || e in r[1..]
    ensures forall e :: e in r[1..] ==> e.key != r[0].key
  {
    assert r == [r[0]] + r[1..];
  }

  lemma {:induction false} WithoutElements(r: seq<Entry>, key: string)
    requires DistinctKeys(r)
    ensures forall e :: e in Without(r, key) <==> e in r && e.key != key
  {
    if r == [] {
    } else {
      SplitFirst(r);
      if r[0].key != key { WithoutElements(r[1..], key); }
    }
  }

  lemma {:induction false} WithoutLength(r: seq<Entry>, key: string)
    ensures |Without(r, key)| == |r| - (if Has(r, key) then 1 else 0)
  {
    if r == [] {
    } else {
      TailHas(r, key);
      WithoutLength(r[1..], key);
    }
  }

  lemma {:induction false} WithoutDistinct(r: seq<Entry>, key: string)
    requires DistinctKeys(r)
    ensures DistinctKeys(Without(r, key))
  {
    if r == [] {
    } else {
      SplitFirst(r);
      if r[0].key != key {
        WithoutDistinct(r[1..], key);
        WithoutElements(r[1..], key);
        NoneHas(Without(r[1..], key), r[0].key);
        ConsDistinct(r[0], Without(r[1..], key));
      }
    }
  }

  lemma NoneHas(r: seq<Entry>, key: string)
    requires forall e :: e in r ==> e.key != key
    ensures !Has(r, key)
  {
    assert forall i :: 0 <= i < |r| ==> r[i] in r;
  }

  /** Without takes out exactly the entry of the key. */
  lemma WithoutFacts(r: seq<Entry>, key: string)
    requires DistinctKeys(r)
    ensures DistinctKeys(Without(r, key)) && !Has(Without(r, key), key)
    ensures |Without(r, key)| == |r| - (if Has(r, key) then 1 else 0)
    ensures forall e :: e in Without(r, key) <==> e in r && e.key != key
  {
    WithoutDistinct(r, key);
    WithoutLength(r, key);
    WithoutElements(r, key);
    NoneHas(Without(r, key), key);
  }

  lemma {:induction false} LookupFinds(r: seq<Entry>, key: string)
    requires Has(r, key)
    ensures Entry(key, Lookup(r, key)) in r
  {
    if r[0].key == key {
    } else {
      TailHas(r, key);
      LookupFinds(r[1..], key);
    }
  }

  /** After any run no key is held twice and the capacity is kept. */
  lemma {:induction false} RunIsBounded(capacity: int, calls: seq<Call>)
    ensures DistinctKeys(Run(capacity, calls)) && |Run(capacity, calls)| <= Room(capacity)
  {
    if calls == [] {
    } else {
      var r, call := Run(capacity, calls[..|calls| - 1]), calls[|calls| - 1];
      RunIsBounded(capacity, calls[..|calls| - 1]);
      if !call.Clear? { WithoutFacts(r, call.key); }
    }
  }

  // ---------- the victim is the least recently used key ----------

  /** One more than the position of the last Get or Put of the key; 0 if there is none. */
  function LastUse(calls: seq<Call>, key: string): nat {
    if calls == [] then 0
    else
      var last := calls[|calls| - 1];
      if (last.Get? || last.Put?) && last.key == key then |calls| else LastUse(calls[..|calls| - 1], key)
  }

  lemma {:induction false} LastUseBound(calls: seq<Call>, key: string)
    ensures LastUse(calls, key) <= |calls|
  {
    if calls == [] {
    } else {
      LastUseBound(calls[..|calls| - 1], key);
    }
  }

  predicate ByLastUse(r: seq<Entry>, calls: seq<Call>) {
    forall i, j :: 0 <= i < j < |r| ==> LastUse(calls, r[i].key) > LastUse(calls, r[j].key)
  }

  lemma {:induction false} WithoutKeepsOrder(r: seq<Entry>, key: string, calls: seq<Call>)
    requires ByLastUse(r, calls) && DistinctKeys(r)
    ensures ByLastUse(Without(r, key), calls)
  {
    if r == [] || r[0].key == key {
    } else {
      assert r == [r[0]] + r[1..];
      assert forall i :: 1 <= i < |r| ==> r[1..][i - 1] == r[i];
      WithoutKeepsOrder(r[1..], key, calls);
      WithoutFacts(r[1..], key);
      var w := Without(r[1..], key);
      forall j | 0 <= j < |w| ensures LastUse(calls, r[0].key) > LastUse(calls, w[j].key) {
        assert w[j] in r[1..];
      }
    }
  }

  lemma PushKeepsOrder(base: seq<Entry>, e: Entry, front: seq<Call>, call: Call)
    requires ByLastUse(base, front) && !Has(base, e.key) && (call.Get? || call.Put?) && call.key == e.key
    ensures ByLastUse([e] + base, front + [call])
  {
    var calls := front + [call];
    assert calls[..|calls| - 1] == front;
    LastUseBoundAll(front);
    var r := [e] + base;
    forall i, j | 0 <= i < j < |r| ensures LastUse(calls, r[i].key) > LastUse(calls, r[j].key) {
      assert base[j - 1].key != e.key;
      assert i > 0 ==> base[i - 1].key != e.key && r[i] == base[i - 1];
    }
  }

  lemma LastUseBoundAll(calls: seq<Call>)
    ensures forall key :: LastUse(calls, key) <= |calls|
  {
    forall key ensures LastUse(calls, key) <= |calls| { LastUseBound(calls, key); }
  }

  lemma UnusedKeepsOrder(base: seq<Entry>, front: seq<Call>, call: Call)
    requires ByLastUse(base, front) && (call.Get? || call.Put? ==> !Has(base, call.key))
    ensures ByLastUse(base, front + [call])
  {
    assert (front + [call])[..|front|] == front;
    forall i | 0 <= i < |base| ensures LastUse(front + [call], base[i].key) == LastUse(front, base[i].key) {
    }
  }

  lemma CappedKeepsOrder(r: seq<Entry>, capacity: int, calls: seq<Call>)
    requires ByLastUse(r, calls)
    ensures ByLastUse(Capped(r, capacity), calls)
  {
  }

  lemma TouchKeepsOrder(r: seq<Entry>, capacity: int, front: seq<Call>, call: Call)
    requires DistinctKeys(r) && ByLastUse(r, front)
    ensures ByLastUse(Touch(r, capacity, call), front + [call])
  {
    if !call.Clear? {
      WithoutFacts(r, call.key);
      WithoutKeepsOrder(r, call.key, front);
      match call
      case Get(key) =>
        if Has(r, key) { PushKeepsOrder(Without(r, key), Entry(key, Lookup(r, key)), front, call); }
            else { UnusedKeepsOrder(r, front, call); }
      case Put(key, value) =>
        if Has(r, key) {
          PushKeepsOrder(Without(r, key), Entry(key, value), front, call);
        } else {
          PushKeepsOrder(r, Entry(key, value), front, call);
          CappedKeepsOrder([Entry(key, value)] + r, capacity, front + [call]);
        }
      case Remove(key) => UnusedKeepsOrder(Without(r, key), front, call);
      case Clear =>
    }
  }

  /** The list is always ordered by last use, so the entry dropped from its end is the least recently used one. */
  lemma {:induction false} ListIsByLastUse(capacity: int, calls: seq<Call>)
    ensures ByLastUse(Run(capacity, calls), calls)
  {
    if calls == [] {
    } else {
      var front := calls[..|calls| - 1];
      ListIsByLastUse(capacity, front);
      RunIsBounded(capacity, front);
      TouchKeepsOrder(Run(capacity, front), capacity, front, calls[|calls| - 1]);
      assert front + [calls[|calls| - 1]] == calls;
    }
  }

  // ---------- a key holds what was last put under it ----------

  lemma {:induction false} LookupUnique(r: seq<Entry>, e: Entry)
    requires DistinctKeys(r) && e in r
    ensures Has(r, e.key) && Lookup(r, e.key) == e.value
  {
    if r[0].key == e.key {
      SplitFirst(r);
    } else {
      SplitFirst(r);
      LookupUnique(r[1..], e);
      TailHas(r, e.key);
    }
  }

  /** The key is in the list with this value. */
  lemma HoldsIff(r: seq<Entry>, key: string, value: Bytes)
    requires DistinctKeys(r)
    ensures Has(r, key) && Lookup(r, key) == value <==> Entry(key, value) in r
  {
    if Has(r, key) { LookupFinds(r, key); }
    if Entry(key, value) in r { LookupUnique(r, Entry(key, value)); }
  }

  /** The entries after a call: the one it puts, and others that were there before. */
  lemma TouchedEntries(r: seq<Entry>, capacity: int, call: Call, e: Entry)
    requires DistinctKeys(r) && e in Touch(r, capacity, call)
    ensures call == Put(e.key, e.value) || (e in r && call != Clear && call != Remove(e.key)
        && !(call.Put? && call.key == e.key))
  {
    if !call.Clear? { WithoutFacts(r, call.key); }
    if call.Get? && Has(r, call.key) { LookupFinds(r, call.key); }
    if call.Put? && !Has(r, call.key) { MissingIsElsewhere(r, call.key); }
  }

  lemma MissingIsElsewhere(r: seq<Entry>, key: string)
    requires !Has(r, key)
    ensures forall e :: e in r ==> e.key != key
  {
    forall e | e in r ensures e.key != key {
      var i :| 0 <= i < |r| && r[i] == e;
      assert r[i].key == e.key;
    }
  }

  /** One more than the position of the last Put of the key; 0 if there is none. */
  function LastPut(calls: seq<Call>, key: string): nat {
    if calls == [] then 0
    else
      var last := calls[|calls| - 1];
      if last.Put? && last.key == key then |calls| else LastPut(calls[..|calls| - 1], key)
  }

  /** Call i puts the value under the key, and no later call puts or removes the key or clears the cache. */
  predicate PutLast(calls: seq<Call>, i: nat, key: string, value: Bytes) {
    && i < |calls| && calls[i] == Put(key, value)
    && forall j :: i < j < |calls| ==>
         calls[j] != Clear && !((calls[j].Put? || calls[j].Remove?) && calls[j].key == key)
  }

  lemma PutLastStays(front: seq<Call>, call: Call, key: string, value: Bytes)
    requires LastPut(front, key) > 0 && PutLast(front, LastPut(front, key) - 1, key, value)
    requires call != Clear && !((call.Put? || call.Remove?) && call.key == key)
    ensures LastPut(front + [call], key) == LastPut(front, key)
    ensures PutLast(front + [call], LastPut(front, key) - 1, key, value)
  {
    assert (front + [call])[..|front|] == front;
  }

  lemma PutLastNow(front: seq<Call>, key: string, value: Bytes)
    ensures LastPut(front + [Put(key, value)], key) == |front| + 1
    ensures PutLast(front + [Put(key, value)], |front|, key, value)
  {
  }

  lemma {:induction false} EntryIsLastPut(capacity: int, calls: seq<Call>, e: Entry)
    requires e in Run(capacity, calls)
    ensures LastPut(calls, e.key) > 0 && PutLast(calls, LastPut(calls, e.key) - 1, e.key, e.value)
  {
    if calls == [] {
    } else {
      var front, call := calls[..|calls| - 1], calls[|calls| - 1];
      assert calls == front + [call];
      RunIsBounded(capacity, front);
      TouchedEntries(Run(capacity, front), capacity, call, e);
      if call == Put(e.key, e.value) {
        PutLastNow(front, e.key, e.value);
      } else {
        EntryIsLastPut(capacity, front, e);
        PutLastStays(front, call, e.key, e.value);
      }
    }
  }

  /** Whatever the calls: a key the cache has holds the value of its last Put, and has not been removed since. */
  lemma HoldsLastPut(capacity: int, calls: seq<Call>, key: string)
    requires Has(Run(capacity, calls), key)
    ensures LastPut(calls, key) > 0
        && PutLast(calls, LastPut(calls, key) - 1, key, Lookup(Run(capacity, calls), key))
  {
    LookupFinds(Run(capacity, calls), key);
    EntryIsLastPut(capacity, calls, Entry(key, Lookup(Run(capacity, calls), key)));
  }

  /** What is left of r has the values it had. */
  ghost predicate Keeps(r: seq<Entry>, r': seq<Entry>, except: string) {
    forall key :: key != except && Has(r', key) ==> Has(r, key) && Lookup(r', key) == Lookup(r, key)
  }

  /** Nothing but the key has gone. */
  ghost predicate LosesNoneBut(r: seq<Entry>, r': seq<Entry>, except: string) {
    forall key :: key != except && Has(r, key) ==> Has(r', key)
  }

  lemma TouchKeeps(r: seq<Entry>, capacity: int, call: Call, except: string)
    requires DistinctKeys(r) && DistinctKeys(Touch(r, capacity, call)) && (call.Put? ==> call.key == except)
    ensures Keeps(r, Touch(r, capacity, call), except)
  {
    var r' := Touch(r, capacity, call);
    forall key | key != except && Has(r', key) ensures Has(r, key) && Lookup(r', key) == Lookup(r, key) {
      LookupFinds(r', key);
      TouchedEntries(r, capacity, call, Entry(key, Lookup(r', key)));
      HoldsIff(r, key, Lookup(r', key));
    }
  }

  lemma TouchDistinct(r: seq<Entry>, capacity: int, call: Call)
    requires DistinctKeys(r)
    ensures DistinctKeys(Touch(r, capacity, call))
  {
    if !call.Clear? { WithoutFacts(r, call.key); }
    match call
    case Get(key) => if Has(r, key) { ConsDistinct(Entry(key, Lookup(r, key)), Without(r, key)); }
    case Put(key, value) =>
      if Has(r, key) { ConsDistinct(Entry(key, value), Without(r, key)); }
      else { ConsDistinct(Entry(key, value), r); }
    case _ =>
  }

  /** Unless a new key finds the cache full, nothing goes but the key that is removed. */
  lemma TouchLoses(r: seq<Entry>, capacity: int, call: Call, except: string)
    requires DistinctKeys(r) && call != Clear && (call.Remove? ==> call.key == except)
    requires call.Put? ==> Has(r, call.key) || |r| < capacity
    ensures LosesNoneBut(r, Touch(r, capacity, call), except)
  {
    var r' := Touch(r, capacity, call);
    WithoutFacts(r, call.key);
    forall key | key != except && Has(r, key) ensures Has(r', key) {
      LookupFinds(r, key);
      var e := Entry(key, Lookup(r, key));
      if key == call.key {
        assert call.Get? || call.Put? ==> r'[0].key == key;
      } else {
        assert e in r';
        var i :| 0 <= i < |r'| && r'[i] == e;
        assert r'[i].key == key;
      }
    }
  }

  lemma PutFacts(r: seq<Entry>, capacity: int, key: string, value: Bytes)
    requires DistinctKeys(r)
    ensures var r' := Touch(r, capacity, Put(key, value));
            && (capacity > 0 ==> Has(r', key) && Lookup(r', key) == value)
            && Keeps(r, r', key)
            && (Has(r, key) || |r| < capacity ==> LosesNoneBut(r, r', key))
  {
    var put := Put(key, value);
    TouchDistinct(r, capacity, put);
    TouchKeeps(r, capacity, put, key);
    if Has(r, key) || |r| < capacity { TouchLoses(r, capacity, put, key); }
    if capacity > 0 { assert Touch(r, capacity, put)[0] == Entry(key, value); }
  }

  /** A full cache gives up exactly its last entry for a new key. */
  lemma FullLoses(r: seq<Entry>, capacity: int, key: string, value: Bytes)
    requires DistinctKeys(r) && !Has(r, key) && 0 < capacity == |r|
    ensures forall other :: other != key ==>
        (Has(Touch(r, capacity, Put(key, value)), other) <==> Has(r, other) && other != r[|r| - 1].key)
  {
    var r' := Touch(r, capacity, Put(key, value));
    assert r' == [Entry(key, value)] + r[..|r| - 1];
    forall other | other != key ensures Has(r', other) <==> Has(r, other) && other != r[|r| - 1].key {
      if i :| 0 <= i < |r'| && r'[i].key == other { assert r[i - 1].key == other; }
      if i :| 0 <= i < |r| && r[i].key == other && other != r[|r| - 1].key { assert r'[i + 1].key == other; }
    }
  }

  // ---------- a larger cache holds what a smaller one holds ----------

  /** small can be got from large by leaving entries out. */
  predicate Subsequence(small: seq<Entry>, large: seq<Entry>) {
    if small == [] then true
    else if large == [] then false
    else (small[0] == large[0] && Subsequence(small[1..], large[1..])) || Subsequence(small, large[1..])
  }

  lemma {:induction false} SubsequenceElements(small: seq<Entry>, large: seq<Entry>)
    requires Subsequence(small, large)
    ensures |small| <= |large| && forall e :: e in small ==> e in large
    decreases |large|
  {
    if small == [] {
    } else {
      if small[0] == large[0] && Subsequence(small[1..], large[1..]) {
        assert small == [small[0]] + small[1..] && large == [large[0]] + large[1..];
        SubsequenceElements(small[1..], large[1..]);
      } else {
        assert large == [large[0]] + large[1..];
        SubsequenceElements(small, large[1..]);
      }
    }
  }

  lemma {:induction false} SubsequenceOfSelf(r: seq<Entry>)
    ensures Subsequence(r, r)
  {
    if r == [] {
    } else {
      SubsequenceOfSelf(r[1..]);
    }
  }

  lemma {:induction false} SubsequenceWithout(small: seq<Entry>, large: seq<Entry>, key: string)
    requires Subsequence(small, large) && DistinctKeys(small) && DistinctKeys(large)
    ensures Subsequence(Without(small, key), Without(large, key))
    ensures !Has(small, key) ==> Subsequence(small, Without(large, key))
    decreases |large|
  {
    if small == [] {
    } else {
      if small[0] == large[0] && Subsequence(small[1..], large[1..]) {
        TailDistinct(small);
        TailDistinct(large);
        SubsequenceWithout(small[1..], large[1..], key);
        TailHas(small, key);
      } else {
        TailDistinct(large);
        SubsequenceWithout(small, large[1..], key);
        SkipWithout(small, large, key);
      }
    }
  }

  lemma TailDistinct(r: seq<Entry>)
    requires DistinctKeys(r) && r != []
    ensures DistinctKeys(r[1..])
  {
  }

  lemma TailHas(r: seq<Entry>, key: string)
    requires r != []
    ensures Has(r, key) <==> r[0].key == key || Has(r[1..], key)
  {
    assert r == [r[0]] + r[1..];
    if i :| 0 <= i < |r[1..]| && r[1..][i].key == key { assert r[i + 1].key == key; }
    if i :| 0 <= i < |r| && r[i].key == key { assert i > 0 ==> r[1..][i - 1].key == key; }
  }

  lemma SkipWithout(small: seq<Entry>, large: seq<Entry>, key: string)
    requires large != [] && DistinctKeys(small) && Subsequence(small, large[1..])
    requires Subsequence(Without(small, key), Without(large[1..], key))
    requires !Has(small, key) ==> Subsequence(small, Without(large[1..], key))
    ensures Subsequence(Without(small, key), Without(large, key))
    ensures !Has(small, key) ==> Subsequence(small, Without(large, key))
  {
    if large[0].key != key {
      assert Without(large, key)[1..] == Without(large[1..], key);
    } else {
      WithoutIsSubsequence(large[1..], key);
      SubsequenceTransitive(Without(small, key), Without(large[1..], key), large[1..]);
    }
  }

  lemma {:induction false} WithoutIsSubsequence(r: seq<Entry>, key: string)
    ensures Subsequence(Without(r, key), r)
  {
    if r == [] {
    } else {
      if r[0].key == key {
        SubsequenceOfSelf(r[1..]);
      } else {
        WithoutIsSubsequence(r[1..], key);
        assert Without(r, key)[1..] == Without(r[1..], key);
      }
    }
  }

  lemma {:induction false} SubsequenceTransitive(a: seq<Entry>, b: seq<Entry>, c: seq<Entry>)
    requires Subsequence(a, b) && Subsequence(b, c)
    ensures Subsequence(a, c)
    decreases |b| + |c|
  {
    if a == [] || b == [] {
    } else {
      if b[0] == c[0] && Subsequence(b[1..], c[1..]) {
        if a[0] == b[0] && Subsequence(a[1..], b[1..]) {
          SubsequenceTransitive(a[1..], b[1..], c[1..]);
        } else {
          SubsequenceTransitive(a, b[1..], c[1..]);
        }
      } else {
        SubsequenceTransitive(a, b, c[1..]);
      }
    }
  }

  lemma {:induction false} DropLasts(small: seq<Entry>, large: seq<Entry>)
    requires Subsequence(small, large) && small != []
    ensures large != [] && Subsequence(small[..|small| - 1], large[..|large| - 1])
    decreases |large|
  {
    if small[0] == large[0] && Subsequence(small[1..], large[1..]) {
      if |small| > 1 {
        DropLasts(small[1..], large[1..]);
        assert small[..|small| - 1][1..] == small[1..][..|small| - 2];
        assert large[..|large| - 1][1..] == large[1..][..|large| - 2];
      }
    } else {
      DropLasts(small, large[1..]);
      assert large[..|large| - 1][1..] == large[1..][..|large| - 2];
    }
  }

  lemma {:induction false} DropSmallLast(small: seq<Entry>, large: seq<Entry>)
    requires Subsequence(small, large) && small != []
    ensures Subsequence(small[..|small| - 1], large)
    decreases |large|
  {
    if small[0] == large[0] && Subsequence(small[1..], large[1..]) {
      if |small| > 1 {
        DropSmallLast(small[1..], large[1..]);
        assert small[..|small| - 1][1..] == small[1..][..|small| - 2];
      }
    } else {
      DropSmallLast(small, large[1..]);
    }
  }

  /**
   * The larger cache is at most as much fuller as it is bigger; so when it has to evict, the smaller one has to as
   * well.
   */
  predicate Included(small: seq<Entry>, large: seq<Entry>, c1: int, c2: int) {
    && DistinctKeys(small) && DistinctKeys(large)
    && Subsequence(small, large)
    && |small| <= Room(c1) && |large| <= Room(c2)
    && |large| - |small| <= Room(c2) - Room(c1)
  }

  lemma SameLookup(small: seq<Entry>, large: seq<Entry>, key: string)
    requires Subsequence(small, large) && DistinctKeys(large) && Has(small, key)
    ensures Has(large, key) && Lookup(small, key) == Lookup(large, key)
  {
    SubsequenceElements(small, large);
    LookupFinds(small, key);
    var i :| 0 <= i < |large| && large[i] == Entry(key, Lookup(small, key));
    assert large[i].key == key;
    LookupFinds(large, key);
  }

  lemma ConsSubsequence(e: Entry, small: seq<Entry>, large: seq<Entry>)
    requires Subsequence(small, large)
    ensures Subsequence([e] + small, [e] + large)
  {
    assert ([e] + small)[1..] == small && ([e] + large)[1..] == large;
  }

  lemma ConsDistinct(e: Entry, r: seq<Entry>)
    requires DistinctKeys(r) && !Has(r, e.key)
    ensures DistinctKeys([e] + r)
  {
  }

  lemma PushIncluded(e: Entry, small: seq<Entry>, large: seq<Entry>, c1: int, c2: int)
    requires Included(small, large, c1, c2) && Room(c1) <= Room(c2) && !Has(small, e.key) && !Has(large, e.key)
    ensures Included(Capped([e] + small, c1), Capped([e] + large, c2), c1, c2)
  {
    var s, l := [e] + small, [e] + large;
    ConsSubsequence(e, small, large);
    ConsDistinct(e, small);
    ConsDistinct(e, large);
    DropLasts(s, l);
    DropSmallLast(s, l);
  }

  lemma PushOnSmall(e: Entry, small: seq<Entry>, large: seq<Entry>, c1: int, c2: int)
    requires Included(small, large, c1, c2) && Room(c1) <= Room(c2) && !Has(small, e.key) && Has(large, e.key)
    ensures Included(Capped([e] + small, c1), [e] + Without(large, e.key), c1, c2)
  {
    SubsequenceWithout(small, large, e.key);
    WithoutFacts(large, e.key);
    ConsSubsequence(e, small, Without(large, e.key));
    ConsDistinct(e, small);
    ConsDistinct(e, Without(large, e.key));
    DropSmallLast([e] + small, [e] + Without(large, e.key));
  }

  lemma MoveIncluded(e: Entry, small: seq<Entry>, large: seq<Entry>, c1: int, c2: int)
    requires Included(small, large, c1, c2) && Has(small, e.key) && Has(large, e.key)
    ensures Included([e] + Without(small, e.key), [e] + Without(large, e.key), c1, c2)
  {
    SubsequenceWithout(small, large, e.key);
    WithoutFacts(small, e.key);
    WithoutFacts(large, e.key);
    ConsDistinct(e, Without(small, e.key));
    ConsDistinct(e, Without(large, e.key));
    ConsSubsequence(e, Without(small, e.key), Without(large, e.key));
  }

  lemma GetInLarge(small: seq<Entry>, large: seq<Entry>, c1: int, c2: int, key: string)
    requires Included(small, large, c1, c2) && !Has(small, key) && Has(large, key)
    ensures Included(small, [Entry(key, Lookup(large, key))] + Without(large, key), c1, c2)
  {
    SubsequenceWithout(small, large, key);
    WithoutFacts(large, key);
    ConsDistinct(Entry(key, Lookup(large, key)), Without(large, key));
    var l := [Entry(key, Lookup(large, key))] + Without(large, key);
    assert l[1..] == Without(large, key);
  }

  lemma NotHas(r: seq<Entry>, key: string)
    requires !Has(r, key)
    ensures forall i :: 0 <= i < |r| ==> r[i].key != key
  {
  }

  lemma TouchKeepsIncluded(small: seq<Entry>, large: seq<Entry>, c1: int, c2: int, call: Call)
    requires Included(small, large, c1, c2) && Room(c1) <= Room(c2)
    ensures Included(Touch(small, c1, call), Touch(large, c2, call), c1, c2)
  {
    match call
    case Get(key) =>
      if Has(small, key) {
        SameLookup(small, large, key);
        MoveIncluded(Entry(key, Lookup(small, key)), small, large, c1, c2);
      } else if Has(large, key) {
        GetInLarge(small, large, c1, c2, key);
      }
    case Put(key, value) =>
      if Has(small, key) {
        SameLookup(small, large, key);
        MoveIncluded(Entry(key, value), small, large, c1, c2);
      } else if Has(large, key) {
        PushOnSmall(Entry(key, value), small, large, c1, c2);
      } else {
        PushIncluded(Entry(key, value), small, large, c1, c2);
      }
    case Remove(key) =>
      if Has(small, key) { SameLookup(small, large, key); }
      SubsequenceWithout(small, large, key);
      WithoutFacts(small, key);
      WithoutFacts(large, key);
    case Clear =>
  }

  /**
   * Whatever calls two caches have in common, the smaller one's list is a subsequence, values included, of the larger
   * one's.
   */
  lemma {:induction false} LargerCacheIncludes(c1: int, c2: int, calls: seq<Call>)
    requires c1 <= c2
    ensures Included(Run(c1, calls), Run(c2, calls), c1, c2)
  {
    if calls == [] {
    } else {
      LargerCacheIncludes(c1, c2, calls[..|calls| - 1]);
      TouchKeepsIncluded(Run(c1, calls[..|calls| - 1]), Run(c2, calls[..|calls| - 1]), c1, c2, calls[|calls| - 1]);
    }
  }

  // ---------- the cache itself ----------

  class Element {
    const key: string
    var value: Bytes

    constructor (key: string, value: Bytes)
      ensures this.key == key && this.value == value
    {
      this.key, this.value := key, value;
    }
  }

  function Cut<T>(s: seq<T>, i: nat): seq<T>
    requires i < |s|
  {
    s[..i] + s[i + 1..]
  }

  /** Map and list hold the same elements, each under its own key; r is what a reader of the list sees. */
  ghost predicate Mirrors(items: map<string, Element>, list: seq<Element>, r: seq<Entry>) {
    && |list| == |r| && DistinctKeys(r)
    && (forall i :: 0 <= i < |r| ==> list[i].key == r[i].key && r[i].key in items && items[r[i].key] == list[i])
    && (forall key {:trigger Has(r, key)} :: key in items ==> Has(r, key))
  }

  lemma CutTail<T>(s: seq<T>, i: nat)
    requires 0 < i < |s|
    ensures s[1..][i - 1] == s[i] && Cut(s, i) == [s[0]] + Cut(s[1..], i - 1)
  {
  }

  lemma {:induction false} CutIsWithout(r: seq<Entry>, i: nat)
    requires i < |r| && DistinctKeys(r)
    ensures Without(r, r[i].key) == Cut(r, i)
    ensures Has(r, r[i].key) && Lookup(r, r[i].key) == r[i].value
  {
    if i == 0 {
    } else {
      TailDistinct(r);
      CutIsWithout(r[1..], i - 1);
      CutTail(r, i);
      TailHas(r, r[i].key);
    }
  }

  lemma {:induction false} WithoutMissing(r: seq<Entry>, key: string)
    requires !Has(r, key)
    ensures Without(r, key) == r
  {
    if r == [] {
    } else {
      NotHas(r, key);
      assert r == [r[0]] + r[1..];
      WithoutMissing(r[1..], key);
    }
  }

  lemma CutHas(r: seq<Entry>, i: nat, key: string)
    requires i < |r| && Has(r, key) && key != r[i].key
    ensures Has(Cut(r, i), key)
  {
    var j :| 0 <= j < |r| && r[j].key == key;
    assert Cut(r, i)[if j < i then j else j - 1].key == key;
  }

  lemma CutMirrors(items: map<string, Element>, list: seq<Element>, r: seq<Entry>, i: nat)
    requires Mirrors(items, list, r) && i < |r|
    ensures Mirrors(items - {r[i].key}, Cut(list, i), Cut(r, i))
  {
    forall key | key in items && key != r[i].key ensures Has(Cut(r, i), key) {
      assert Has(r, key);
      CutHas(r, i, key);
    }
  }

  lemma PushMirrors(items: map<string, Element>, list: seq<Element>, r: seq<Entry>, e: Element, entry: Entry)
    requires Mirrors(items, list, r) && e.key == entry.key && e.key !in items
    ensures Mirrors(items[e.key := e], [e] + list, [entry] + r)
  {
    var r' := [entry] + r;
    assert r'[0].key == e.key;
    forall key | key in items ensures Has(r', key) {
      assert Has(r, key);
      var j :| 0 <= j < |r| && r[j].key == key;
      assert r'[j + 1].key == key;
    }
  }

  lemma MoveMirrors(items: map<string, Element>, list: seq<Element>, r: seq<Entry>, i: nat, entry: Entry)
    requires Mirrors(items, list, r) && i < |r| && entry.key == r[i].key
    ensures Mirrors(items, [list[i]] + Cut(list, i), [entry] + Cut(r, i))
  {
    CutMirrors(items, list, r, i);
    PushMirrors(items - {r[i].key}, Cut(list, i), Cut(r, i), list[i], entry);
    Common.RemoveThenPut(items, r[i].key, items[r[i].key]);
    Common.PutSame(items, r[i].key);
  }

  /** Giving the first element another value changes nothing else the list shows. */
  lemma HeadMirrors(items: map<string, Element>, list: seq<Element>, r: seq<Entry>, value: Bytes)
    requires Mirrors(items, list, r) && r != []
    ensures Mirrors(items, list, r[0 := Entry(r[0].key, value)])
    ensures forall i :: 1 <= i < |list| ==> list[i] != list[0]
  {
    var r' := r[0 := Entry(r[0].key, value)];
    forall key | key in items ensures Has(r', key) {
      assert Has(r, key);
      var j :| 0 <= j < |r| && r[j].key == key;
      assert r'[j].key == key;
    }
  }

  /** The elements hold the values r shows. */
  ghost predicate Shown(list: seq<Element>, r: seq<Entry>, nodes: set<Element>)
    reads nodes
  {
    |list| == |r| && forall i :: 0 <= i < |list| ==> list[i] in nodes && list[i].value == r[i].value
  }

  lemma CutShown(list: seq<Element>, r: seq<Entry>, nodes: set<Element>, i: nat)
    requires Shown(list, r, nodes) && i < |list|
    ensures Shown(Cut(list, i), Cut(r, i), nodes) && Shown([list[i]] + Cut(list, i), [r[i]] + Cut(r, i), nodes)
  {
  }

  class LruCache {
    const capacity: int
    var items: map<string, Element>
    var list: seq<Element>
    ghost var entries: seq<Entry>
    ghost var nodes: set<Element>

    /** entries is what the list holds, and nodes includes its elements. */
    ghost predicate Valid()
      reads this, nodes
    {
      Mirrors(items, list, entries) && Shown(list, entries, nodes)
    }

    constructor (capacity: int)
      ensures Valid() && entries == [] && nodes == {} && this.capacity == capacity
    {
      this.capacity := capacity;
      items, list, entries, nodes := map[], [], [], {};
    }

    /** Where the element of the key stands in the list. */
    method Find(key: string) returns (i: nat)
      requires Valid() && key in items
      ensures i < |list| && list[i] == items[key] && entries[i].key == key
    {
      assert Has(entries, key);
      i := 0;
      while list[i] != items[key]
        invariant 0 <= i < |list| && forall j :: 0 <= j < i ==> list[j] != items[key]
        decreases |list| - i
      {
        assert exists j :: i < j < |list| && entries[j].key == key;
        i := i + 1;
      }
    }

    lemma HasIffInItems(key: string)
      requires Valid()
      ensures Has(entries, key) <==> key in items
    {
      if Has(entries, key) {
        var i :| 0 <= i < |entries| && entries[i].key == key;
      }
    }

    /** list.MoveToFront, for the element of the key. */
    method MoveToFront(key: string)
      requires Valid() && key in items
      modifies this`list, this`entries
      ensures Valid() && list != [] && list[0] == items[key] && Has(old(entries), key)
      ensures entries == [Entry(key, Lookup(old(entries), key))] + Without(old(entries), key)
    {
      var i := Find(key);
      CutIsWithout(entries, i);
      MoveMirrors(items, list, entries, i, entries[i]);
      CutShown(list, entries, nodes, i);
      list, entries := [items[key]] + Cut(list, i), [entries[i]] + Cut(entries, i);
    }

    /** Get: a hit moves the element to the front. */
    method Get(key: string) returns (value: Bytes, found: bool)
      requires Valid()
      modifies this`list, this`entries
      ensures Valid() && entries == Touch(old(entries), capacity, Call.Get(key))
      ensures found == Has(old(entries), key)
      ensures found ==> value == Lookup(old(entries), key)
      ensures Has(entries, key) == found && (found ==> Lookup(entries, key) == value)
      ensures Keeps(old(entries), entries, key) && LosesNoneBut(old(entries), entries, key)
    {
      TouchDistinct(entries, capacity, Call.Get(key));
      TouchKeeps(entries, capacity, Call.Get(key), key);
      TouchLoses(entries, capacity, Call.Get(key), key);
      HasIffInItems(key);
      if key !in items { return [], false; }
      MoveToFront(key);
      assert entries[0].key == key;
      return items[key].value, true;
    }

    /** Put, evicting when a new entry is one too many. */
    method Put(key: string, value: Bytes)
      requires Valid()
      modifies this, nodes
      ensures Valid() && fresh(nodes - old(nodes))
      ensures entries == Touch(old(entries), capacity, Call.Put(key, value))
      ensures capacity > 0 ==> Has(entries, key) && Lookup(entries, key) == value
      ensures Keeps(old(entries), entries, key)
      ensures Has(old(entries), key) || |old(entries)| < capacity ==> LosesNoneBut(old(entries), entries, key)
    {
      PutFacts(entries, capacity, key, value);
      HasIffInItems(key);
      if key in items {
        Overwrite(key, value);
      } else {
        Add(key, value);
      }
    }

    method Overwrite(key: string, value: Bytes)
      requires Valid() && key in items
      modifies this`list, this`entries, nodes
      ensures Valid() && entries == [Entry(key, value)] + Without(old(entries), key)
    {
      MoveToFront(key);
      HeadMirrors(items, list, entries, value);
      var element := list[0];
      element.value := value;
      entries := entries[0 := Entry(key, value)];
    }

    method Add(key: string, value: Bytes)
      requires Valid() && key !in items
      modifies this
      ensures Valid() && fresh(nodes - old(nodes))
      ensures entries == Capped([Entry(key, value)] + old(entries), capacity)
    {
      var element := new Element(key, value);
      PushMirrors(items, list, entries, element, Entry(key, value));
      list, entries, nodes := [element] + list, [Entry(key, value)] + entries, nodes + {element};
      items := items[key := element];
      if |list| > capacity {
        Evict();
      }
    }

    /** evict: the element at the back goes. */
    method Evict()
      requires Valid()
      modifies this`items, this`list, this`entries
      ensures Valid() && entries == if old(entries) == [] then [] else old(entries)[..|old(entries)| - 1]
    {
      if |list| != 0 {
        var last := |list| - 1;
        CutMirrors(items, list, entries, last);
        assert Cut(list, last) == list[..last] && Cut(entries, last) == entries[..last];
        items := items - {list[last].key};
        list, entries := list[..last], entries[..last];
      }
    }

    /** Remove. */
    method Remove(key: string)
      requires Valid()
      modifies this`items, this`list, this`entries
      ensures Valid() && entries == Touch(old(entries), capacity, Call.Remove(key))
      ensures !Has(entries, key) && Keeps(old(entries), entries, key) && LosesNoneBut(old(entries), entries, key)
    {
      WithoutFacts(entries, key);
      TouchKeeps(entries, capacity, Call.Remove(key), key);
      TouchLoses(entries, capacity, Call.Remove(key), key);
      HasIffInItems(key);
      if key in items {
        var i := Find(key);
        CutIsWithout(entries, i);
        CutMirrors(items, list, entries, i);
        CutShown(list, entries, nodes, i);
        list, entries := Cut(list, i), Cut(entries, i);
        items := items - {key};
      } else {
        WithoutMissing(entries, key);
      }
    }

    /** Clear. */
    method Clear()
      requires Valid()
      modifies this`items, this`list, this`entries
      ensures Valid() && entries == Touch(old(entries), capacity, Call.Clear) && entries == []
    {
      items, list, entries := map[], [], [];
    }

    /** Keys: most recently used first. */
    method Keys() returns (keys: seq<string>)
      requires Valid()
      ensures |keys| == |entries| && forall i :: 0 <= i < |keys| ==> keys[i] == entries[i].key
    {
      keys := [];
      for i := 0 to |list|
        invariant |keys| == i && forall k :: 0 <= k < i ==> keys[k] == list[k].key
      {
        keys := keys + [list[i].key];
      }
    }
  }
}
