/** The generators of entity ids: every id they print passes their own validator, and no id is given out twice. */
module IdGenerators {
  import opened Common
  import opened Numerals
  import opened IdFormats
  import opened Engines
  import Persistence

  // ---------- printing bytes ----------

  function HighNibble(b: bv8): nat { (b >> 4) as int }
  function LowNibble(b: bv8): nat { (b & 15) as int }

  lemma Nibbles(b: bv8)
    ensures HighNibble(b) < 16 && LowNibble(b) < 16
  {
    assert b >> 4 < 16 && b & 15 < 16;
  }

  function FromNibbles(high: nat, low: nat): bv8
    requires high < 16 && low < 16
  {
    ((high as bv8) << 4) | (low as bv8)
  }

  lemma NibblesSuffice(b: bv8)
    ensures HighNibble(b) < 16 && LowNibble(b) < 16 && FromNibbles(HighNibble(b), LowNibble(b)) == b
  {
    Nibbles(b);
    assert (b >> 4) as int as bv8 == b >> 4;
    assert (b & 15) as int as bv8 == b & 15;
  }

  /** What %x prints for one byte. */
  function HexByte(b: bv8): (s: string)
    ensures |s| == 2 && LowerHex(s[0]) && LowerHex(s[1])
  {
    Nibbles(b);
    [DigitChar(HighNibble(b)), DigitChar(LowNibble(b))]
  }

  function Hex(bytes: seq<bv8>): (s: string)
    ensures |s| == 2 * |bytes| && forall i :: 0 <= i < |s| ==> LowerHex(s[i])
  {
    if bytes == [] then "" else Hex(bytes[..|bytes| - 1]) + HexByte(bytes[|bytes| - 1])
  }

  lemma {:induction false} HexAt(bytes: seq<bv8>, i: nat)
    requires i < |bytes|
    ensures Hex(bytes)[2 * i] == HexByte(bytes[i])[0] && Hex(bytes)[2 * i + 1] == HexByte(bytes[i])[1]
  {
    if i == |bytes| - 1 {
    } else {
      HexAt(bytes[..|bytes| - 1], i);
    }
  }

  // ---------- UUID ----------

  /** Formatting 16 bytes in groups of 4, 2, 2, 2 and 6. */
  function FormatUuid(u: seq<bv8>): string
    requires |u| == 16
  {
    Hex(u[0..4]) + "-" + Hex(u[4..6]) + "-" + Hex(u[6..8]) + "-" + Hex(u[8..10]) + "-" + Hex(u[10..16])
  }

  /** Version and variant bits as section 4.4 of RFC 4122 asks. */
  function Stamp(u: seq<bv8>): seq<bv8>
    requires |u| == 16
  {
    u[6 := (u[6] & 0x0f) | 0x40][8 := (u[8] & 0x3f) | 0x80]
  }

  lemma StampBits(b: bv8)
    ensures HighNibble((b & 0x0f) | 0x40) == 4
    ensures 8 <= HighNibble((b & 0x3f) | 0x80) <= 11
    ensures HexByte((b & 0x0f) | 0x40)[0] == '4' && VariantDigit(HexByte((b & 0x3f) | 0x80)[0])
  {
    assert ((b & 0x0f) | 0x40) >> 4 == 4;
    assert 8 <= ((b & 0x3f) | 0x80) >> 4 <= 11;
  }

  lemma UuidGroups(u: seq<bv8>)
    requires |u| == 16
    ensures |FormatUuid(u)| == 36
    ensures FormatUuid(u)[0..8] == Hex(u[0..4]) && FormatUuid(u)[9..13] == Hex(u[4..6])
    ensures FormatUuid(u)[14..18] == Hex(u[6..8]) && FormatUuid(u)[19..23] == Hex(u[8..10])
    ensures FormatUuid(u)[24..36] == Hex(u[10..16])
    ensures FormatUuid(u)[8] == FormatUuid(u)[13] == FormatUuid(u)[18] == FormatUuid(u)[23] == '-'
  {
  }

  predicate VariantDigit(c: char) { c == '8' || c == '9' || c == 'a' || c == 'b' }

  lemma FormattedUuidMatches(u: seq<bv8>)
    requires |u| == 16 && HexByte(u[6])[0] == '4' && VariantDigit(HexByte(u[8])[0])
    ensures MatchesUuid(FormatUuid(u))
  {
    var id := FormatUuid(u);
    UuidGroups(u);
    HexAt(u[6..8], 0);
    HexAt(u[8..10], 0);
    assert id[14] == id[14..18][0] && id[19] == id[19..23][0];
    forall i | 0 <= i < 36 ensures UuidCharAt(i, id[i]) && LowerChar(id[i]) == id[i] {
      assert i < 8 ==> id[i] == id[0..8][i];
      assert 9 <= i < 13 ==> id[i] == id[9..13][i - 9];
      assert 14 <= i < 18 ==> id[i] == id[14..18][i - 14];
      assert 19 <= i < 23 ==> id[i] == id[19..23][i - 19];
      assert 24 <= i ==> id[i] == id[24..36][i - 24];
    }
  }

  lemma StampedUuidMatches(u: seq<bv8>)
    requires |u| == 16
    ensures MatchesUuid(FormatUuid(Stamp(u)))
  {
    StampBits(u[6]);
    StampBits(u[8]);
    FormattedUuidMatches(Stamp(u));
  }

  /** NewUUIDGenerator().GenerateID, given what the random source answers. */
  method GenerateUuid(random: seq<bv8>) returns (id: string)
    requires |random| == 16
    ensures id == FormatUuid(Stamp(random)) && MatchesUuid(id)
  {
    var uuid := new bv8[16](i requires 0 <= i < 16 => random[i]);
    uuid[6] := (uuid[6] & 0x0f) | 0x40;
    uuid[8] := (uuid[8] & 0x3f) | 0x80;
    assert uuid[..] == Stamp(random);
    StampedUuidMatches(random);
    id := FormatUuid(uuid[..]);
  }

  lemma DigitInjective(d: nat, e: nat)
    requires d < 16 && e < 16 && DigitChar(d) == DigitChar(e)
    ensures d == e
  {
  }

  lemma HexByteInjective(a: bv8, b: bv8)
    requires HexByte(a) == HexByte(b)
    ensures a == b
  {
    NibblesSuffice(a);
    NibblesSuffice(b);
    assert HexByte(a)[0] == HexByte(b)[0] && HexByte(a)[1] == HexByte(b)[1];
    DigitInjective(HighNibble(a), HighNibble(b));
    DigitInjective(LowNibble(a), LowNibble(b));
  }

  lemma {:induction false} HexInjective(a: seq<bv8>, b: seq<bv8>)
    requires |a| == |b| && Hex(a) == Hex(b)
    ensures a == b
  {
    forall i | 0 <= i < |a| ensures a[i] == b[i] {
      HexAt(a, i);
      HexAt(b, i);
      HexByteInjective(a[i], b[i]);
    }
  }

  lemma Regroup(u: seq<bv8>)
    requires |u| == 16
    ensures u == u[0..4] + u[4..6] + u[6..8] + u[8..10] + u[10..16]
  {
  }

  /** The printed id keeps every byte, so two generated UUIDs are equal only if all their random bits are. */
  lemma UuidInjective(a: seq<bv8>, b: seq<bv8>)
    requires |a| == 16 && |b| == 16 && FormatUuid(a) == FormatUuid(b)
    ensures a == b
  {
    UuidGroups(a);
    UuidGroups(b);
    HexInjective(a[0..4], b[0..4]);
    HexInjective(a[4..6], b[4..6]);
    HexInjective(a[6..8], b[6..8]);
    HexInjective(a[8..10], b[8..10]);
    HexInjective(a[10..16], b[10..16]);
    Regroup(a);
    Regroup(b);
  }

  /** The bytes agree but for the four bits of the version and the two of the variant. */
  predicate SameRandomBits(a: seq<bv8>, b: seq<bv8>)
    requires |a| == |b| == 16
  {
    && (forall i :: 0 <= i < 16 && i != 6 && i != 8 ==> a[i] == b[i])
    && a[6] & 0x0f == b[6] & 0x0f && a[8] & 0x3f == b[8] & 0x3f
  }

  lemma StampedBitsIff(a: bv8, b: bv8)
    ensures (a & 0x0f) | 0x40 == (b & 0x0f) | 0x40 <==> a & 0x0f == b & 0x0f
    ensures (a & 0x3f) | 0x80 == (b & 0x3f) | 0x80 <==> a & 0x3f == b & 0x3f
  {
  }

  lemma StampIff(a: seq<bv8>, b: seq<bv8>)
    requires |a| == |b| == 16
    ensures Stamp(a) == Stamp(b) <==> SameRandomBits(a, b)
  {
    StampedBitsIff(a[6], b[6]);
    StampedBitsIff(a[8], b[8]);
    assert Stamp(a)[6] == (a[6] & 0x0f) | 0x40 && Stamp(b)[6] == (b[6] & 0x0f) | 0x40;
    assert Stamp(a)[8] == (a[8] & 0x3f) | 0x80 && Stamp(b)[8] == (b[8] & 0x3f) | 0x80;
    assert forall i :: 0 <= i < 16 && i != 6 && i != 8 ==> Stamp(a)[i] == a[i] && Stamp(b)[i] == b[i];
  }

  /** Generated UUIDs are equal exactly if the random source has answered the same 122 bits. */
  lemma GeneratedUuidsEqualIff(a: seq<bv8>, b: seq<bv8>)
    requires |a| == |b| == 16
    ensures FormatUuid(Stamp(a)) == FormatUuid(Stamp(b)) <==> SameRandomBits(a, b)
  {
    StampIff(a, b);
    if FormatUuid(Stamp(a)) == FormatUuid(Stamp(b)) { UuidInjective(Stamp(a), Stamp(b)); }
  }

  // ---------- CUID ----------

  const TWO_32 := 0x1_0000_0000

  /** strconv.FormatInt(n, 36). */
  function Base36(n: int): string {
    if n < 0 then "-" + Print(-n, 36) else Print(n, 36)
  }

  function FormatCuid(millis: int, count: nat, random: seq<bv8>, fingerprint: seq<bv8>): string {
    "c" + Base36(millis) + Print(count, 36) + Hex(random) + Hex(fingerprint)
  }

  lemma PrintIsCuidChars(n: nat)
    ensures Print(n, 36) != [] && forall i :: 0 <= i < |Print(n, 36)| ==> CuidChar(Print(n, 36)[i])
  {
    PrintDigits(n, 36);
  }

  /** A generated CUID passes its validator exactly when the clock is not before 1970. */
  lemma CuidMatchesIff(millis: int, count: nat, random: seq<bv8>, fingerprint: seq<bv8>)
    requires |random| == 8 && |fingerprint| == 3
    ensures MatchesCuid(FormatCuid(millis, count, random, fingerprint)) <==> millis >= 0
  {
    var id := FormatCuid(millis, count, random, fingerprint);
    PrintIsCuidChars(if millis < 0 then -millis else millis);
    PrintIsCuidChars(count);
    if millis < 0 {
      assert Base36(millis)[0] == '-';
      assert id[1] == '-';
    } else {
      var a := 1 + |Base36(millis)|;
      var b := a + |Print(count, 36)|;
      forall i | 1 <= i < |id| ensures CuidChar(id[i]) {
        assert i < a ==> id[i] == Base36(millis)[i - 1];
        assert a <= i < b ==> id[i] == Print(count, 36)[i - a];
        assert b <= i < b + 16 ==> id[i] == Hex(random)[i - b];
        assert b + 16 <= i ==> id[i] == Hex(fingerprint)[i - b - 16];
      }
    }
  }

  /** The pattern's bound of 24 cannot be raised. */
  lemma CuidBoundIsTight(random: seq<bv8>, fingerprint: seq<bv8>)
    requires |random| == 8 && |fingerprint| == 3
    ensures |FormatCuid(0, 1, random, fingerprint)| == 1 + 24
  {
  }

  lemma SameTails(a: string, b: string, s: string, t: string)
    requires a + s == b + t && |s| == |t|
    ensures a == b && s == t
  {
    assert |a| == |b|;
    assert (a + s)[..|a|] == a && (b + t)[..|b|] == b;
    assert (a + s)[|a|..] == s && (b + t)[|b|..] == t;
  }

  lemma SameHeads(head: string, a: string, b: string)
    requires head + a == head + b
    ensures a == b
  {
    assert (head + a)[|head|..] == a && (head + b)[|head|..] == b;
  }

  /** Equal CUIDs have the same random part and fingerprint and, if made in one millisecond, the same count. */
  lemma CuidsDiffer(millis1: int, count1: nat, random1: seq<bv8>, print1: seq<bv8>, millis2: int, count2: nat,
      random2: seq<bv8>, print2: seq<bv8>)
    requires |random1| == |random2| == 8 && |print1| == |print2| == 3
    requires FormatCuid(millis1, count1, random1, print1) == FormatCuid(millis2, count2, random2, print2)
    ensures random1 == random2 && print1 == print2
    ensures millis1 == millis2 <==> count1 == count2
  {
    var head1, head2 := "c" + Base36(millis1) + Print(count1, 36), "c" + Base36(millis2) + Print(count2, 36);
    SameTails(head1 + Hex(random1), head2 + Hex(random2), Hex(print1), Hex(print2));
    SameTails(head1, head2, Hex(random1), Hex(random2));
    HexInjective(random1, random2);
    HexInjective(print1, print2);
    if millis1 == millis2 {
      SameHeads("c" + Base36(millis1), Print(count1, 36), Print(count2, 36));
      PrintInjective(count1, count2, 36);
    }
    if count1 == count2 {
      SameTails("c" + Base36(millis1), "c" + Base36(millis2), Print(count1, 36), Print(count2, 36));
      SameHeads("c", Base36(millis1), Base36(millis2));
      Base36Injective(millis1, millis2);
    }
  }

  lemma Base36Injective(m: int, n: int)
    requires Base36(m) == Base36(n)
    ensures m == n
  {
    PrintIsCuidChars(if m < 0 then -m else m);
    PrintIsCuidChars(if n < 0 then -n else n);
    assert m < 0 ==> Base36(m)[0] == '-';
    assert n < 0 ==> Base36(n)[0] == '-';
    if m < 0 {
      SameHeads("-", Print(-m, 36), Print(-n, 36));
      PrintInjective(-m, -n, 36);
    } else {
      PrintInjective(m, n, 36);
    }
  }

  class CuidGenerator {
    var counter: nat

    ghost predicate Valid() reads this { counter < TWO_32 }

    constructor ()
      ensures Valid() && counter == 0
    {
      counter := 0;
    }

    /** GenerateID at the given time; the counter is a 32-bit integer and wraps around. */
    method GenerateID(millis: int, random: seq<bv8>, fingerprint: seq<bv8>) returns (id: string)
      requires Valid() && |random| == 8 && |fingerprint| == 3
      modifies this
      ensures Valid() && counter == (old(counter) + 1) % TWO_32
      ensures id == FormatCuid(millis, counter, random, fingerprint)
      ensures millis >= 0 ==> MatchesCuid(id)
    {
      counter := (counter + 1) % TWO_32;
      id := FormatCuid(millis, counter, random, fingerprint);
      CuidMatchesIff(millis, counter, random, fingerprint);
    }
  }

  // ---------- auto-increment ----------

  /** The deleted ids that print a number above c. */
  ghost function DeletedAbove(deleted: set<string>, c: nat): set<string> {
    set s | s in deleted && AllDecimal(s) && DecimalValue(s) > c
  }

  predicate IsDeleted(deleted: set<string>, n: nat) { Decimal(n) in deleted }

  lemma FewerAbove(deleted: set<string>, c: nat)
    requires IsDeleted(deleted, c + 1)
    ensures DeletedAbove(deleted, c + 1) < DeletedAbove(deleted, c)
  {
    DecimalRoundTrip(c + 1);
    assert Decimal(c + 1) in DeletedAbove(deleted, c) && Decimal(c + 1) !in DeletedAbove(deleted, c + 1);
  }

  /** The number the retry loop stops at. */
  ghost function NextFree(deleted: set<string>, c: nat): (n: nat)
    ensures n > c && !IsDeleted(deleted, n)
    ensures forall m {:trigger IsDeleted(deleted, m)} :: c < m < n ==> IsDeleted(deleted, m)
    decreases DeletedAbove(deleted, c)
  {
    if !IsDeleted(deleted, c + 1) then c + 1
    else
      FewerAbove(deleted, c);
      NextFree(deleted, c + 1)
  }

  /** The generator's state for one entity type; a counter appears on first use. */
  datatype Counting = Counting(counter: Option<nat>, deleted: set<string>)

  function CounterValue(c: Counting): nat { if c.counter.Some? then c.counter.value else 0 }

  /** The number GenerateID prints. Creating the counter forgets the deletions marked before. */
  ghost function Next(c: Counting): nat {
    if c.counter.None? then NextFree({}, 0) else NextFree(c.deleted, c.counter.value)
  }

  ghost function AfterNext(c: Counting): Counting {
    Counting(Some(Next(c)), if c.counter.None? then {} else c.deleted)
  }

  function Raised(c: Counting, value: nat): Counting {
    if c.counter.None? then c.(counter := Some(value))
    else if value > c.counter.value then c.(counter := Some(value)) else c
  }

  /** Adding one to a 64-bit counter. */
  function Incremented(n: nat): nat { (n + 1) % TWO_64 }

  lemma NoWrap(n: nat)
    requires n + 1 < TWO_64
    ensures Incremented(n) == n + 1
  {
  }

  class AutoIncrementGenerator {
    var counters: map<string, nat>
    var deletedIDs: map<string, set<string>>

    ghost predicate Valid() reads this { forall typ :: typ in counters ==> counters[typ] < TWO_64 }

    ghost function Of(typ: string): Counting reads this {
      Counting(if typ in counters then Some(counters[typ]) else None, if typ in deletedIDs then deletedIDs[typ] else {})
    }

    constructor ()
      ensures Valid() && forall typ :: Of(typ) == Counting(None, {})
    {
      counters, deletedIDs := map[], map[];
    }

    /** GenerateID, while the 64-bit counter does not run over. */
    method GenerateID(typ: string) returns (id: string)
      requires Valid() && Next(Of(typ)) < TWO_64
      modifies this
      ensures Valid() && id == Decimal(Next(old(Of(typ)))) && ParseUint(id).Some?
      ensures Of(typ) == AfterNext(old(Of(typ)))
      ensures forall other :: other != typ ==> Of(other) == old(Of(other))
    {
      ghost var goal := Next(Of(typ));
      if typ !in counters {
        counters := counters[typ := 0];
        deletedIDs := deletedIDs[typ := {}];
      }
      id := SkipDeleted(typ, goal);
      ParseUintOfDecimal(goal);
    }

    /** GetCounter. */
    method GetCounter(typ: string) returns (counter: nat)
      ensures counter == CounterValue(Of(typ))
    {
      if typ !in counters { return 0; }
      return counters[typ];
    }

    /** SaveDeletedIDs. */
    method SaveDeletedIDs(typ: string) returns (ids: set<string>)
      ensures ids == Of(typ).deleted
    {
      if typ in deletedIDs { return deletedIDs[typ]; }
      return {};
    }

    predicate Marked(typ: string, n: nat) reads this`deletedIDs {
      typ in deletedIDs && IsDeleted(deletedIDs[typ], n)
    }

    /** The retry loop: it counts up to the first number that is not marked. */
    method SkipDeleted(typ: string, ghost goal: nat) returns (id: string)
      requires typ in counters && counters[typ] < goal < TWO_64 && !Marked(typ, goal)
      requires forall m :: counters[typ] < m < goal ==> Marked(typ, m)
      modifies this`counters
      ensures id == Decimal(goal) && counters == old(counters)[typ := goal]
    {
      while true
        invariant typ in counters && counters == old(counters)[typ := counters[typ]]
            && old(counters[typ]) <= counters[typ] < goal
        decreases goal - counters[typ]
      {
        NoWrap(counters[typ]);
        var newID := Incremented(counters[typ]);
        counters := counters[typ := newID];
        if !Marked(typ, newID) { return Decimal(newID); }
      }
    }

    /** MarkIDDeleted. */
    method MarkIDDeleted(typ: string, id: string)
      modifies this`deletedIDs
      ensures Of(typ) == old(Of(typ)).(deleted := old(Of(typ)).deleted + {id})
      ensures forall other :: other != typ ==> Of(other) == old(Of(other))
    {
      if typ !in deletedIDs {
        deletedIDs := deletedIDs[typ := {}];
      }
      deletedIDs := deletedIDs[typ := deletedIDs[typ] + {id}];
    }

    /** LoadDeletedIDs. */
    method LoadDeletedIDs(typ: string, ids: set<string>)
      modifies this`deletedIDs
      ensures Of(typ) == old(Of(typ)).(deleted := old(Of(typ)).deleted + ids)
      ensures forall other :: other != typ ==> Of(other) == old(Of(other))
    {
      if typ !in deletedIDs {
        deletedIDs := deletedIDs[typ := {}];
      }
      deletedIDs := deletedIDs[typ := deletedIDs[typ] + ids];
    }

    /** SetCounter: the counter only ever rises. */
    method SetCounter(typ: string, value: nat)
      requires Valid() && value < TWO_64
      modifies this
      ensures Valid() && Of(typ) == Raised(old(Of(typ)), value)
      ensures forall other :: other != typ ==> Of(other) == old(Of(other))
    {
      if typ !in counters {
        counters := counters[typ := value];
        if typ !in deletedIDs {
          deletedIDs := deletedIDs[typ := {}];
        }
        return;
      }
      if value > counters[typ] {
        counters := counters[typ := value];
      }
    }
  }

  /** The highest number among the ids; ids that are no 64-bit numbers do not matter. */
  ghost predicate IsHighest(ids: set<string>, h: nat) {
    && (forall id :: id in ids && ParseUint(id).Some? ==> ParseUint(id).value <= h)
    && (h == 0 || exists id :: id in ids && ParseUint(id) == Some(h))
  }

  ghost function Highest(ids: set<string>): (h: nat)
    ensures IsHighest(ids, h)
  {
    HighestExists(ids);
    var h: nat :| IsHighest(ids, h);
    h
  }

  lemma {:induction false} HighestExists(ids: set<string>)
    ensures exists h: nat :: IsHighest(ids, h)
    decreases ids
  {
    if ids == {} {
      assert IsHighest(ids, 0);
    } else {
      var id :| id in ids;
      HighestExists(ids - {id});
      var h: nat :| IsHighest(ids - {id}, h);
      var n := ParseUint(id);
      assert IsHighest(ids, if n.Some? && n.value > h then n.value else h);
    }
  }

  lemma HighestIs(ids: set<string>, h: nat)
    requires IsHighest(ids, h)
    ensures Highest(ids) == h
  {
  }

  ghost function LiveIds(engine: Engine, typ: string): set<string> reads engine {
    set key | key in engine.entities && engine.entities[key].typ == typ :: engine.entities[key].id
  }

  ghost function RaisedAbove(c: Counting, ids: set<string>): Counting {
    if Highest(ids) > 0 then Raised(c, Highest(ids)) else c
  }

  /** No number among the ids lies above the counter then. */
  lemma RaisedCovers(c: Counting, ids: set<string>, id: string)
    requires id in ids && ParseUint(id).Some?
    ensures ParseUint(id).value <= CounterValue(RaisedAbove(c, ids))
  {
  }

  /** What the counter of a type is once those outside rest have been raised. */
  ghost function PartlyRaised(engine: Engine, rest: set<string>, typ: string, c: Counting): Counting
    reads engine
  {
    if UsesCounter(engine, typ) && typ !in rest then RaisedAbove(c, LiveIds(engine, typ)) else c
  }

  /** EnsureAutoIncrementCounterAboveExistingIDs: each counter is raised to the highest stored number of its type. */
  method EnsureAboveExisting(engine: Engine, generator: AutoIncrementGenerator)
    requires engine.Valid() && generator.Valid()
    modifies generator
    ensures generator.Valid()
    ensures forall typ :: generator.Of(typ) == PartlyRaised(engine, {}, typ, old(generator.Of(typ)))
    ensures forall key :: key in engine.entities && UsesCounter(engine, engine.entities[key].typ) ==>
        IdBelow(generator, engine.entities[key])
  {
    RaiseAll(engine, generator);
    forall key | key in engine.entities && UsesCounter(engine, engine.entities[key].typ)
        ensures IdBelow(generator, engine.entities[key])
    {
      var e := engine.entities[key];
      if ParseUint(e.id).Some? { RaisedCovers(old(generator.Of(e.typ)), LiveIds(engine, e.typ), e.id); }
    }
  }

  /** Its loop over the entity types. */
  method RaiseAll(engine: Engine, generator: AutoIncrementGenerator)
    requires engine.Valid() && generator.Valid()
    modifies generator
    ensures generator.Valid()
    ensures forall typ :: generator.Of(typ) == PartlyRaised(engine, {}, typ, old(generator.Of(typ)))
  {
    var rest := engine.definitions.Keys;
    while rest != {}
      invariant generator.Valid() && rest <= engine.definitions.Keys
      invariant forall typ :: generator.Of(typ) == PartlyRaised(engine, rest, typ, old(generator.Of(typ)))
      decreases rest
    {
      var typ :| typ in rest;
      if engine.definitions[typ].idGenerator == AutoIncrement {
        RaiseAboveExisting(engine, generator, typ);
      }
      rest := rest - {typ};
    }
  }

  method RaiseAboveExisting(engine: Engine, generator: AutoIncrementGenerator, typ: string)
    requires engine.Valid() && generator.Valid()
    modifies generator
    ensures generator.Valid()
    ensures generator.Of(typ) == RaisedAbove(old(generator.Of(typ)), LiveIds(engine, typ))
    ensures forall other :: other != typ ==> generator.Of(other) == old(generator.Of(other))
  {
    var highest := HighestId(engine, typ);
    HighestIs(LiveIds(engine, typ), highest);
    if highest > 0 {
      generator.SetCounter(typ, highest);
    }
  }

  predicate UsesCounter(engine: Engine, typ: string) reads engine {
    typ in engine.definitions && engine.definitions[typ].idGenerator == AutoIncrement
  }

  ghost predicate IdBelow(generator: AutoIncrementGenerator, e: Entity) reads generator {
    ParseUint(e.id).Some? ==> ParseUint(e.id).value <= CounterValue(generator.Of(e.typ))
  }

  /** The loop that looks for the highest number. */
  method HighestListed(es: seq<Entity>) returns (highest: nat)
    ensures highest < TWO_64 && IsHighest(set e | e in es :: e.id, highest)
  {
    highest := 0;
    for i := 0 to |es|
      invariant highest < TWO_64
      invariant forall e :: e in es[..i] && ParseUint(e.id).Some? ==> ParseUint(e.id).value <= highest
      invariant highest == 0 || exists e :: e in es && ParseUint(e.id) == Some(highest)
    {
      assert es[i] in es && es[..i + 1] == es[..i] + [es[i]];
      var n := ParseUint(es[i].id);
      if n.Some? && n.value > highest {
        highest := n.value;
      }
    }
    assert es[..|es|] == es;
  }

  method HighestId(engine: Engine, typ: string) returns (highest: nat)
    requires engine.Valid()
    ensures highest < TWO_64 && IsHighest(LiveIds(engine, typ), highest)
  {
    var es := Persistence.ListEntities(engine, typ);
    highest := HighestListed(es);
    forall key | key in engine.entities && engine.entities[key].typ == typ ensures engine.entities[key] in es {
    }
    assert LiveIds(engine, typ) == set e | e in es :: e.id;
  }

  /** IDGeneratorManager.GenerateID: what it answers always passes the validation the engine makes. */
  method Generate(kind: IdGenerator, typ: string, auto: AutoIncrementGenerator, cuid: CuidGenerator,
                  millis: nat, random16: seq<bv8>, random8: seq<bv8>, random3: seq<bv8>) returns (id: Option<string>)
    requires auto.Valid() && cuid.Valid() && Next(auto.Of(typ)) < TWO_64
    requires |random16| == 16 && |random8| == 8 && |random3| == 3
    modifies auto, cuid
    ensures auto.Valid() && cuid.Valid()
    ensures id.Some? <==> kind == AutoIncrement || kind == Uuid || kind == Cuid
    ensures id.Some? ==> ValidId(kind, id.value)
  {
    match kind
    case AutoIncrement =>
      var number := auto.GenerateID(typ);
      id := Some(number);
    case Uuid =>
      var uuid := GenerateUuid(random16);
      id := Some(uuid);
    case Cuid =>
      var text := cuid.GenerateID(millis, random8, random3);
      id := Some(text);
    case _ =>
      id := None;
  }

  // ---------- one process lifetime of an auto-increment type ----------

  /** What happens to the ids of one type. A creation that fails later uses its number up all the same. */
  datatype IdCall = Create(accepted: bool) | CreateWith(id: string) | Remove(id: string) | Truncate

  datatype IdState = IdState(counting: Counting, live: set<string>)

  ghost function IdStep(s: IdState, call: IdCall): IdState {
    match call
    case Create(accepted) => IdState(AfterNext(s.counting), if accepted then s.live + {Decimal(Next(s.counting))}
        else s.live)
    case CreateWith(id) => s.(live := s.live + {id})
    case Remove(id) =>
      if id !in s.live then s else IdState(s.counting.(deleted := s.counting.deleted + {id}), s.live - {id})
    case Truncate => s.(live := {})
  }

  ghost function IdRun(s: IdState, calls: seq<IdCall>): IdState {
    if calls == [] then s else IdStep(IdRun(s, calls[..|calls| - 1]), calls[|calls| - 1])
  }

  /** The numbers generated during a run, in order. */
  ghost function Generated(s: IdState, calls: seq<IdCall>): seq<nat> {
    if calls == [] then []
    else
      var before := IdRun(s, calls[..|calls| - 1]);
      Generated(s, calls[..|calls| - 1]) + if calls[|calls| - 1].Create? then [Next(before.counting)] else []
  }

  /** Whatever clients do, each generated number is above every earlier one and above the counter the run began with. */
  lemma {:induction false} GeneratedIdsRise(s: IdState, calls: seq<IdCall>)
    ensures CounterValue(s.counting) <= CounterValue(IdRun(s, calls).counting)
    ensures forall n :: n in Generated(s, calls) ==>
        CounterValue(s.counting) < n <= CounterValue(IdRun(s, calls).counting)
    ensures forall i, j :: 0 <= i < j < |Generated(s, calls)| ==> Generated(s, calls)[i] < Generated(s, calls)[j]
  {
    if calls == [] {
    } else {
      var front, last := calls[..|calls| - 1], calls[|calls| - 1];
      GeneratedIdsRise(s, front);
      var before, g0 := IdRun(s, front), Generated(s, front);
      assert IdRun(s, calls) == IdStep(before, last);
      assert Next(before.counting) > CounterValue(before.counting);
      assert Generated(s, calls) == g0 + if last.Create? then [Next(before.counting)] else [];
      assert forall i :: 0 <= i < |g0| ==> g0[i] in g0;
    }
  }

  /** No live id that stands for a number stands for one above the counter: what EnsureAboveExisting leaves. */
  ghost predicate Covered(s: IdState) {
    forall id :: id in s.live && ParseUint(id).Some? ==> ParseUint(id).value <= CounterValue(s.counting)
  }

  lemma CoveredStep(s: IdState, call: IdCall)
    requires Covered(s) && !call.CreateWith?
    ensures Covered(IdStep(s, call))
  {
    if call.Create? { ParseUintOfDecimal(Next(s.counting)); }
  }

  lemma {:induction false} RunIsCovered(s: IdState, calls: seq<IdCall>)
    requires Covered(s) && forall call :: call in calls ==> !call.CreateWith?
    ensures Covered(IdRun(s, calls))
  {
    if calls == [] {
    } else {
      var last := calls[|calls| - 1];
      assert last in calls;
      RunIsCovered(s, calls[..|calls| - 1]);
      CoveredStep(IdRun(s, calls[..|calls| - 1]), last);
    }
  }

  /** GenerateID gives out a deleted id exactly when the type has no counter yet and the id "1" was deleted. */
  lemma ReusesDeletedIff(c: Counting)
    ensures Decimal(Next(c)) in c.deleted <==> c.counter.None? && Decimal(1) in c.deleted
  {
    if c.counter.None? { assert Next(c) == 1; }
  }

  /**
   * Without client-chosen ids, whatever was deleted before the run or during it: the id generated next is not live, so
   * the branch for a generated id that already exists is never taken, and it was not deleted either, except that the
   * first id of a type without a counter is "1" even if "1" was deleted.
   */
  lemma GeneratedIdsAreNew(s: IdState, calls: seq<IdCall>)
    requires Covered(s) && forall call :: call in calls ==> !call.CreateWith?
    ensures var after := IdRun(s, calls); var id := Decimal(Next(after.counting));
            && (Next(after.counting) < TWO_64 ==> id !in after.live)
            && (id in after.counting.deleted <==>
                  after.counting.counter.None? && Decimal(1) in after.counting.deleted)
  {
    var after := IdRun(s, calls);
    RunIsCovered(s, calls);
    ReusesDeletedIff(after.counting);
    ParseUintOfDecimal(Next(after.counting));
  }

  /**
   * How that comes about: a client chooses "1" on a fresh type, deletes it, and the first generated id is "1" again.
   */
  lemma DeletedIdReused()
    ensures var calls := [CreateWith("1"), Remove("1")];
            var s := IdRun(IdState(Counting(None, {}), {}), calls);
            Decimal(Next(s.counting)) in s.counting.deleted
  {
    var s0 := IdState(Counting(None, {}), {});
    var calls := [CreateWith("1"), Remove("1")];
    assert calls[..1] == [CreateWith("1")] && calls[..1][..0] == [];
    assert IdRun(s0, calls[..1]) == IdStep(s0, CreateWith("1"));
    assert IdRun(s0, calls) == IdState(Counting(None, {"1"}), {});
    assert Decimal(1) == "1";
    ReusesDeletedIff(Counting(None, {"1"}));
  }
}
