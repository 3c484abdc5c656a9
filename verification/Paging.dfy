/** Sorting query results and cutting them into pages. */
module Paging {
  import opened Common
  import opened Validation

  // ---------- the comparator ----------

  /** String comparison. */
  predicate Before(a: string, b: string) {
    b != [] && (a == [] || a[0] < b[0] || (a[0] == b[0] && Before(a[1..], b[1..])))
  }

  /** The float64 the comparisons convert a number to; unsigned integers are not among them. */
  function Number(v: Value): Option<real> {
    match v
    case Whole(kind, n) => if SignedKind(kind) then Some(n as real) else None
    case Float32(r) => Some(r)
    case Float64(r) => Some(r)
    case _ => None
  }

  /** The comparator of sortEntities. */
  predicate Less(field: string, descending: bool, a: Entity, b: Entity) {
    if field !in a.fields && field !in b.fields then false
    else if field !in a.fields then !descending
    else if field !in b.fields then descending
    else
      var v, w := a.fields[field], b.fields[field];
      if v.Str? && w.Str? then (if descending then Before(w.s, v.s) else Before(v.s, w.s))
      else if v.Time? && w.Time? then (if descending then v.t > w.t else v.t < w.t)
      else if Number(v).Some? then
        Number(w).Some? && (if descending then Number(v).value > Number(w).value else Number(v).value < Number(w).value)
      else if v.Bool? && w.Bool? then (if descending then v.b && !w.b else !v.b && w.b)
      else !descending
  }

  /** The kinds of value the comparator orders. */
  datatype Kind = Text | Instant | Numeric | Truth

  function KindOf(v: Value): Option<Kind> {
    match v
    case Str(_) => Some(Text)
    case Time(_) => Some(Instant)
    case Bool(_) => Some(Truth)
    case _ => if Number(v).Some? then Some(Numeric) else None
  }

  predicate HasKey(field: string, kind: Kind, e: Entity) {
    field in e.fields && KindOf(e.fields[field]) == Some(kind)
  }

  /** The two entities have the same sort key. */
  predicate SameKey(field: string, a: Entity, b: Entity) {
    && field in a.fields && field in b.fields
    && var v, w := a.fields[field], b.fields[field];
    if Number(v).Some? && Number(w).Some? then Number(v) == Number(w) else v == w
  }

  lemma {:induction false} BeforeIsTotal(a: string, b: string)
    ensures !(Before(a, b) && Before(b, a)) && (Before(a, b) || Before(b, a) || a == b) && !Before(a, a)
    decreases |a|
  {
    if a == [] {
    } else {
      BeforeIsTotal(a[1..], if b == [] then [] else b[1..]);
      if b != [] { assert a == [a[0]] + a[1..] && b == [b[0]] + b[1..]; }
    }
  }

  lemma {:induction false} BeforeIsTransitive(a: string, b: string, c: string)
    requires Before(a, b) && Before(b, c)
    ensures Before(a, c)
    decreases |a|
  {
    if a == [] || !(a[0] == b[0] == c[0]) {
    } else {
      BeforeIsTransitive(a[1..], b[1..], c[1..]);
    }
  }

  /** On keys of one kind the comparator is a strict total order up to equal keys. */
  lemma LessIsStrictOrder(field: string, descending: bool, kind: Kind, a: Entity, b: Entity, c: Entity)
    requires HasKey(field, kind, a) && HasKey(field, kind, b) && HasKey(field, kind, c)
    ensures !Less(field, descending, a, a)
    ensures !(Less(field, descending, a, b) && Less(field, descending, b, a))
    ensures Less(field, descending, a, b) || Less(field, descending, b, a) || SameKey(field, a, b)
    ensures Less(field, descending, a, b) && Less(field, descending, b, c) ==> Less(field, descending, a, c)
  {
    if kind == Text {
      var x, y, z := a.fields[field].s, b.fields[field].s, c.fields[field].s;
      BeforeIsTotal(x, y);
      if Before(x, y) && Before(y, z) { BeforeIsTransitive(x, y, z); }
      if Before(z, y) && Before(y, x) { BeforeIsTransitive(z, y, x); }
    }
  }

  /** Outside those kinds it is not even irreflexive: ascending, a null key sorts before itself. */
  lemma NullKeyBeforeItself(e: Entity, field: string)
    requires field in e.fields && e.fields[field] == Null
    ensures Less(field, false, e, e)
  {
  }

  // ---------- the sorted result ----------

  /** No entity sorts before an earlier one. */
  ghost predicate InOrder(field: string, descending: bool, s: seq<Entity>) {
    forall i, j :: 0 <= i < j < |s| ==> !Less(field, descending, s[j], s[i])
  }

  /** What sort.Slice answers for a consistent comparator: the same elements, none before a smaller one. */
  ghost predicate Sorts(field: string, descending: bool, list: seq<Entity>, sorted: seq<Entity>) {
    multiset(sorted) == multiset(list) && InOrder(field, descending, sorted)
  }

  ghost predicate AllOfKind(field: string, kind: Kind, list: seq<Entity>) {
    forall e :: e in list ==> HasKey(field, kind, e)
  }

  type SortFunction = (seq<Entity>, string, bool) -> seq<Entity>

  /**
   * sort.Slice with the comparator of sortEntities: it permutes, and it sorts keys of one kind. SortExists shows that
   * this can be met.
   */
  ghost predicate SortsWell(sort: SortFunction) {
    forall list, field, descending {:trigger sort(list, field, descending)} ::
      && multiset(sort(list, field, descending)) == multiset(list)
      && forall kind :: AllOfKind(field, kind, list) ==> Sorts(field, descending, list, sort(list, field, descending))
  }

  /** All keys are of one kind, and no two are equal. */
  ghost predicate DistinctKeys(field: string, kind: Kind, list: seq<Entity>) {
    && (forall e :: e in list ==> HasKey(field, kind, e))
    && (forall i, j :: 0 <= i < j < |list| ==> !SameKey(field, list[i], list[j]))
  }

  ghost predicate StrictlySorted(field: string, descending: bool, s: seq<Entity>) {
    forall i, j :: 0 <= i < j < |s| ==> Less(field, descending, s[i], s[j])
  }

  lemma SameMembers<T>(s: seq<T>, t: seq<T>)
    requires multiset(s) == multiset(t)
    ensures |s| == |t| && forall x :: x in s <==> x in t
  {
    assert |s| == |multiset(s)| && |t| == |multiset(t)|;
    assert forall x :: x in s <==> x in multiset(s);
    assert forall x :: x in t <==> x in multiset(t);
  }

  /** In a list without equal keys every element occurs once, and elements with equal keys are the same. */
  lemma KeyIdentifies(field: string, kind: Kind, list: seq<Entity>, a: Entity, b: Entity)
    requires DistinctKeys(field, kind, list) && a in list && b in list && SameKey(field, a, b)
    ensures a == b && multiset(list)[a] == 1
  {
    var i :| 0 <= i < |list| && list[i] == a;
    var j :| 0 <= j < |list| && list[j] == b;
    assert SameKey(field, list[i], list[j]) && SameKey(field, list[j], list[i]);
    OccursOnce(list, i);
  }

  lemma OccursOnce(list: seq<Entity>, i: nat)
    requires i < |list| && forall j :: 0 <= j < |list| && j != i ==> list[j] != list[i]
    ensures multiset(list)[list[i]] == 1
  {
    assert list == list[..i] + [list[i]] + list[i + 1..];
    assert list[i] !in list[..i] && list[i] !in list[i + 1..];
  }

  lemma OccursTwice(s: seq<Entity>, i: nat, j: nat)
    requires i < j < |s| && s[i] == s[j]
    ensures multiset(s)[s[i]] >= 2
  {
    assert s == s[..j] + s[j..];
    assert s[..j][i] == s[i] && s[j..][0] == s[j];
    assert s[i] in s[..j] && s[i] in s[j..];
  }

  /** Sorting a list without equal keys orders it strictly. */
  lemma SortedIsStrict(field: string, descending: bool, kind: Kind, list: seq<Entity>, sorted: seq<Entity>)
    requires DistinctKeys(field, kind, list) && Sorts(field, descending, list, sorted)
    ensures StrictlySorted(field, descending, sorted)
  {
    SameMembers(list, sorted);
    forall i, j | 0 <= i < j < |sorted| ensures Less(field, descending, sorted[i], sorted[j]) {
      LessIsStrictOrder(field, descending, kind, sorted[i], sorted[j], sorted[i]);
      if SameKey(field, sorted[i], sorted[j]) {
        assert sorted[i] in list && sorted[j] in list;
        KeyIdentifies(field, kind, list, sorted[i], sorted[j]);
        OccursTwice(sorted, i, j);
      }
    }
  }

  lemma FirstIsLeast(field: string, descending: bool, s: seq<Entity>, e: Entity)
    requires StrictlySorted(field, descending, s) && e in s
    ensures e == s[0] || Less(field, descending, s[0], e)
  {
  }

  lemma SameFirst(field: string, descending: bool, kind: Kind, s: seq<Entity>, t: seq<Entity>)
    requires s != [] && t != [] && HasKey(field, kind, s[0]) && HasKey(field, kind, t[0]) && s[0] in t && t[0] in s
    requires StrictlySorted(field, descending, s) && StrictlySorted(field, descending, t)
    ensures s[0] == t[0]
  {
    FirstIsLeast(field, descending, s, t[0]);
    FirstIsLeast(field, descending, t, s[0]);
    LessIsStrictOrder(field, descending, kind, s[0], t[0], s[0]);
  }

  lemma TailElements<T>(s: seq<T>)
    requires s != []
    ensures s == [s[0]] + s[1..] && multiset(s[1..]) == multiset(s) - multiset{s[0]}
  {
    assert s == [s[0]] + s[1..];
  }

  /** Two strictly sorted lists with the same elements are the same list. */
  lemma {:induction false} StrictOrderIsUnique(field: string, descending: bool, kind: Kind, s: seq<Entity>,
      t: seq<Entity>)
    requires multiset(s) == multiset(t) && forall e :: e in s ==> HasKey(field, kind, e)
    requires StrictlySorted(field, descending, s) && StrictlySorted(field, descending, t)
    ensures s == t
    decreases |s|
  {
    SameMembers(s, t);
    if s == [] {
    } else {
      SameFirst(field, descending, kind, s, t);
      TailElements(s);
      TailElements(t);
      StrictOrderIsUnique(field, descending, kind, s[1..], t[1..]);
    }
  }

  /** Whatever order the entities come in, and whatever the sort does with it, there is one sorted result. */
  lemma SortedResultIsUnique(field: string, descending: bool, kind: Kind, list1: seq<Entity>, list2: seq<Entity>,
      s: seq<Entity>, t: seq<Entity>)
    requires DistinctKeys(field, kind, list1) && multiset(list1) == multiset(list2)
    requires Sorts(field, descending, list1, s) && Sorts(field, descending, list2, t)
    ensures s == t && StrictlySorted(field, descending, s)
  {
    SortedIsStrict(field, descending, kind, list1, s);
    SortedIsStrict(field, descending, kind, list1, t);
    SameMembers(list1, s);
    StrictOrderIsUnique(field, descending, kind, s, t);
  }

  // ---------- pages ----------

  /** The part of the sorted matches that ExecutePaginatedQuery returns. */
  function Page(all: seq<Entity>, offset: nat, limit: int): seq<Entity> {
    var start := if offset > |all| then |all| else offset;
    all[start..if limit > 0 && start + limit < |all| then start + limit else |all|]
  }

  predicate HasMore(all: seq<Entity>, offset: nat, limit: int) {
    offset + |Page(all, offset, limit)| < |all|
  }

  /** The part Query itself returns. */
  function QuerySlice(all: seq<Entity>, offset: nat, limit: int): seq<Entity> {
    if offset >= |all| then [] else all[offset..if limit > 0 && offset + limit < |all| then offset + limit else |all|]
  }

  lemma PageIsQuerySlice(all: seq<Entity>, offset: nat, limit: int)
    ensures Page(all, offset, limit) == QuerySlice(all, offset, limit)
  {
  }

  /**
   * A client asking for page after page until there are no more; answers(k) is the sorted list the k-th call works on.
   */
  ghost function Walk(answers: nat -> seq<Entity>, k: nat, offset: nat, limit: nat, total: nat): seq<Entity>
    requires limit > 0 && forall i :: |answers(i)| == total
    decreases total - offset
  {
    Page(answers(k), offset, limit) + if HasMore(answers(k), offset, limit)
        then Walk(answers, k + 1, offset + limit, limit, total) else []
  }

  /** A page and the rest after it make up everything from the offset on. */
  lemma PageAndRest(all: seq<Entity>, offset: nat, limit: nat)
    requires limit > 0 && offset <= |all|
    ensures HasMore(all, offset, limit) <==> offset + limit < |all|
    ensures Page(all, offset, limit) + (if HasMore(all, offset, limit) then all[offset + limit..] else [])
        == all[offset..]
  {
  }

  /** From the k-th call on, calls that see one list together return the rest of it. */
  lemma {:induction false} WalkFrom(answers: nat -> seq<Entity>, k: nat, offset: nat, limit: nat, all: seq<Entity>)
    requires limit > 0 && (forall i :: |answers(i)| == |all|) && (forall i :: i >= k ==> answers(i) == all)
        && offset <= |all|
    ensures Walk(answers, k, offset, limit, |all|) == all[offset..]
    decreases |all| - offset
  {
    PageAndRest(all, offset, limit);
    assert answers(k) == all;
    if !HasMore(all, offset, limit) {
    } else {
      WalkFrom(answers, k + 1, offset + limit, limit, all);
    }
  }

  /**
   * Independent page calls, each collecting and sorting the same matches anew, stop and together return every match
   * exactly once and in order, when the sort keys are distinct and of one kind.
   */
  lemma PagesConcatenate(field: string, descending: bool, kind: Kind, lists: nat -> seq<Entity>,
      answers: nat -> seq<Entity>, limit: nat)
    requires limit > 0 && DistinctKeys(field, kind, lists(0)) && forall k :: multiset(lists(k)) == multiset(lists(0))
    requires forall k :: Sorts(field, descending, lists(k), answers(k))
    ensures forall k :: |answers(k)| == |answers(0)|
    ensures Walk(answers, 0, 0, limit, |answers(0)|) == answers(0)
    ensures multiset(answers(0)) == multiset(lists(0)) && StrictlySorted(field, descending, answers(0))
  {
    forall k ensures answers(k) == answers(0) {
      SortedResultIsUnique(field, descending, kind, lists(0), lists(k), answers(0), answers(k));
    }
    SortedResultIsUnique(field, descending, kind, lists(0), lists(0), answers(0), answers(0));
    WalkFrom(answers, 0, 0, limit, answers(0));
  }

  // ---------- equal keys ----------

  /** Not sorting before is transitive on keys of one kind. */
  lemma NotLessTransitive(field: string, descending: bool, kind: Kind, a: Entity, b: Entity, c: Entity)
    requires HasKey(field, kind, a) && HasKey(field, kind, b) && HasKey(field, kind, c)
    requires !Less(field, descending, b, a) && !Less(field, descending, c, b)
    ensures !Less(field, descending, c, a)
  {
    LessIsStrictOrder(field, descending, kind, a, b, c);
    LessIsStrictOrder(field, descending, kind, b, c, a);
    LessIsStrictOrder(field, descending, kind, c, a, b);
    if SameKey(field, a, b) { SameKeySameOrder(field, descending, kind, a, b, c); }
    if SameKey(field, b, c) { SameKeySameOrder(field, descending, kind, b, c, a); }
  }

  /** Entities with equal keys sort alike. */
  lemma SameKeySameOrder(field: string, descending: bool, kind: Kind, a: Entity, b: Entity, x: Entity)
    requires HasKey(field, kind, a) && HasKey(field, kind, b) && HasKey(field, kind, x) && SameKey(field, a, b)
    ensures Less(field, descending, a, x) == Less(field, descending, b, x)
    ensures Less(field, descending, x, a) == Less(field, descending, x, b)
  {
  }

  function InsertSorted(field: string, descending: bool, s: seq<Entity>, e: Entity): seq<Entity> {
    if s == [] || Less(field, descending, e, s[0]) then [e] + s else [s[0]] + InsertSorted(field, descending, s[1..], e)
  }

  lemma ConsInOrder(field: string, descending: bool, e: Entity, s: seq<Entity>)
    requires InOrder(field, descending, s) && forall x :: x in s ==> !Less(field, descending, x, e)
    ensures InOrder(field, descending, [e] + s)
  {
    var t := [e] + s;
    forall i, j | 0 <= i < j < |t| ensures !Less(field, descending, t[j], t[i]) {
      assert t[j] == s[j - 1] && t[j] in s;
      assert i > 0 ==> t[i] == s[i - 1];
    }
  }

  lemma RestInOrder(field: string, descending: bool, s: seq<Entity>)
    requires s != [] && InOrder(field, descending, s)
    ensures InOrder(field, descending, s[1..]) && forall x :: x in s[1..] ==> !Less(field, descending, x, s[0])
  {
    forall x | x in s[1..] ensures !Less(field, descending, x, s[0]) {
      var i :| 0 <= i < |s[1..]| && s[1..][i] == x;
      assert s[i + 1] == x;
    }
  }

  /** What sorts before the head of an ordered list may go in front. */
  lemma FrontInOrder(field: string, descending: bool, kind: Kind, s: seq<Entity>, e: Entity)
    requires HasKey(field, kind, e) && (forall x :: x in s ==> HasKey(field, kind, x)) && InOrder(field, descending, s)
    requires s != [] && Less(field, descending, e, s[0])
    ensures InOrder(field, descending, [e] + s)
  {
    RestInOrder(field, descending, s);
    LessIsStrictOrder(field, descending, kind, e, s[0], e);
    LessIsStrictOrder(field, descending, kind, s[0], e, s[0]);
    forall x | x in s ensures !Less(field, descending, x, e) {
      assert x == s[0] || x in s[1..] by { assert s == [s[0]] + s[1..]; }
      NotLessTransitive(field, descending, kind, e, s[0], x);
    }
    ConsInOrder(field, descending, e, s);
  }

  lemma {:induction false} InsertedMembers(field: string, descending: bool, s: seq<Entity>, e: Entity)
    ensures forall x :: x in InsertSorted(field, descending, s, e) <==> x in s || x == e
  {
    if s == [] {
    } else {
      TailElements(s);
      InsertedMembers(field, descending, s[1..], e);
    }
  }

  lemma {:induction false} InsertPermutes(field: string, descending: bool, s: seq<Entity>, e: Entity)
    ensures multiset(InsertSorted(field, descending, s, e)) == multiset(s) + multiset{e}
  {
    if s == [] {
    } else {
      assert s == [s[0]] + s[1..];
      InsertPermutes(field, descending, s[1..], e);
    }
  }

  lemma {:induction false} InsertKeepsOrder(field: string, descending: bool, kind: Kind, s: seq<Entity>, e: Entity)
    requires HasKey(field, kind, e) && (forall x :: x in s ==> HasKey(field, kind, x)) && InOrder(field, descending, s)
    ensures InOrder(field, descending, InsertSorted(field, descending, s, e))
  {
    if s == [] {
    } else if Less(field, descending, e, s[0]) {
      FrontInOrder(field, descending, kind, s, e);
    } else {
      RestInOrder(field, descending, s);
      InsertKeepsOrder(field, descending, kind, s[1..], e);
      InsertedMembers(field, descending, s[1..], e);
      ConsInOrder(field, descending, s[0], InsertSorted(field, descending, s[1..], e));
    }
  }

  /** A list with keys of one kind has a sorted order. */
  lemma {:induction false} SortExists(field: string, descending: bool, kind: Kind, list: seq<Entity>)
      returns (sorted: seq<Entity>)
    requires forall e :: e in list ==> HasKey(field, kind, e)
    ensures Sorts(field, descending, list, sorted)
  {
    if list == [] {
      sorted := [];
    } else {
      TailElements(list);
      var rest := SortExists(field, descending, kind, list[1..]);
      SameMembers(rest, list[1..]);
      InsertKeepsOrder(field, descending, kind, rest, list[0]);
      InsertedMembers(field, descending, rest, list[0]);
      InsertPermutes(field, descending, rest, list[0]);
      sorted := InsertSorted(field, descending, rest, list[0]);
    }
  }

  function Exchanged<T>(s: seq<T>, p: nat, q: nat): seq<T>
    requires p < q < |s|
  {
    s[p := s[q]][q := s[p]]
  }

  lemma ExchangedMembers<T>(s: seq<T>, p: nat, q: nat)
    requires p < q < |s|
    ensures multiset(Exchanged(s, p, q)) == multiset(s)
  {
  }

  lemma ExchangedKey(field: string, kind: Kind, s: seq<Entity>, p: nat, q: nat, i: nat)
    requires p < q < |s| && i < |s| && SameKey(field, s[p], s[q]) && forall e :: e in s ==> HasKey(field, kind, e)
    ensures HasKey(field, kind, s[i]) && HasKey(field, kind, Exchanged(s, p, q)[i])
        && SameKey(field, s[i], Exchanged(s, p, q)[i])
  {
    assert s[i] in s && s[p] in s && s[q] in s;
  }

  /** Exchanging two entities with equal keys keeps a sorted order sorted. */
  lemma ExchangeKeepsSorted(field: string, descending: bool, kind: Kind, list: seq<Entity>, s: seq<Entity>, p: nat,
      q: nat)
    requires Sorts(field, descending, list, s) && p < q < |s| && SameKey(field, s[p], s[q])
    requires forall e :: e in s ==> HasKey(field, kind, e)
    ensures Sorts(field, descending, list, Exchanged(s, p, q))
  {
    var t := Exchanged(s, p, q);
    ExchangedMembers(s, p, q);
    forall i, j | 0 <= i < j < |t| ensures !Less(field, descending, t[j], t[i]) {
      ExchangedKey(field, kind, s, p, q, i);
      ExchangedKey(field, kind, s, p, q, j);
      SameKeySameOrder(field, descending, kind, s[i], t[i], s[j]);
      SameKeySameOrder(field, descending, kind, s[j], t[j], t[i]);
    }
  }

  /** Whatever sorted answers the calls get, they together return every match exactly once. */
  ghost predicate PagesExact(field: string, descending: bool, list: seq<Entity>, answers: nat -> seq<Entity>,
      limit: nat) {
    limit > 0 && (forall k :: Sorts(field, descending, list, answers(k)) && |answers(k)| == |list|)
    ==> multiset(Walk(answers, 0, 0, limit, |list|)) == multiset(list)
  }

  lemma TwiceInParts(s: seq<Entity>, t: seq<Entity>, p: nat, q: nat)
    requires p < q < |t| && |s| == |t| && t[q] == s[p]
    ensures multiset(s[..p + 1] + t[p + 1..])[s[p]] >= 2
  {
    assert s[..p + 1][p] == s[p] && t[p + 1..][q - p - 1] == s[p];
    assert s[p] in s[..p + 1] && s[p] in t[p + 1..];
  }

  /** The first call works on s and every later one on t. */
  function SeesThen(s: seq<Entity>, t: seq<Entity>): nat -> seq<Entity> { k => if k == 0 then s else t }

  lemma WalkSeesThen(s: seq<Entity>, t: seq<Entity>, limit: nat)
    requires 0 < limit < |s| == |t|
    ensures Walk(SeesThen(s, t), 0, 0, limit, |s|) == s[..limit] + t[limit..]
  {
    WalkFrom(SeesThen(s, t), 1, limit, limit, t);
  }

  /**
   * Two equal keys at p < q: if the calls after the first see them exchanged, pages of length p + 1 show one of them
   * twice.
   */
  lemma EqualKeysRepeat(field: string, descending: bool, kind: Kind, list: seq<Entity>, s: seq<Entity>, p: nat, q: nat)
    requires Distinct(list) && Sorts(field, descending, list, s) && p < q < |s| && SameKey(field, s[p], s[q])
    requires forall e :: e in list ==> HasKey(field, kind, e)
    ensures !PagesExact(field, descending, list, SeesThen(s, Exchanged(s, p, q)), p + 1)
  {
    SameMembers(s, list);
    InDistinctOnce(list, s[p]);
    ExchangeKeepsSorted(field, descending, kind, list, s, p, q);
    SeenTwice(field, descending, list, s, Exchanged(s, p, q), p, q);
  }

  lemma SeenTwice(field: string, descending: bool, list: seq<Entity>, s: seq<Entity>, t: seq<Entity>, p: nat, q: nat)
    requires Sorts(field, descending, list, s) && Sorts(field, descending, list, t)
    requires p < q < |t| == |s| == |list| && t[q] == s[p] && multiset(list)[s[p]] == 1
    ensures !PagesExact(field, descending, list, SeesThen(s, t), p + 1)
  {
    PartsDiffer(list, s, t, p, q);
    forall k ensures Sorts(field, descending, list, SeesThen(s, t)(k)) && |SeesThen(s, t)(k)| == |list| {
    }
  }

  lemma PartsDiffer(list: seq<Entity>, s: seq<Entity>, t: seq<Entity>, p: nat, q: nat)
    requires p < q < |t| == |s| == |list| && t[q] == s[p] && multiset(list)[s[p]] == 1
    ensures multiset(Walk(SeesThen(s, t), 0, 0, p + 1, |list|)) != multiset(list)
  {
    WalkSeesThen(s, t, p + 1);
    TwiceInParts(s, t, p, q);
  }

  lemma InDistinctOnce(list: seq<Entity>, e: Entity)
    requires Distinct(list) && e in list
    ensures multiset(list)[e] == 1
  {
    var i :| 0 <= i < |list| && list[i] == e;
    OccursOnce(list, i);
  }

  /**
   * Page calls return every match of a duplicate-free list exactly once, for every choice of sorted answers and every
   * limit, if and only if no two sort keys are equal.
   */
  lemma PagesExactIff(field: string, descending: bool, kind: Kind, list: seq<Entity>)
    requires Distinct(list) && forall e :: e in list ==> HasKey(field, kind, e)
    ensures (forall answers: nat -> seq<Entity>, limit: nat
               {:trigger PagesExact(field, descending, list, answers, limit)} ::
               PagesExact(field, descending, list, answers, limit))
            <==> DistinctKeys(field, kind, list)
  {
    if DistinctKeys(field, kind, list) {
      forall answers: nat -> seq<Entity>, limit: nat ensures PagesExact(field, descending, list, answers, limit) {
        if limit > 0 && forall k :: Sorts(field, descending, list, answers(k)) && |answers(k)| == |list| {
          PagesConcatenate(field, descending, kind, k => list, answers, limit);
        }
      }
    } else {
      var answers, limit := SomePagesRepeat(field, descending, kind, list);
      assert !PagesExact(field, descending, list, answers, limit);
    }
  }

  lemma SomePagesRepeat(field: string, descending: bool, kind: Kind, list: seq<Entity>)
    returns (answers: nat -> seq<Entity>, limit: nat)
    requires Distinct(list) && (forall e :: e in list ==> HasKey(field, kind, e)) && !DistinctKeys(field, kind, list)
    ensures !PagesExact(field, descending, list, answers, limit)
  {
    var s, p, q := EqualKeyPositions(field, descending, kind, list);
    EqualKeysRepeat(field, descending, kind, list, s, p, q);
    answers, limit := SeesThen(s, Exchanged(s, p, q)), p + 1;
  }

  lemma EqualKeyPositions(field: string, descending: bool, kind: Kind, list: seq<Entity>)
    returns (s: seq<Entity>, p: nat, q: nat)
    requires Distinct(list) && (forall e :: e in list ==> HasKey(field, kind, e)) && !DistinctKeys(field, kind, list)
    ensures Sorts(field, descending, list, s) && p < q < |s| && SameKey(field, s[p], s[q])
  {
    var i, j :| 0 <= i < j < |list| && SameKey(field, list[i], list[j]);
    s := SortExists(field, descending, kind, list);
    p, q := Positions(s, list, i, j);
    assert SameKey(field, list[j], list[i]);
  }

  lemma Positions<T>(s: seq<T>, list: seq<T>, i: nat, j: nat) returns (p: nat, q: nat)
    requires multiset(s) == multiset(list) && i < j < |list| && list[i] != list[j]
    ensures p < q < |s| && ((s[p] == list[i] && s[q] == list[j]) || (s[p] == list[j] && s[q] == list[i]))
  {
    SameMembers(s, list);
    assert list[i] in s && list[j] in s;
    p :| 0 <= p < |s| && s[p] == list[i];
    q :| 0 <= q < |s| && s[q] == list[j];
    if q < p { p, q := q, p; }
  }
}
