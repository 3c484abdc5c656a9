/** What a join answers, row by row and place by place. */
module JoinResults {
  import opened Common
  import opened Numerals
  import opened Validation
  import opened Joins

  // ---------- which keys are the same ----------

  /** The value counts as the 64-bit integer n: an integer, a whole float64, or a text that reads as one. */
  predicate CountsAs(v: Value, n: int) {
    match v
    case Str(s) => Atoi(s) == Some(n)
    case Whole(kind, m) =>
      if kind == Uint && m >= TWO_63 then n == m - TWO_64 else n == m && (kind == Uint64 ==> m < TWO_63)
    case Float64(r) => -TWO_63 <= n < TWO_63 && r == n as real
    case _ => false
  }

  ghost predicate CountsAsSome(v: Value) { exists n :: CountsAs(v, n) }

  /** Both count as one integer; or neither does, and they are the same value or the same float of any width. */
  ghost predicate SameKey(v: Value, w: Value) {
    || (exists n :: CountsAs(v, n) && CountsAs(w, n))
    || (!CountsAsSome(v) && !CountsAsSome(w) && (v == w || SameFloat(v, w)))
  }

  predicate SameFloat(v: Value, w: Value) {
    (v.Float32? || v.Float64?) && (w.Float32? || w.Float64?) && v.r == w.r
  }

  lemma NormaliseCounts(v: Value)
    ensures forall n :: CountsAs(v, n) <==> Normalise(v) == Whole(Int, n)
    ensures !CountsAsSome(v) ==> Normalise(v) == if v.Float32? then Float64(v.r) else v
  {
    match v
    case Str(s) => if Atoi(s).Some? { assert CountsAs(v, Atoi(s).value); }
    case Whole(_, _) => if Normalise(v).Whole? && Normalise(v).kind == Int { assert CountsAs(v, Normalise(v).n); }
    case Float64(r) => if IsWhole(r) { assert CountsAs(v, r.Floor); }
    case _ =>
  }

  /** Keys are compared as integers where they count as such, else as values. */
  lemma SameKeyIff(v: Value, w: Value)
    ensures Normalise(v) == Normalise(w) <==> SameKey(v, w)
  {
    NormaliseCounts(v);
    NormaliseCounts(w);
  }

  /** The value compared on the row's side: its id or a field. */
  predicate LocalKey(join: Options, row: Entity, v: Value) {
    if join.localField == "id" then v == Str(row.id)
    else join.localField in row.fields && v == row.fields[join.localField]
  }

  /** On the target's side a field called id comes before the id. */
  predicate ForeignKey(join: Options, target: Entity, v: Value) {
    if join.foreignField in target.fields then v == target.fields[join.foreignField]
    else join.foreignField == "id" && v == Str(target.id)
  }

  ghost predicate Meeting(join: Options, row: Entity, target: Entity) {
    exists v, w :: LocalKey(join, row, v) && ForeignKey(join, target, w) && SameKey(v, w)
  }

  lemma MeetsIff(join: Options, row: Entity, target: Entity)
    ensures Meets(join, row, target) <==> Meeting(join, row, target)
  {
    if LocalValue(join, row).Some? && ForeignValue(join, target).Some? {
      var v, w := LocalValue(join, row).value, ForeignValue(join, target).value;
      SameKeyIff(v, w);
      assert LocalKey(join, row, v) && ForeignKey(join, target, w);
    }
    if v, w :| LocalKey(join, row, v) && ForeignKey(join, target, w) && SameKey(v, w) {
      SameKeyIff(v, w);
    }
  }

  // ---------- what a row gets ----------

  /** The fields asked for: all but the internal ones, or those in the list; never an excluded one. */
  predicate AskedFor(join: Options, name: string) {
    && name !in join.excluded
    && if |join.included| == 0 then |name| == 0 || name[0] != '_' else name in join.included
  }

  /** The object a target is shown as: the fields asked for, and the id, as an integer if its type counts its ids. */
  predicate Shows(definitions: map<string, EntityDefinition>, join: Options, target: Entity, shown: Fields) {
    && "id" in shown
    && (forall name :: name in shown && name != "id" ==>
          name in target.fields && AskedFor(join, name) && shown[name] == target.fields[name])
    && (forall name :: name in target.fields && AskedFor(join, name) ==> name in shown)
    && var counted := target.typ in definitions && definitions[target.typ].idGenerator == AutoIncrement;
       shown["id"] == if counted && Atoi(target.id).Some? then Whole(Int, Atoi(target.id).value)
                      else if "id" in target.fields && AskedFor(join, "id") then target.fields["id"]
                      else Str(target.id)
  }

  lemma ShownShows(definitions: map<string, EntityDefinition>, join: Options, target: Entity)
    ensures Shows(definitions, join, target, Shown(definitions, join, target))
  {
  }

  /** The places, in order, of a list that has n. */
  predicate Rising(places: seq<nat>, n: nat) {
    && (forall k, l :: 0 <= k < l < |places| ==> places[k] < places[l])
    && forall k :: 0 <= k < |places| ==> places[k] < n
  }

  /** Exactly the places of the targets that the row meets, in order. */
  ghost predicate MeetingPlaces(join: Options, row: Entity, targets: seq<Entity>, places: seq<nat>) {
    && Rising(places, |targets|)
    && forall i: nat :: i < |targets| ==> (i in places <==> Meeting(join, row, targets[i]))
  }

  /** The value shows the targets: the first of them as an object, or all of them as an array of objects, in order. */
  predicate Carries(definitions: map<string, EntityDefinition>, join: Options, targets: seq<Entity>, places: seq<nat>,
      v: Value)
    requires Rising(places, |targets|) && places != []
  {
    if join.strategy == "all"
    then
      && v.Arr? && |v.elems| == |places|
      && forall k :: 0 <= k < |places| ==> IsShown(definitions, join, targets[places[k]], v.elems[k])
    else IsShown(definitions, join, targets[places[0]], v)
  }

  predicate IsShown(definitions: map<string, EntityDefinition>, join: Options, target: Entity, v: Value) {
    v.Obj? && Shows(definitions, join, target, v.members)
  }

  /** The field the result goes to: the name asked for, else the older option's, else the name of the type. */
  predicate Names(join: Options, field: string) {
    if join.resultField != "" then field == join.resultField
    else if join.legacyAs != "" then field == join.legacyAs
    else field == join.entityType
  }

  /** The row with the targets it meets in its result field; unchanged if there are none or the strategy is unknown. */
  ghost predicate JoinedRow(definitions: map<string, EntityDefinition>, join: Options, row: Entity,
      targets: seq<Entity>, joined: Entity) {
    exists places, field ::
      MeetingPlaces(join, row, targets, places) && JoinedBy(definitions, join, row, targets, places, field, joined)
  }

  predicate JoinedBy(definitions: map<string, EntityDefinition>, join: Options, row: Entity, targets: seq<Entity>,
      places: seq<nat>, field: string, joined: Entity)
    requires Rising(places, |targets|)
  {
    && Names(join, field)
    && if places == [] || join.strategy !in {"", "first", "all"} then joined == row
       else
         && field in joined.fields && joined == row.(fields := row.fields[field := joined.fields[field]])
         && Carries(definitions, join, targets, places, joined.fields[field])
  }

  lemma {:induction false} MatchPlaces(join: Options, row: Entity, targets: seq<Entity>) returns (places: seq<nat>)
    ensures MeetingPlaces(join, row, targets, places)
    ensures |Matches(join, row, targets)| == |places|
    ensures forall k :: 0 <= k < |places| ==> Matches(join, row, targets)[k] == targets[places[k]]
  {
    if targets == [] {
      places := [];
    } else {
      var n := |targets| - 1;
      places := MatchPlaces(join, row, targets[..n]);
      MeetsIff(join, row, targets[n]);
      var before := places;
      if Meets(join, row, targets[n]) { places := before + [n]; }
      forall i: nat | i < |targets| ensures i in places <==> Meeting(join, row, targets[i]) {
        assert i in places <==> i in before || (i == n && Meets(join, row, targets[n]));
        if i < n { assert targets[..n][i] == targets[i]; }
      }
    }
  }

  lemma AttachedCarries(definitions: map<string, EntityDefinition>, join: Options, row: Entity, targets: seq<Entity>,
      places: seq<nat>, matches: seq<Entity>)
    requires Rising(places, |targets|) && places != [] && join.strategy in {"", "first", "all"}
    requires |matches| == |places| && forall k :: 0 <= k < |places| ==> matches[k] == targets[places[k]]
    ensures var joined, field := Attached(definitions, join, row, matches), ResultField(join);
            && field in joined.fields && joined == row.(fields := row.fields[field := joined.fields[field]])
            && Carries(definitions, join, targets, places, joined.fields[field])
  {
    forall k | 0 <= k < |places| ensures Shows(definitions, join, matches[k], Shown(definitions, join, matches[k])) {
      ShownShows(definitions, join, matches[k]);
    }
    var v := Attached(definitions, join, row, matches).fields[ResultField(join)];
    if join.strategy == "all" {
      forall k | 0 <= k < |places| ensures IsShown(definitions, join, targets[places[k]], v.elems[k]) {
        assert v.elems[k] == Obj(Shown(definitions, join, matches[k]));
      }
    } else {
      assert v == Obj(Shown(definitions, join, matches[0]));
    }
  }

  lemma AttachedNothing(definitions: map<string, EntityDefinition>, join: Options, row: Entity, matches: seq<Entity>)
    requires matches == [] || join.strategy !in {"", "first", "all"}
    ensures Attached(definitions, join, row, matches) == row
  {
  }

  lemma AttachedIsJoined(definitions: map<string, EntityDefinition>, join: Options, row: Entity, targets: seq<Entity>)
    ensures JoinedRow(definitions, join, row, targets, Attached(definitions, join, row, Matches(join, row, targets)))
  {
    var places := MatchPlaces(join, row, targets);
    var matches := Matches(join, row, targets);
    if places != [] && join.strategy in {"", "first", "all"} {
      AttachedCarries(definitions, join, row, targets, places, matches);
    } else {
      AttachedNothing(definitions, join, row, matches);
    }
    assert JoinedBy(definitions, join, row, targets, places, ResultField(join),
        Attached(definitions, join, row, matches));
  }

  // ---------- which rows stay ----------

  /** Without another join type, a join drops the rows that meet nothing. */
  predicate DropsOthers(join: Options) {
    join.joinType == "inner" || (join.joinType == "" && join.legacyType in {"", "inner"})
  }

  ghost predicate MeetsSome(join: Options, row: Entity, targets: seq<Entity>) {
    exists i :: 0 <= i < |targets| && Meeting(join, row, targets[i])
  }

  /** Exactly the places of the rows that stay, in order. */
  ghost predicate StayingPlaces(join: Options, rows: seq<Entity>, targets: seq<Entity>, places: seq<nat>) {
    && Rising(places, |rows|)
    && forall i: nat :: i < |rows| ==>
         (i in places <==> !DropsOthers(join) || MeetsSome(join, rows[i], targets))
  }

  /** The rows that stay, in order, each with what it meets. */
  ghost predicate JoinedRows(definitions: map<string, EntityDefinition>, join: Options, rows: seq<Entity>,
      targets: seq<Entity>, joined: seq<Entity>) {
    exists places ::
      && StayingPlaces(join, rows, targets, places) && |joined| == |places|
      && forall k :: 0 <= k < |places| ==> JoinedRow(definitions, join, rows[places[k]], targets, joined[k])
  }

  lemma NoMatchIff(join: Options, row: Entity, targets: seq<Entity>)
    ensures Matches(join, row, targets) == [] <==> !MeetsSome(join, row, targets)
  {
    var places := MatchPlaces(join, row, targets);
    if places != [] {
      assert places[0] in places && Meeting(join, row, targets[places[0]]);
    }
  }

  lemma StaysToo(join: Options, rows: seq<Entity>, targets: seq<Entity>, before: seq<nat>) returns (places: seq<nat>)
    requires rows != [] && StayingPlaces(join, rows[..|rows| - 1], targets, before)
    ensures StayingPlaces(join, rows, targets, places)
    ensures places == if DropsOthers(join) && !MeetsSome(join, rows[|rows| - 1], targets) then before
                      else before + [|rows| - 1]
  {
    var n := |rows| - 1;
    var stays := !DropsOthers(join) || MeetsSome(join, rows[n], targets);
    places := if stays then before + [n] else before;
    forall i: nat | i < |rows| ensures i in places <==> !DropsOthers(join) || MeetsSome(join, rows[i], targets) {
      assert i in places <==> i in before || (i == n && stays);
      if i < n { assert rows[..n][i] == rows[i]; }
    }
  }

  /** Row k of the answer is the join of the row at place k of those that stay. */
  ghost predicate JoinedAt(definitions: map<string, EntityDefinition>, join: Options, rows: seq<Entity>,
      targets: seq<Entity>, places: seq<nat>, k: nat)
    requires k < |places| == |NestedLoop(definitions, join, rows, targets)| && Rising(places, |rows|)
  {
    JoinedRow(definitions, join, rows[places[k]], targets, NestedLoop(definitions, join, rows, targets)[k])
  }

  /** The places are those of the rows that stay, and the answer is their joins. */
  ghost predicate Stayed(definitions: map<string, EntityDefinition>, join: Options, rows: seq<Entity>,
      targets: seq<Entity>, places: seq<nat>) {
    && StayingPlaces(join, rows, targets, places)
    && |places| == |NestedLoop(definitions, join, rows, targets)|
    && forall k :: 0 <= k < |places| ==> JoinedAt(definitions, join, rows, targets, places, k)
  }

  lemma NestedLoopStep(definitions: map<string, EntityDefinition>, join: Options, rows: seq<Entity>,
      targets: seq<Entity>)
    requires rows != []
    ensures var n := |rows| - 1;
            NestedLoop(definitions, join, rows, targets) == NestedLoop(definitions, join, rows[..n], targets)
                + if DropsOthers(join) && !MeetsSome(join, rows[n], targets) then []
                  else [Attached(definitions, join, rows[n], Matches(join, rows[n], targets))]
  {
    NoMatchIff(join, rows[|rows| - 1], targets);
  }

  lemma StayedOneMore(definitions: map<string, EntityDefinition>, join: Options, rows: seq<Entity>,
      targets: seq<Entity>, before: seq<nat>) returns (places: seq<nat>)
    requires rows != [] && Stayed(definitions, join, rows[..|rows| - 1], targets, before)
    ensures Stayed(definitions, join, rows, targets, places)
  {
    var n := |rows| - 1;
    places := StaysToo(join, rows, targets, before);
    NestedLoopStep(definitions, join, rows, targets);
    AttachedIsJoined(definitions, join, rows[n], targets);
    forall k | 0 <= k < |places| ensures JoinedAt(definitions, join, rows, targets, places, k) {
      if k < |before| { assert JoinedAt(definitions, join, rows[..n], targets, before, k); }
    }
  }

  lemma {:induction false} StayPlaces(definitions: map<string, EntityDefinition>, join: Options, rows: seq<Entity>,
      targets: seq<Entity>) returns (places: seq<nat>)
    ensures Stayed(definitions, join, rows, targets, places)
  {
    if rows == [] {
      places := [];
    } else {
      places := StayPlaces(definitions, join, rows[..|rows| - 1], targets);
      places := StayedOneMore(definitions, join, rows, targets, places);
    }
  }

  /** A join that does not stop answers exactly the rows that stay, each with exactly the targets it meets. */
  lemma JoinAnswers(definitions: map<string, EntityDefinition>, join: Options, rows: seq<Entity>, targets: seq<Entity>)
    requires JoinOf(definitions, join, rows, targets).Some?
    ensures JoinedRows(definitions, join, rows, targets, JoinOf(definitions, join, rows, targets).value)
  {
    var places := StayPlaces(definitions, join, rows, targets);
    forall k | 0 <= k < |places|
      ensures JoinedRow(definitions, join, rows[places[k]], targets, NestedLoop(definitions, join, rows, targets)[k])
    {
      assert JoinedAt(definitions, join, rows, targets, places, k);
    }
  }

  /** It stops exactly on an array or object as a key. */
  lemma JoinStopsIff(definitions: map<string, EntityDefinition>, join: Options, rows: seq<Entity>,
      targets: seq<Entity>)
    ensures JoinOf(definitions, join, rows, targets).None? <==>
            || (exists row, v :: row in rows && LocalKey(join, row, v) && (v.Arr? || v.Obj?))
            || (exists target, w :: target in targets && ForeignKey(join, target, w) && (w.Arr? || w.Obj?))
  {
    forall row, v ensures LocalKey(join, row, v) <==> LocalValue(join, row) == Some(v) {}
    forall target, w ensures ForeignKey(join, target, w) <==> ForeignValue(join, target) == Some(w) {}
  }
}
