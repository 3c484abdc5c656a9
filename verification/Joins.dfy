/** Joins between entity types: a hash join standing in for a nested loop. */
module Joins {
  import opened Common
  import opened Numerals
  import opened Validation

  // ---------- comparing keys ----------

  /** normalizeForJoinComparison on a 64-bit platform. */
  function Normalise(v: Value): Value {
    match v
    case Str(s) => (match Atoi(s) case Some(n) => Whole(Int, n) case None => v)
    case Whole(Uint64, n) => if n < TWO_63 then Whole(Int, n) else v
    case Whole(Uint, n) => Whole(Int, if n < TWO_63 then n else n - TWO_64)
    case Whole(_, n) => Whole(Int, n)
    case Float32(r) => Float64(r)
    case Float64(r) => if IsWhole(r) then Whole(Int, r.Floor) else v
    case _ => v
  }

  /** The values a Go integer type can hold. */
  predicate InRange(kind: IntKind, n: int) {
    match kind
    case Int | Int64 => -TWO_63 <= n < TWO_63
    case Int8 => -0x80 <= n < 0x80
    case Int16 => -0x8000 <= n < 0x8000
    case Int32 => -0x8000_0000 <= n < 0x8000_0000
    case Uint | Uint64 => 0 <= n < TWO_64
    case Uint8 => 0 <= n < 0x100
    case Uint16 => 0 <= n < 0x1_0000
    case Uint32 => 0 <= n < 0x1_0000_0000
  }

  /** An integer foreign key meets an auto-increment id exactly when the id was printed from that number, below 2^63. */
  lemma IntegerMeetsPrintedId(kind: IntKind, n: int, m: nat)
    requires InRange(kind, n)
    ensures Normalise(Whole(kind, n)) == Normalise(Str(Decimal(m))) <==> n == m && m < TWO_63
  {
    AtoiOfDecimal(m);
  }

  /** So does a whole float. */
  lemma WholeFloatMeetsPrintedId(r: real, m: nat)
    ensures Normalise(Float64(r)) == Normalise(Str(Decimal(m))) <==> r == m as real && m < TWO_63
  {
    AtoiOfDecimal(m);
  }

  /** Arrays and objects cannot be keys of a Go map: using one stops the program. */
  predicate Hashable(v: Value) { !v.Arr? && !v.Obj? }

  // ---------- what a join asks for ----------

  datatype Options = Options(
    entityType: string, localField: string, foreignField: string,
    joinType: string, legacyType: string, resultField: string, legacyAs: string,
    strategy: string, included: seq<string>, excluded: seq<string>)

  function ResultField(join: Options): string {
    if join.resultField != "" then join.resultField else if join.legacyAs != "" then join.legacyAs else join.entityType
  }

  predicate Inner(join: Options) {
    var typ := if join.joinType != "" then join.joinType else join.legacyType;
    typ == "" || typ == "inner"
  }

  predicate First(join: Options) { join.strategy == "" || join.strategy == "first" }

  function LocalValue(join: Options, row: Entity): Option<Value> {
    if join.localField == "id" then Some(Str(row.id))
    else if join.localField in row.fields then Some(row.fields[join.localField]) else None
  }

  function ForeignValue(join: Options, target: Entity): Option<Value> {
    if join.foreignField in target.fields then Some(target.fields[join.foreignField])
    else if join.foreignField == "id" then Some(Str(target.id)) else None
  }

  /** The row and the target have the same key. */
  predicate Meets(join: Options, row: Entity, target: Entity) {
    && LocalValue(join, row).Some? && ForeignValue(join, target).Some?
    && Normalise(LocalValue(join, row).value) == Normalise(ForeignValue(join, target).value)
  }

  // ---------- the fields of a joined entity ----------

  predicate Kept(join: Options, name: string) {
    name !in join.excluded && if join.included == [] then !Reserved(name) else name in join.included
  }

  /** filterJoinFields; an auto-increment id comes back as an integer. */
  function Shown(definitions: map<string, EntityDefinition>, join: Options, target: Entity): Fields {
    var fields := map["id" := Str(target.id)] + map name | name in target.fields && Kept(join, name) ::
        target.fields[name];
    if target.typ in definitions && definitions[target.typ].idGenerator == AutoIncrement && Atoi(target.id).Some? then
      fields["id" := Whole(Int, Atoi(target.id).value)]
    else fields
  }

  // ---------- the nested loop ----------

  /** Every target the row meets, in the order of the targets. */
  function Matches(join: Options, row: Entity, targets: seq<Entity>): seq<Entity> {
    if targets == [] then []
    else
      Matches(join, row, targets[..|targets| - 1])
      + if Meets(join, row, targets[|targets| - 1]) then [targets[|targets| - 1]] else []
  }

  /** The row with what the join attaches to it. */
  function Attached(definitions: map<string, EntityDefinition>, join: Options, row: Entity,
      matches: seq<Entity>): Entity {
    if matches == [] then row
    else if First(join) then row.(fields := row.fields[ResultField(join) := Obj(Shown(definitions, join, matches[0]))])
    else if join.strategy == "all" then
      row.(fields := row.fields[ResultField(join) :=
          Arr(seq(|matches|, i requires 0 <= i < |matches| => Obj(Shown(definitions, join, matches[i]))))])
    else row
  }

  /** For each row in turn, look at every target. */
  function NestedLoop(definitions: map<string, EntityDefinition>, join: Options, rows: seq<Entity>,
      targets: seq<Entity>): seq<Entity> {
    if rows == [] then []
    else
      var last := rows[|rows| - 1];
      var matches := Matches(join, last, targets);
      NestedLoop(definitions, join, rows[..|rows| - 1], targets)
      + if Inner(join) && matches == [] then [] else [Attached(definitions, join, last, matches)]
  }

  predicate Hashes(join: Options, rows: seq<Entity>, targets: seq<Entity>) {
    && (forall row :: row in rows && LocalValue(join, row).Some? ==> Hashable(LocalValue(join, row).value))
    && (forall target :: target in targets && ForeignValue(join, target).Some? ==>
        Hashable(ForeignValue(join, target).value))
  }

  /** The join of rows with the targets; None when a key cannot be hashed. */
  function JoinOf(definitions: map<string, EntityDefinition>, join: Options, rows: seq<Entity>,
      targets: seq<Entity>): Option<seq<Entity>> {
    if Hashes(join, rows, targets) then Some(NestedLoop(definitions, join, rows, targets)) else None
  }

  // ---------- what the nested loop means ----------

  lemma {:induction false} MatchesAreExact(join: Options, row: Entity, targets: seq<Entity>, t: Entity)
    ensures t in Matches(join, row, targets) <==> t in targets && Meets(join, row, t)
  {
    if targets == [] {
    } else {
      SplitLast(targets);
      MatchesAreExact(join, row, targets[..|targets| - 1], t);
    }
  }

  /** A left join keeps every row, in order, and changes at most its result field. */
  lemma {:induction false} LeftJoinKeepsRows(definitions: map<string, EntityDefinition>, join: Options,
      rows: seq<Entity>, targets: seq<Entity>)
    requires !Inner(join)
    ensures |NestedLoop(definitions, join, rows, targets)| == |rows|
    ensures forall i :: 0 <= i < |rows| ==>
              NestedLoop(definitions, join, rows, targets)[i] == Attached(definitions, join, rows[i],
                  Matches(join, rows[i], targets))
  {
    if rows == [] {
    } else {
      LeftJoinKeepsRows(definitions, join, rows[..|rows| - 1], targets);
    }
  }

  /** The rows that meet some target, in order. */
  function MeetingRows(join: Options, rows: seq<Entity>, targets: seq<Entity>): seq<Entity> {
    if rows == [] then []
    else
      MeetingRows(join, rows[..|rows| - 1], targets)
      + if exists t :: t in targets && Meets(join, rows[|rows| - 1], t) then [rows[|rows| - 1]] else []
  }

  /** An inner join keeps exactly the rows with a match, in order, and changes at most their result field. */
  lemma {:induction false} InnerJoinKeepsMeetingRows(
    definitions: map<string, EntityDefinition>, join: Options, rows: seq<Entity>, targets: seq<Entity>)
    requires Inner(join)
    ensures |NestedLoop(definitions, join, rows, targets)| == |MeetingRows(join, rows, targets)|
    ensures forall i :: 0 <= i < |MeetingRows(join, rows, targets)| ==>
              var row := MeetingRows(join, rows, targets)[i];
              NestedLoop(definitions, join, rows, targets)[i] == Attached(definitions, join, row,
                  Matches(join, row, targets))
  {
    if rows == [] {
    } else {
      var last := rows[|rows| - 1];
      InnerJoinKeepsMeetingRows(definitions, join, rows[..|rows| - 1], targets);
      var matches := Matches(join, last, targets);
      if matches != [] { MatchesAreExact(join, last, targets, matches[0]); }
      if t :| t in targets && Meets(join, last, t) { MatchesAreExact(join, last, targets, t); }
    }
  }

  lemma AttachedElsewhere(definitions: map<string, EntityDefinition>, join: Options, row: Entity, matches: seq<Entity>)
    ensures var e := Attached(definitions, join, row, matches);
            && e.id == row.id && e.typ == row.typ && e.fields - {ResultField(join)} == row.fields - {ResultField(join)}
  {
  }

  // ---------- the hash join ----------

  /** The targets stored under one key, in order. */
  function Under(join: Options, targets: seq<Entity>, key: Value): seq<Entity> {
    if targets == [] then []
    else
      var last := targets[|targets| - 1];
      Under(join, targets[..|targets| - 1], key)
      + if ForeignValue(join, last).Some? && Normalise(ForeignValue(join, last).value) == key then [last] else []
  }

  lemma {:induction false} UnderIsMatches(join: Options, row: Entity, targets: seq<Entity>)
    ensures LocalValue(join, row).None? ==> Matches(join, row, targets) == []
    ensures LocalValue(join, row).Some? ==>
        Matches(join, row, targets) == Under(join, targets, Normalise(LocalValue(join, row).value))
  {
    if targets == [] {
    } else {
      UnderIsMatches(join, row, targets[..|targets| - 1]);
    }
  }

  /** The map holds, under every key, the targets that have it. */
  ghost predicate Grouped(join: Options, targets: seq<Entity>, groups: map<Value, seq<Entity>>) {
    forall key {:trigger Under(join, targets, key)} :: (if key in groups then groups[key] else []) == Under(join,
        targets, key)
  }

  lemma GroupOneMore(join: Options, targets: seq<Entity>, i: nat, groups: map<Value, seq<Entity>>)
    requires i < |targets| && Grouped(join, targets[..i], groups)
    ensures var foreign := ForeignValue(join, targets[i]);
            Grouped(join, targets[..i + 1],
              if foreign.None? then groups
              else var key := Normalise(foreign.value);
                  groups[key := (if key in groups then groups[key] else []) + [targets[i]]])
  {
    assert targets[..i + 1][..i] == targets[..i];
    var foreign := ForeignValue(join, targets[i]);
    var more := if foreign.None? then groups
                else var k := Normalise(foreign.value);
                    groups[k := (if k in groups then groups[k] else []) + [targets[i]]];
    forall key ensures (if key in more then more[key] else []) == Under(join, targets[..i + 1], key) {
      assert (if key in groups then groups[key] else []) == Under(join, targets[..i], key);
    }
  }

  /** The first loop of executeJoin; None is the panic on a key that cannot be hashed. */
  method GroupTargets(join: Options, targets: seq<Entity>) returns (groups: Option<map<Value, seq<Entity>>>)
    ensures groups.None? <==> exists t ::
        t in targets && ForeignValue(join, t).Some? && !Hashable(ForeignValue(join, t).value)
    ensures groups.Some? ==> Grouped(join, targets, groups.value)
  {
    var result: map<Value, seq<Entity>> := map[];
    for i := 0 to |targets|
      invariant Grouped(join, targets[..i], result)
      invariant forall t :: t in targets[..i] && ForeignValue(join, t).Some? ==> Hashable(ForeignValue(join, t).value)
    {
      var target := targets[i];
      GroupOneMore(join, targets, i, result);
      assert targets[..i + 1] == targets[..i] + [target];
      var foreign := ForeignValue(join, target);
      if foreign.Some? {
        if !Hashable(foreign.value) { return None; }
        var key := Normalise(foreign.value);
        result := result[key := (if key in result then result[key] else []) + [target]];
      }
    }
    assert targets[..|targets|] == targets;
    return Some(result);
  }

  /** What one row gets in the second loop: excluded, or fields to add. */
  method MatchRow(definitions: map<string, EntityDefinition>, join: Options, row: Entity, ghost targets: seq<Entity>,
      groups: map<Value, seq<Entity>>)
    returns (excluded: bool, added: Fields)
    requires Grouped(join, targets, groups)
    ensures excluded <==> Inner(join) && Matches(join, row, targets) == []
    ensures !excluded ==> row.(fields := row.fields + added) == Attached(definitions, join, row,
        Matches(join, row, targets))
  {
    UnderIsMatches(join, row, targets);
    added := map[];
    var local := LocalValue(join, row);
    if local.None? { return Inner(join), added; }
    var key := Normalise(local.value);
    assert Under(join, targets, key) == Matches(join, row, targets);
    var matches := if key in groups then groups[key] else [];
    if |matches| == 0 { return Inner(join), added; }
    if First(join) {
      added := map[ResultField(join) := Obj(Shown(definitions, join, matches[0]))];
    } else if join.strategy == "all" {
      var joined := ShowAll(definitions, join, matches);
      added := map[ResultField(join) := Arr(joined)];
    }
    return false, added;
  }

  method ShowAll(definitions: map<string, EntityDefinition>, join: Options, matches: seq<Entity>)
      returns (joined: seq<Value>)
    ensures joined == seq(|matches|, i requires 0 <= i < |matches| => Obj(Shown(definitions, join, matches[i])))
  {
    joined := [];
    for i := 0 to |matches|
      invariant joined == seq(i, j requires 0 <= j < i => Obj(Shown(definitions, join, matches[j])))
    {
      joined := joined + [Obj(Shown(definitions, join, matches[i]))];
    }
  }

  /** executeJoin, from the list of target entities on: the hash join gives what the nested loop gives. */
  method ExecuteJoin(definitions: map<string, EntityDefinition>, join: Options, rows: seq<Entity>, targets: seq<Entity>)
    returns (joined: Option<seq<Entity>>)
    ensures joined == JoinOf(definitions, join, rows, targets)
  {
    var groups := GroupTargets(join, targets);
    if groups.None? { return None; }
    var result: seq<Entity> := [];
    for i := 0 to |rows|
      invariant forall row :: row in rows[..i] && LocalValue(join, row).Some? ==> Hashable(LocalValue(join, row).value)
      invariant result == NestedLoop(definitions, join, rows[..i], targets)
    {
      var row := rows[i];
      assert rows[..i + 1] == rows[..i] + [row];
      if LocalValue(join, row).Some? && !Hashable(LocalValue(join, row).value) { return None; }
      var excluded, added := MatchRow(definitions, join, row, targets, groups.value);
      if !excluded {
        result := result + [row.(fields := row.fields + added)];
      }
    }
    assert rows[..|rows|] == rows;
    return Some(result);
  }

  // ---------- running the join list twice ----------

  type Plan = seq<(Options, seq<Entity>)>

  /** The joins one after another, each with its own list of targets. */
  function RunJoins(definitions: map<string, EntityDefinition>, plan: Plan, rows: seq<Entity>): Option<seq<Entity>> {
    if plan == [] then Some(rows)
    else
      match RunJoins(definitions, plan[..|plan| - 1], rows)
      case None => None
      case Some(before) => JoinOf(definitions, plan[|plan| - 1].0, before, plan[|plan| - 1].1)
  }

  /** The join compares something the given writes leave alone. */
  predicate Untouched(join: Options, w: Fields) { join.localField == "id" || join.localField !in w }

  predicate AllUntouched(plan: Plan, w: Fields) {
    forall i :: 0 <= i < |plan| ==> Untouched(plan[i].0, w)
  }

  /** No join writes a field that it or an earlier join compares. */
  predicate Independent(plan: Plan) {
    forall i, j :: 0 <= i <= j < |plan| ==>
        plan[i].0.localField == "id" || plan[i].0.localField != ResultField(plan[j].0)
  }

  /** What one join writes into a row that has the given match list. */
  function Written(definitions: map<string, EntityDefinition>, join: Options, matches: seq<Entity>): Fields {
    Attached(definitions, join, Entity("", "", map[]), matches).fields
  }

  /** What the whole plan writes into a row; None when an inner join drops the row. */
  function Writes(definitions: map<string, EntityDefinition>, plan: Plan, row: Entity): Option<Fields> {
    if plan == [] then Some(map[])
    else
      var join, targets := plan[|plan| - 1].0, plan[|plan| - 1].1;
      match Writes(definitions, plan[..|plan| - 1], row)
      case None => None
      case Some(before) =>
        if Inner(join) && Matches(join, row, targets) == [] then None
        else Some(before + Written(definitions, join, Matches(join, row, targets)))
  }

  /** The row with what the plan writes into it, unless an inner join drops it. */
  function Passed(definitions: map<string, EntityDefinition>, plan: Plan, row: Entity): seq<Entity> {
    match Writes(definitions, plan, row)
    case None => []
    case Some(w) => [row.(fields := row.fields + w)]
  }

  /** The rows the plan keeps, each with its writes. */
  function RowByRow(definitions: map<string, EntityDefinition>, plan: Plan, rows: seq<Entity>): seq<Entity> {
    if rows == [] then []
    else
      RowByRow(definitions, plan, rows[..|rows| - 1]) + Passed(definitions, plan, rows[|rows| - 1])
  }

  lemma {:induction false} WritesUnhashable(definitions: map<string, EntityDefinition>, plan: Plan, row: Entity)
    ensures Writes(definitions, plan, row).Some? ==>
              forall name :: name in Writes(definitions, plan, row).value ==>
                  !Hashable(Writes(definitions, plan, row).value[name])
  {
    if plan == [] {
    } else {
      WritesUnhashable(definitions, plan[..|plan| - 1], row);
    }
  }

  /** What the plan writes was written by its first n joins or carries the name of a later join's result. */
  lemma {:induction false} WrittenLater(definitions: map<string, EntityDefinition>, plan: Plan, n: nat, row: Entity,
      name: string)
    requires n <= |plan| && Writes(definitions, plan, row).Some? && name in Writes(definitions, plan, row).value
    ensures Writes(definitions, plan[..n], row).Some?
    ensures name in Writes(definitions, plan[..n], row).value || exists j ::
        n <= j < |plan| && name == ResultField(plan[j].0)
    decreases |plan|
  {
    if n == |plan| {
      assert plan[..n] == plan;
    } else {
      var front := plan[..|plan| - 1];
      assert front[..n] == plan[..n];
      EarlierWrites(definitions, plan, n, row);
      if name in Writes(definitions, front, row).value {
        WrittenLater(definitions, front, n, row, name);
        if j :| n <= j < |front| && name == ResultField(front[j].0) { assert plan[j] == front[j]; }
      } else {
        assert name == ResultField(plan[|plan| - 1].0);
      }
    }
  }

  /** A row the plan keeps is kept by every prefix of it, which writes no other names. */
  lemma {:induction false} EarlierWrites(definitions: map<string, EntityDefinition>, plan: Plan, n: nat, row: Entity)
    requires n <= |plan| && Writes(definitions, plan, row).Some?
    ensures Writes(definitions, plan[..n], row).Some?
    ensures Writes(definitions, plan[..n], row).value.Keys <= Writes(definitions, plan, row).value.Keys
    decreases |plan|
  {
    if n == |plan| {
      assert plan[..n] == plan;
    } else {
      var front := plan[..|plan| - 1];
      assert front[..n] == plan[..n];
      EarlierWrites(definitions, front, n, row);
    }
  }

  /** A join sees the same keys in a row whatever is written into its other fields. */
  lemma SameMatches(join: Options, row: Entity, w: Fields, targets: seq<Entity>)
    requires Untouched(join, w)
    ensures LocalValue(join, row.(fields := row.fields + w)) == LocalValue(join, row)
    ensures Matches(join, row.(fields := row.fields + w), targets) == Matches(join, row, targets)
  {
    UnderIsMatches(join, row, targets);
    UnderIsMatches(join, row.(fields := row.fields + w), targets);
  }

  lemma {:induction false} SameWrites(definitions: map<string, EntityDefinition>, plan: Plan, row: Entity, w: Fields)
    requires AllUntouched(plan, w)
    ensures Writes(definitions, plan, row.(fields := row.fields + w)) == Writes(definitions, plan, row)
  {
    if plan == [] {
    } else {
      SameWrites(definitions, plan[..|plan| - 1], row, w);
      SameMatches(plan[|plan| - 1].0, row, w, plan[|plan| - 1].1);
    }
  }

  predicate KeyHashes(join: Options, row: Entity) {
    LocalValue(join, row).Some? ==> Hashable(LocalValue(join, row).value)
  }

  /** The rows that come through the first joins, as those leave them, have keys that hash. */
  predicate RowsHash(definitions: map<string, EntityDefinition>, front: Plan, join: Options, rows: seq<Entity>) {
    forall row :: row in rows && Writes(definitions, front, row).Some? ==>
      KeyHashes(join, row.(fields := row.fields + Writes(definitions, front, row).value))
  }

  predicate TargetsHash(join: Options, targets: seq<Entity>) {
    forall target :: target in targets && ForeignValue(join, target).Some? ==>
        Hashable(ForeignValue(join, target).value)
  }

  /** Every key the plan comes to compare can be hashed. */
  predicate PlanHashes(definitions: map<string, EntityDefinition>, plan: Plan, rows: seq<Entity>) {
    plan == [] ||
    var front, join, targets := plan[..|plan| - 1], plan[|plan| - 1].0, plan[|plan| - 1].1;
    PlanHashes(definitions, front, rows) && TargetsHash(join, targets) && RowsHash(definitions, front, join, rows)
  }

  lemma AttachedIsWritten(definitions: map<string, EntityDefinition>, join: Options, row: Entity, matches: seq<Entity>)
    ensures Attached(definitions, join, row, matches) == row.(fields := row.fields + Written(definitions, join,
        matches))
  {
  }

  lemma {:induction false} RowByRowElements(definitions: map<string, EntityDefinition>, plan: Plan, rows: seq<Entity>,
      x: Entity)
    ensures x in RowByRow(definitions, plan, rows) <==>
            exists row :: row in rows && Writes(definitions, plan, row).Some?
                    && x == row.(fields := row.fields + Writes(definitions, plan, row).value)
  {
    if rows == [] {
    } else {
      SplitLast(rows);
      RowByRowElements(definitions, plan, rows[..|rows| - 1], x);
    }
  }

  /** A key that hashes was not written by an earlier join. */
  lemma HashedIsUntouched(definitions: map<string, EntityDefinition>, front: Plan, join: Options, row: Entity)
    requires Writes(definitions, front, row).Some?
    requires KeyHashes(join, row.(fields := row.fields + Writes(definitions, front, row).value))
    ensures Untouched(join, Writes(definitions, front, row).value)
  {
    WritesUnhashable(definitions, front, row);
  }

  /** One more join over a row the earlier joins have been through. */
  lemma LoopOverPassed(definitions: map<string, EntityDefinition>, plan: Plan, row: Entity)
    requires plan != []
    requires var w := Writes(definitions, plan[..|plan| - 1], row);
             w.Some? ==> KeyHashes(plan[|plan| - 1].0, row.(fields := row.fields + w.value))
    ensures NestedLoop(definitions, plan[|plan| - 1].0, Passed(definitions, plan[..|plan| - 1], row),
        plan[|plan| - 1].1)
            == Passed(definitions, plan, row)
  {
    var front, join, targets := plan[..|plan| - 1], plan[|plan| - 1].0, plan[|plan| - 1].1;
    if Writes(definitions, front, row).Some? {
      var w := Writes(definitions, front, row).value;
      var passed := row.(fields := row.fields + w);
      HashedIsUntouched(definitions, front, join, row);
      SameMatches(join, row, w, targets);
      AttachedIsWritten(definitions, join, passed, Matches(join, row, targets));
      OverlayTwice(row.fields, w, Written(definitions, join, Matches(join, row, targets)));
      LoopOne(definitions, join, passed, targets);
    }
  }

  lemma LoopOne(definitions: map<string, EntityDefinition>, join: Options, row: Entity, targets: seq<Entity>)
    ensures NestedLoop(definitions, join, [row], targets) ==
            if Inner(join) && Matches(join, row, targets) == [] then []
            else [Attached(definitions, join, row, Matches(join, row, targets))]
  {
    assert [row][..0] == [];
  }

  lemma LoopOneMore(definitions: map<string, EntityDefinition>, join: Options, before: seq<Entity>, more: seq<Entity>,
      targets: seq<Entity>)
    requires |more| <= 1
    ensures NestedLoop(definitions, join, before + more, targets)
            == NestedLoop(definitions, join, before, targets) + NestedLoop(definitions, join, more, targets)
  {
    if more == [] {
      assert before + more == before;
    } else {
      assert (before + more)[..|before|] == before && more == [more[0]];
      LoopOne(definitions, join, more[0], targets);
    }
  }

  /** One more join over all such rows. */
  lemma {:induction false} LoopOverWritten(definitions: map<string, EntityDefinition>, plan: Plan, rows: seq<Entity>)
    requires plan != [] && RowsHash(definitions, plan[..|plan| - 1], plan[|plan| - 1].0, rows)
    ensures NestedLoop(definitions, plan[|plan| - 1].0, RowByRow(definitions, plan[..|plan| - 1], rows),
        plan[|plan| - 1].1)
            == RowByRow(definitions, plan, rows)
  {
    if rows == [] {
    } else {
      var n, front := |rows| - 1, plan[..|plan| - 1];
      LoopOverWritten(definitions, plan, rows[..n]);
      LoopOverPassed(definitions, plan, rows[n]);
      LoopOneMore(definitions, plan[|plan| - 1].0, RowByRow(definitions, front, rows[..n]),
          Passed(definitions, front, rows[n]),
                  plan[|plan| - 1].1);
    }
  }

  lemma OverlayTwice<K, V>(a: map<K, V>, b: map<K, V>, c: map<K, V>)
    ensures (a + b) + c == a + (b + c)
  {
  }

  lemma HashesByRow(definitions: map<string, EntityDefinition>, front: Plan, join: Options, rows: seq<Entity>,
      targets: seq<Entity>)
    ensures Hashes(join, RowByRow(definitions, front, rows), targets) <==>
        TargetsHash(join, targets) && RowsHash(definitions, front, join, rows)
  {
    forall x ensures x in RowByRow(definitions, front, rows) <==>
        exists row :: row in rows && Writes(definitions, front, row).Some?
                && x == row.(fields := row.fields + Writes(definitions, front, row).value) {
      RowByRowElements(definitions, front, rows, x);
    }
  }

  /** Every join list, seen from one row at a time. */
  lemma {:induction false} RunIsRowByRow(definitions: map<string, EntityDefinition>, plan: Plan, rows: seq<Entity>)
    ensures RunJoins(definitions, plan, rows) == if PlanHashes(definitions, plan, rows)
        then Some(RowByRow(definitions, plan, rows)) else None
  {
    if plan == [] {
      NoJoins(definitions, rows);
    } else {
      var front, join, targets := plan[..|plan| - 1], plan[|plan| - 1].0, plan[|plan| - 1].1;
      RunIsRowByRow(definitions, front, rows);
      HashesByRow(definitions, front, join, rows, targets);
      if RowsHash(definitions, front, join, rows) { LoopOverWritten(definitions, plan, rows); }
    }
  }

  lemma {:induction false} NoJoins(definitions: map<string, EntityDefinition>, rows: seq<Entity>)
    ensures RowByRow(definitions, [], rows) == rows
  {
    if rows == [] {
    } else {
      NoJoins(definitions, rows[..|rows| - 1]);
      var last := rows[|rows| - 1];
      assert last.fields + map[] == last.fields;
    }
  }

  /** No row that comes through the whole plan had a compared field written on the way. */
  predicate ComparedUntouched(definitions: map<string, EntityDefinition>, plan: Plan, rows: seq<Entity>) {
    forall row :: row in rows && Writes(definitions, plan, row).Some? ==>
        AllUntouched(plan, Writes(definitions, plan, row).value)
  }

  lemma PassedTwice(definitions: map<string, EntityDefinition>, plan: Plan, row: Entity)
    requires var w := Writes(definitions, plan, row); w.Some? ==> AllUntouched(plan, w.value)
    ensures RowByRow(definitions, plan, Passed(definitions, plan, row)) == Passed(definitions, plan, row)
  {
    if Writes(definitions, plan, row).Some? {
      var w := Writes(definitions, plan, row).value;
      SameWrites(definitions, plan, row, w);
      PassOne(definitions, plan, row.(fields := row.fields + w));
      assert (row.fields + w) + w == row.fields + w;
    }
  }

  lemma PassOne(definitions: map<string, EntityDefinition>, plan: Plan, row: Entity)
    ensures RowByRow(definitions, plan, [row]) == Passed(definitions, plan, row)
  {
    assert [row][..0] == [];
  }

  lemma PassOneMore(definitions: map<string, EntityDefinition>, plan: Plan, before: seq<Entity>, more: seq<Entity>)
    requires |more| <= 1
    ensures RowByRow(definitions, plan, before + more) == RowByRow(definitions, plan, before) + RowByRow(definitions,
        plan, more)
  {
    if more == [] {
      assert before + more == before;
    } else {
      assert (before + more)[..|before|] == before && more == [more[0]];
      PassOne(definitions, plan, more[0]);
    }
  }

  lemma {:induction false} WrittenTwice(definitions: map<string, EntityDefinition>, plan: Plan, rows: seq<Entity>)
    requires ComparedUntouched(definitions, plan, rows)
    ensures RowByRow(definitions, plan, RowByRow(definitions, plan, rows)) == RowByRow(definitions, plan, rows)
  {
    if rows == [] {
    } else {
      var n := |rows| - 1;
      SplitLast(rows);
      WrittenTwice(definitions, plan, rows[..n]);
      PassedTwice(definitions, plan, rows[n]);
      PassOneMore(definitions, plan, RowByRow(definitions, plan, rows[..n]), Passed(definitions, plan, rows[n]));
    }
  }

  /**
   * On a row whose compared fields were not written, the first joins write the same again, and the next key still
   * hashes.
   */
  lemma SecondKeyHashes(definitions: map<string, EntityDefinition>, plan: Plan, n: nat, row: Entity)
    requires n < |plan| && Writes(definitions, plan, row).Some?
        && AllUntouched(plan[..n], Writes(definitions, plan, row).value)
    requires Writes(definitions, plan[..n], row).Some? ==>
               KeyHashes(plan[n].0, row.(fields := row.fields + Writes(definitions, plan[..n], row).value))
    ensures var w := Writes(definitions, plan, row).value;
            var passed := row.(fields := row.fields + w);
            && Writes(definitions, plan[..n], passed).Some?
            && (KeyHashes(plan[n].0, passed.(fields := passed.fields + Writes(definitions, plan[..n], passed).value))
                <==> Untouched(plan[n].0, w))
  {
    var w := Writes(definitions, plan, row).value;
    var passed := row.(fields := row.fields + w);
    EarlierWrites(definitions, plan, n, row);
    SameWrites(definitions, plan[..n], row, w);
    WritesUnhashable(definitions, plan, row);
    WritesUnhashable(definitions, plan[..n], row);
    HashedIsUntouched(definitions, plan[..n], plan[n].0, row);
  }

  lemma {:induction false} PrefixHashes(definitions: map<string, EntityDefinition>, plan: Plan, n: nat,
      rows: seq<Entity>)
    requires n < |plan| && PlanHashes(definitions, plan, rows)
    ensures PlanHashes(definitions, plan[..n + 1], rows)
    ensures TargetsHash(plan[n].0, plan[n].1) && RowsHash(definitions, plan[..n], plan[n].0, rows)
    decreases |plan|
  {
    if n == |plan| - 1 {
      assert plan[..n + 1] == plan;
    } else {
      var front := plan[..|plan| - 1];
      PrefixHashes(definitions, front, n, rows);
      assert front[..n + 1] == plan[..n + 1] && front[..n] == plan[..n];
    }
  }

  lemma {:induction false} StillHashes(definitions: map<string, EntityDefinition>, plan: Plan, n: nat,
      rows: seq<Entity>)
    requires PlanHashes(definitions, plan, rows) && ComparedUntouched(definitions, plan, rows) && n <= |plan|
    ensures PlanHashes(definitions, plan[..n], RowByRow(definitions, plan, rows))
  {
    if n == 0 {
    } else {
      assert plan[..n][..n - 1] == plan[..n - 1];
      StillHashes(definitions, plan, n - 1, rows);
      PrefixHashes(definitions, plan, n - 1, rows);
      forall x | x in RowByRow(definitions, plan, rows) && Writes(definitions, plan[..n - 1], x).Some?
        ensures KeyHashes(plan[n - 1].0, x.(fields := x.fields + Writes(definitions, plan[..n - 1], x).value))
      {
        RowStillHashes(definitions, plan, n - 1, rows, x);
      }
    }
  }

  lemma RowStillHashes(definitions: map<string, EntityDefinition>, plan: Plan, n: nat, rows: seq<Entity>, x: Entity)
    requires ComparedUntouched(definitions, plan, rows) && n < |plan|
        && RowsHash(definitions, plan[..n], plan[n].0, rows)
    requires x in RowByRow(definitions, plan, rows) && Writes(definitions, plan[..n], x).Some?
    ensures KeyHashes(plan[n].0, x.(fields := x.fields + Writes(definitions, plan[..n], x).value))
  {
    RowByRowElements(definitions, plan, rows, x);
    var row :| row in rows && Writes(definitions, plan, row).Some?
        && x == row.(fields := row.fields + Writes(definitions, plan, row).value);
    SecondKeyHashes(definitions, plan, n, row);
  }

  lemma FirstTouched(plan: Plan, w: Fields, i: nat) returns (n: nat)
    requires i < |plan| && !Untouched(plan[i].0, w)
    ensures n < |plan| && !Untouched(plan[n].0, w) && AllUntouched(plan[..n], w)
    decreases i
  {
    if k :| 0 <= k < i && !Untouched(plan[k].0, w) {
      n := FirstTouched(plan, w, k);
    } else {
      n := i;
    }
  }

  /** A row whose compared field was written stops the second run. */
  lemma TouchedStops(definitions: map<string, EntityDefinition>, plan: Plan, rows: seq<Entity>, row: Entity)
    requires PlanHashes(definitions, plan, rows) && row in rows && Writes(definitions, plan, row).Some?
    requires !AllUntouched(plan, Writes(definitions, plan, row).value)
    ensures !PlanHashes(definitions, plan, RowByRow(definitions, plan, rows))
  {
    var w := Writes(definitions, plan, row).value;
    var passed := row.(fields := row.fields + w);
    var i :| 0 <= i < |plan| && !Untouched(plan[i].0, w);
    var n := FirstTouched(plan, w, i);
    PrefixHashes(definitions, plan, n, rows);
    SecondKeyHashes(definitions, plan, n, row);
    RowByRowElements(definitions, plan, rows, passed);
    if PlanHashes(definitions, plan, RowByRow(definitions, plan, rows)) {
      PrefixHashes(definitions, plan, n, RowByRow(definitions, plan, rows));
    }
  }

  /**
   * ExecuteQueryWithJoins runs the join list over rows that have already been through it. For every join list that
   * succeeds the first time, the second run changes nothing if no remaining row had a compared field written,
   * and stops the program otherwise.
   */
  lemma JoiningTwiceIff(definitions: map<string, EntityDefinition>, plan: Plan, rows: seq<Entity>)
    requires RunJoins(definitions, plan, rows).Some?
    ensures var once := RunJoins(definitions, plan, rows);
            && (RunJoins(definitions, plan, once.value) == once <==> ComparedUntouched(definitions, plan, rows))
            && (RunJoins(definitions, plan, once.value) == None <==> !ComparedUntouched(definitions, plan, rows))
  {
    var once := RowByRow(definitions, plan, rows);
    RunIsRowByRow(definitions, plan, rows);
    RunIsRowByRow(definitions, plan, once);
    if ComparedUntouched(definitions, plan, rows) {
      assert plan[..|plan|] == plan;
      StillHashes(definitions, plan, |plan|, rows);
      WrittenTwice(definitions, plan, rows);
    } else {
      var row :| row in rows && Writes(definitions, plan, row).Some?
          && !AllUntouched(plan, Writes(definitions, plan, row).value);
      TouchedStops(definitions, plan, rows, row);
    }
  }

  /** Join lists in which no join writes what it or an earlier join compares are safe to run twice. */
  lemma JoiningTwiceIsJoiningOnce(definitions: map<string, EntityDefinition>, plan: Plan, rows: seq<Entity>)
    requires Independent(plan) && RunJoins(definitions, plan, rows).Some?
    ensures RunJoins(definitions, plan, RunJoins(definitions, plan, rows).value) == RunJoins(definitions, plan, rows)
  {
    RunIsRowByRow(definitions, plan, rows);
    forall row, i | row in rows && Writes(definitions, plan, row).Some? && 0 <= i < |plan|
      ensures Untouched(plan[i].0, Writes(definitions, plan, row).value)
    {
      PrefixHashes(definitions, plan, i, rows);
      if !Untouched(plan[i].0, Writes(definitions, plan, row).value) {
        WrittenLater(definitions, plan, i, row, plan[i].0.localField);
        HashedIsUntouched(definitions, plan[..i], plan[i].0, row);
      }
    }
    JoiningTwiceIff(definitions, plan, rows);
  }

  /** A join that compares what an earlier join has written into some row stops the program on the first run already. */
  lemma ComparingAResultStops(definitions: map<string, EntityDefinition>, plan: Plan, rows: seq<Entity>, n: nat,
      row: Entity)
    requires n < |plan| && row in rows && Writes(definitions, plan[..n], row).Some?
    requires !Untouched(plan[n].0, Writes(definitions, plan[..n], row).value)
    ensures RunJoins(definitions, plan, rows) == None
  {
    RunIsRowByRow(definitions, plan, rows);
    WritesUnhashable(definitions, plan[..n], row);
    if PlanHashes(definitions, plan, rows) { PrefixHashes(definitions, plan, n, rows); }
  }

  /** The loop over the join list, as both ExecutePaginatedQuery and ExecuteQueryWithJoins have it. */
  method ExecuteJoins(definitions: map<string, EntityDefinition>, plan: Plan, rows: seq<Entity>)
      returns (joined: Option<seq<Entity>>)
    ensures joined == RunJoins(definitions, plan, rows)
  {
    var current := rows;
    for i := 0 to |plan|
      invariant RunJoins(definitions, plan[..i], rows) == Some(current)
    {
      assert plan[..i + 1][..i] == plan[..i];
      var next := ExecuteJoin(definitions, plan[i].0, current, plan[i].1);
      if next.None? {
        NeverAgain(definitions, plan, i + 1, rows);
        return None;
      }
      current := next.value;
    }
    assert plan[..|plan|] == plan;
    return Some(current);
  }

  lemma {:induction false} NeverAgain(definitions: map<string, EntityDefinition>, plan: Plan, n: nat, rows: seq<Entity>)
    requires n <= |plan| && RunJoins(definitions, plan[..n], rows).None?
    ensures RunJoins(definitions, plan, rows).None?
    decreases |plan| - n
  {
    if n == |plan| {
      assert plan[..n] == plan;
    } else {
      assert plan[..n + 1][..n] == plan[..n];
      NeverAgain(definitions, plan, n + 1, rows);
    }
  }

  lemma OneJoin(definitions: map<string, EntityDefinition>, join: Options, rows: seq<Entity>, targets: seq<Entity>)
    ensures RunJoins(definitions, [(join, targets)], rows) == JoinOf(definitions, join, rows, targets)
  {
    var plan: Plan := [(join, targets)];
    assert plan[..0] == [];
  }

  /**
   * A join whose result replaces the field it compares can be run again exactly if no row met a target; else it stops
   * the program.
   */
  lemma ResultOverLocalField(definitions: map<string, EntityDefinition>, join: Options, rows: seq<Entity>,
      targets: seq<Entity>)
    requires join.localField == ResultField(join) != "id" && (First(join) || join.strategy == "all")
    requires JoinOf(definitions, join, rows, targets).Some?
    ensures var once := JoinOf(definitions, join, rows, targets);
            && (JoinOf(definitions, join, once.value, targets) == once
                <==> forall row, t :: row in rows && t in targets ==> !Meets(join, row, t))
            && (JoinOf(definitions, join, once.value, targets) == None
                <==> exists row, t :: row in rows && t in targets && Meets(join, row, t))
  {
    var plan: Plan := [(join, targets)];
    OneJoin(definitions, join, rows, targets);
    OneJoin(definitions, join, JoinOf(definitions, join, rows, targets).value, targets);
    JoiningTwiceIff(definitions, plan, rows);
    forall row | row in rows
      ensures (Writes(definitions, plan, row).Some? ==> AllUntouched(plan, Writes(definitions, plan, row).value))
              <==> forall t :: t in targets ==> !Meets(join, row, t)
    {
      OneJoinWrites(definitions, join, row, targets);
    }
  }

  lemma OneJoinWrites(definitions: map<string, EntityDefinition>, join: Options, row: Entity, targets: seq<Entity>)
    requires join.localField == ResultField(join) != "id" && (First(join) || join.strategy == "all")
    ensures var plan: Plan := [(join, targets)];
            (Writes(definitions, plan, row).Some? ==> AllUntouched(plan, Writes(definitions, plan, row).value))
            <==> forall t :: t in targets ==> !Meets(join, row, t)
  {
    var plan: Plan := [(join, targets)];
    assert plan[..0] == [];
    var matches := Matches(join, row, targets);
    forall t ensures t in matches <==> t in targets && Meets(join, row, t) {
      MatchesAreExact(join, row, targets, t);
    }
    assert matches != [] ==> matches[0] in matches;
    assert map[] + Written(definitions, join, matches) == Written(definitions, join, matches);
  }
}
