/** The Levenshtein distance behind fuzzy search: the two-row loop, what it computes, and why that is a distance. */
module EditDistance {

  type Bytes = string

  function Min(a: int, b: int): int { if a < b then a else b }

  function Max(a: int, b: int): int { if a > b then a else b }

  function Front<T>(s: seq<T>): seq<T>
    requires s != []
  {
    s[..|s| - 1]
  }

  function Last<T>(s: seq<T>): T
    requires s != []
  {
    s[|s| - 1]
  }

  function Differ(x: char, y: char): nat { if x == y then 0 else 1 }

  /** The entry of the full matrix for a and b. */
  function Dist(a: Bytes, b: Bytes): nat
    decreases |a| + |b|
  {
    if a == [] then |b|
    else if b == [] then |a|
    else Min(Dist(Front(a), b) + 1, Min(Dist(a, Front(b)) + 1, Dist(Front(a), Front(b)) + Differ(Last(a), Last(b))))
  }

  // ---------- a metric ----------

  /** The distance lies between the difference of the lengths and the longer length. */
  lemma {:induction false} DistBounds(a: Bytes, b: Bytes)
    ensures |a| - |b| <= Dist(a, b) && |b| - |a| <= Dist(a, b) <= Max(|a|, |b|)
    decreases |a| + |b|
  {
    if a == [] || b == [] {
    } else {
      DistBounds(Front(a), b);
      DistBounds(a, Front(b));
      DistBounds(Front(a), Front(b));
    }
  }

  lemma {:induction false} DistSymmetric(a: Bytes, b: Bytes)
    ensures Dist(a, b) == Dist(b, a)
    decreases |a| + |b|
  {
    if a == [] || b == [] {
    } else {
      DistSymmetric(Front(a), b);
      DistSymmetric(a, Front(b));
      DistSymmetric(Front(a), Front(b));
    }
  }

  lemma {:induction false} DistZero(a: Bytes, b: Bytes)
    ensures Dist(a, b) == 0 <==> a == b
    decreases |a| + |b|
  {
    if a == [] || b == [] {
    } else {
      DistZero(Front(a), Front(b));
      assert a == Front(a) + [Last(a)] && b == Front(b) + [Last(b)];
    }
  }

  /** One step of the matrix never beats the entry it leads to. */
  lemma DistSteps(a: Bytes, b: Bytes)
    ensures a != [] ==> Dist(a, b) <= Dist(Front(a), b) + 1
    ensures b != [] ==> Dist(a, b) <= Dist(a, Front(b)) + 1
    ensures a != [] && b != [] ==> Dist(a, b) <= Dist(Front(a), Front(b)) + Differ(Last(a), Last(b))
  {
  }

  lemma {:induction false} DistTriangle(a: Bytes, b: Bytes, c: Bytes)
    ensures Dist(a, c) <= Dist(a, b) + Dist(b, c)
    decreases |a| + |b| + |c|
  {
    DistBounds(a, b);
    DistBounds(b, c);
    DistBounds(a, c);
    if a == [] || b == [] || c == [] {
    } else {
      DistSteps(a, c);
      if Dist(a, b) == Dist(Front(a), b) + 1 {
        DistTriangle(Front(a), b, c);
      } else if Dist(b, c) == Dist(b, Front(c)) + 1 {
        DistTriangle(a, b, Front(c));
      } else if Dist(a, b) == Dist(a, Front(b)) + 1 {
        if Dist(b, c) == Dist(Front(b), c) + 1 {
          DistTriangle(a, Front(b), c);
        } else {
          DistTriangle(a, Front(b), Front(c));
        }
      } else if Dist(b, c) == Dist(Front(b), c) + 1 {
        DistTriangle(Front(a), Front(b), c);
      } else {
        DistTriangle(Front(a), Front(b), Front(c));
      }
    }
  }

  // ---------- the fewest single-byte edits ----------

  datatype Edit = PutIn(i: nat, c: char) | TakeOut(i: nat) | Change(i: nat, c: char)

  predicate Fits(e: Edit, a: Bytes) { if e.PutIn? then e.i <= |a| else e.i < |a| }

  function Apply(e: Edit, a: Bytes): Bytes
    requires Fits(e, a)
  {
    match e
    case PutIn(i, c) => a[..i] + [c] + a[i..]
    case TakeOut(i) => a[..i] + a[i + 1..]
    case Change(i, c) => a[..i] + [c] + a[i + 1..]
  }

  /** The edits, one after another, turn a into b. */
  predicate Turns(script: seq<Edit>, a: Bytes, b: Bytes) {
    if script == [] then a == b else Fits(script[0], a) && Turns(script[1..], Apply(script[0], a), b)
  }

  /** A common tail does not increase the distance. */
  lemma {:induction false} CommonTail(a: Bytes, b: Bytes, tail: Bytes)
    ensures Dist(a + tail, b + tail) <= Dist(a, b)
  {
    if tail == [] {
      assert a + tail == a && b + tail == b;
    } else {
      CommonTail(a, b, Front(tail));
      DistSteps(a + tail, b + tail);
      assert Front(a + tail) == a + Front(tail) && Front(b + tail) == b + Front(tail);
    }
  }

  predicate Extends(p: Bytes, head: Bytes) { p == head || (p != [] && Front(p) == head) }

  lemma LastByteCostsOne(head: Bytes, p: Bytes, q: Bytes)
    requires Extends(p, head) && Extends(q, head)
    ensures Dist(p, q) <= 1
  {
    DistZero(head, head);
    DistSteps(p, q);
  }

  lemma Extended(head: Bytes, s: Bytes)
    requires |s| <= 1
    ensures Extends(head + s, head)
  {
    if s == [] { assert head + s == head; } else { assert Front(head + s) == head; }
  }

  lemma MiddleCostsOne(head: Bytes, before: Bytes, after: Bytes, tail: Bytes)
    requires |before| <= 1 && |after| <= 1
    ensures Dist(head + before + tail, head + after + tail) <= 1
  {
    Extended(head, before);
    Extended(head, after);
    LastByteCostsOne(head, head + before, head + after);
    CommonTail(head + before, head + after, tail);
  }

  /** What an edit removes, and what it puts there. */
  function Removed(e: Edit, a: Bytes): Bytes
    requires Fits(e, a)
  {
    if e.PutIn? then [] else [a[e.i]]
  }

  function Added(e: Edit): Bytes { if e.TakeOut? then [] else [e.c] }

  lemma EditInPlace(e: Edit, a: Bytes)
    requires Fits(e, a)
    ensures var head, tail := a[..e.i], a[e.i + |Removed(e, a)|..];
            a == head + Removed(e, a) + tail && Apply(e, a) == head + Added(e) + tail
  {
  }

  lemma EditCostsOne(e: Edit, a: Bytes)
    requires Fits(e, a)
    ensures Dist(a, Apply(e, a)) <= 1
  {
    EditInPlace(e, a);
    MiddleCostsOne(a[..e.i], Removed(e, a), Added(e), a[e.i + |Removed(e, a)|..]);
  }

  /** No script is shorter than the distance. */
  lemma {:induction false} NoShorterScript(script: seq<Edit>, a: Bytes, b: Bytes)
    requires Turns(script, a, b)
    ensures Dist(a, b) <= |script|
    decreases |script|
  {
    if script == [] {
      DistZero(a, b);
    } else {
      var next := Apply(script[0], a);
      EditCostsOne(script[0], a);
      NoShorterScript(script[1..], next, b);
      DistTriangle(a, next, b);
    }
  }

  lemma ApplyUnderTail(e: Edit, a: Bytes, x: char)
    requires Fits(e, a)
    ensures Fits(e, a + [x]) && Apply(e, a + [x]) == Apply(e, a) + [x]
  {
  }

  lemma {:induction false} TurnsUnderTail(script: seq<Edit>, a: Bytes, b: Bytes, x: char)
    requires Turns(script, a, b)
    ensures Turns(script, a + [x], b + [x])
    decreases |script|
  {
    if script == [] {
    } else {
      ApplyUnderTail(script[0], a, x);
      TurnsUnderTail(script[1..], Apply(script[0], a), b, x);
    }
  }

  lemma EditThenTurns(e: Edit, script: seq<Edit>, a: Bytes, b: Bytes)
    requires Fits(e, a) && Turns(script, Apply(e, a), b)
    ensures Turns([e] + script, a, b)
  {
    assert ([e] + script)[1..] == script;
  }

  /** A shortest script, read off the matrix. */
  function Script(a: Bytes, b: Bytes): seq<Edit>
    decreases |a| + |b|
  {
    if a == [] && b == [] then []
    else if b == [] || (a != [] && Dist(a, b) == Dist(Front(a), b) + 1) then [TakeOut(|a| - 1)] + Script(Front(a), b)
    else if a == [] || Dist(a, b) == Dist(a, Front(b)) + 1 then [PutIn(|a|, Last(b))] + Script(a, Front(b))
    else if Last(a) != Last(b) then [Change(|a| - 1, Last(b))] + Script(Front(a), Front(b))
    else Script(Front(a), Front(b))
  }

  lemma {:induction false} ScriptLength(a: Bytes, b: Bytes)
    ensures |Script(a, b)| == Dist(a, b)
    decreases |a| + |b|
  {
    if a == [] {
    } else {
      ScriptLength(Front(a), b);
    }
    if b == [] {
    } else {
      ScriptLength(a, Front(b));
    }
    if a != [] && b != [] { ScriptLength(Front(a), Front(b)); }
  }

  lemma LastEdits(a: Bytes, c: char)
    ensures Apply(PutIn(|a|, c), a) == a + [c]
    ensures a != [] ==> Apply(TakeOut(|a| - 1), a) == Front(a) && Apply(Change(|a| - 1, c), a) == Front(a) + [c]
    ensures a != [] ==> a == Front(a) + [Last(a)]
  {
  }

  lemma {:induction false} ScriptTurns(a: Bytes, b: Bytes)
    ensures Turns(Script(a, b), a, b)
    decreases |a| + |b|
  {
    if a == [] && b == [] {
    } else if b == [] || (a != [] && Dist(a, b) == Dist(Front(a), b) + 1) {
      ScriptTurns(Front(a), b);
      LastEdits(a, Last(a));
      EditThenTurns(TakeOut(|a| - 1), Script(Front(a), b), a, b);
    } else {
      LastEdits(a, Last(b));
      LastEdits(b, Last(b));
      if a == [] || Dist(a, b) == Dist(a, Front(b)) + 1 {
        ScriptTurns(a, Front(b));
        TurnsUnderTail(Script(a, Front(b)), a, Front(b), Last(b));
        EditThenTurns(PutIn(|a|, Last(b)), Script(a, Front(b)), a, b);
      } else {
        ScriptTurns(Front(a), Front(b));
        TurnsUnderTail(Script(Front(a), Front(b)), Front(a), Front(b), Last(b));
        if Last(a) != Last(b) { EditThenTurns(Change(|a| - 1, Last(b)), Script(Front(a), Front(b)), a, b); }
      }
    }
  }

  /** The distance is the least number of single-byte edits that turn one string into the other. */
  lemma DistIsFewestEdits(a: Bytes, b: Bytes)
    ensures Turns(Script(a, b), a, b) && |Script(a, b)| == Dist(a, b)
    ensures forall script :: Turns(script, a, b) ==> Dist(a, b) <= |script|
  {
    ScriptTurns(a, b);
    ScriptLength(a, b);
    forall script | Turns(script, a, b) ensures Dist(a, b) <= |script| {
      NoShorterScript(script, a, b);
    }
  }

  // ---------- the loop ----------

  lemma TakeOneMore(s: Bytes, i: nat)
    requires i < |s|
    ensures s[..i + 1] != [] && Front(s[..i + 1]) == s[..i] && Last(s[..i + 1]) == s[i]
  {
  }

  /** levenshteinDistance; lower is strings.ToLower on byte strings. */
  method LevenshteinDistance(lower: Bytes -> Bytes, text1: Bytes, text2: Bytes) returns (distance: int)
    ensures distance == Dist(lower(text1), lower(text2))
  {
    var s1, s2 := lower(text1), lower(text2);
    if |s1| == 0 { return |s2|; }
    if |s2| == 0 { return |s1|; }
    var v0, v1 := new int[|s2| + 1], new int[|s2| + 1];
    for i := 0 to |s2| + 1
      invariant forall k :: 0 <= k < i ==> v0[k] == k
    {
      v0[i] := i;
    }
    for i := 0 to |s1|
      invariant v0 != v1 && v0.Length == v1.Length == |s2| + 1 && fresh(v0) && fresh(v1)
      invariant forall k :: 0 <= k <= |s2| ==> v0[k] == Dist(s1[..i], s2[..k])
    {
      TakeOneMore(s1, i);
      FillRow(s1, s2, i, v0, v1);
      v0, v1 := v1, v0;
    }
    assert s1[..|s1|] == s1 && s2[..|s2|] == s2;
    return v0[|s2|];
  }

  /** The inner loop: the next row of the matrix from the one before. */
  method FillRow(s1: Bytes, s2: Bytes, i: nat, v0: array<int>, v1: array<int>)
    requires i < |s1| && v0 != v1 && v0.Length == v1.Length == |s2| + 1
    requires forall k :: 0 <= k <= |s2| ==> v0[k] == Dist(s1[..i], s2[..k])
    modifies v1
    ensures forall k :: 0 <= k <= |s2| ==> v1[k] == Dist(s1[..i + 1], s2[..k])
  {
    TakeOneMore(s1, i);
    v1[0] := i + 1;
    for j := 0 to |s2|
      invariant forall k :: 0 <= k <= j ==> v1[k] == Dist(s1[..i + 1], s2[..k])
    {
      TakeOneMore(s2, j);
      var deletionCost := v0[j + 1] + 1;
      var insertionCost := v1[j] + 1;
      var substitutionCost := v0[j];
      if s1[i] != s2[j] {
        substitutionCost := substitutionCost + 1;
      }
      v1[j + 1] := Min(deletionCost, Min(insertionCost, substitutionCost));
    }
  }
}
