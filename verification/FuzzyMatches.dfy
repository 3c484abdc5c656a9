/** The fuzzy match of a query: text that contains the other, or words few edits apart. */
module FuzzyMatches {
  import opened Common
  import opened EditDistance
  import opened EqualValues
  import opened Store
  import opened Queries
  import opened Operators

  /** strings.ToLower and strings.Fields, and the query's options: the default ones are 0.7 and 3. */
  datatype FuzzyOptions = FuzzyOptions(
    lower: string -> string, fields: string -> seq<string>, threshold: real, maxDistance: int)

  // ---------- words ----------

  /** At most the allowed share of the longer word has to be edited. */
  predicate Similar(fz: FuzzyOptions, w1: string, w2: string) {
    var longest := Max(|w1|, |w2|);
    longest > 0 && Similarity(Dist(fz.lower(w1), fz.lower(w2)), longest) >= fz.threshold
  }

  function Similarity(distance: nat, length: nat): real
    requires length > 0
  {
    1.0 - distance as real / length as real
  }

  predicate SomeSimilar(fz: FuzzyOptions, w1: string, words2: seq<string>) {
    exists j :: 0 <= j < |words2| && Similar(fz, w1, words2[j])
  }

  /** How many of the words are similar to some of the others. */
  function SimilarWords(fz: FuzzyOptions, words1: seq<string>, words2: seq<string>): nat {
    if words1 == [] then 0
    else
      SimilarWords(fz, words1[..|words1| - 1], words2)
      + if SomeSimilar(fz, words1[|words1| - 1], words2) then 1 else 0
  }

  /** Half of the shorter text's words, but at least one. */
  function Required(words1: seq<string>, words2: seq<string>): nat {
    Max(1, Min(|words1|, |words2|) / 2)
  }

  /** fuzzyMatch. */
  predicate FuzzyHolds(fz: FuzzyOptions, text1: string, text2: string) {
    var s1, s2 := fz.lower(text1), fz.lower(text2);
    var words1, words2 := fz.fields(s1), fz.fields(s2);
    || HasPart(s1, s2) || HasPart(s2, s1)
    || if |words1| > 1 || |words2| > 1 then SimilarWords(fz, words1, words2) >= Required(words1, words2)
       else Dist(fz.lower(s1), fz.lower(s2)) <= fz.maxDistance && Similar(fz, s1, s2)
  }

  /** The match as the code computes it. */
  method FuzzyMatch(fz: FuzzyOptions, text1: string, text2: string) returns (matches: bool)
    ensures matches <==> FuzzyHolds(fz, text1, text2)
  {
    var s1, s2 := fz.lower(text1), fz.lower(text2);
    if HasPart(s1, s2) || HasPart(s2, s1) { return true; }
    var words1, words2 := fz.fields(s1), fz.fields(s2);
    if |words1| > 1 || |words2| > 1 {
      var count := CountSimilar(fz, words1, words2);
      var required := Min(|words1|, |words2|) / 2;
      if required == 0 { required := 1; }
      return count >= required;
    }
    var distance := LevenshteinDistance(fz.lower, s1, s2);
    if distance > fz.maxDistance { return false; }
    var longest := Max(|s1|, |s2|);
    if longest == 0 {
      assert PartAt(s1, s2, 0);
      return true;
    }
    return 1.0 - distance as real / longest as real >= fz.threshold;
  }

  /** The two loops over the words. */
  method CountSimilar(fz: FuzzyOptions, words1: seq<string>, words2: seq<string>) returns (count: nat)
    ensures count == SimilarWords(fz, words1, words2)
  {
    count := 0;
    for i := 0 to |words1|
      invariant count == SimilarWords(fz, words1[..i], words2)
    {
      assert words1[..i + 1][..i] == words1[..i];
      var similar := false;
      for j := 0 to |words2|
        invariant !similar ==> forall k :: 0 <= k < j ==> !Similar(fz, words1[i], words2[k])
        invariant similar ==> SomeSimilar(fz, words1[i], words2)
      {
        var distance := LevenshteinDistance(fz.lower, words1[i], words2[j]);
        var longest := Max(|words1[i]|, |words2[j]|);
        if longest > 0 && 1.0 - distance as real / longest as real >= fz.threshold {
          similar := true;
          break;
        }
      }
      if similar { count := count + 1; }
    }
    assert words1[..|words1|] == words1;
  }

  // ---------- fuzzy filters ----------

  /** The text functions of a query with these fuzzy options. */
  function TextsOf(fz: FuzzyOptions, parseTime: string -> Option<int>): Texts {
    Texts(fz.lower, parseTime, (text, wanted) => FuzzyHolds(fz, text, wanted))
  }

  /** A fuzzy filter selects exactly the texts that match the one it asks for. */
  lemma FuzzySelects(fm: Formats, fz: FuzzyOptions, parseTime: string -> Option<int>, db: Db, typ: string, f: Filter,
      e: Entity)
    requires typ in db.definitions && f.operator == Fuzzy
    ensures Selected(fm, TextsOf(fz, parseTime), db, typ, [f], e) <==>
            && IsStored(db, typ, e) && f.field in e.fields && e.fields[f.field].Str? && f.value.Str?
            && FuzzyHolds(fz, e.fields[f.field].s, f.value.s)
  {
    OtherSelects(fm, TextsOf(fz, parseTime), db, typ, f, e);
  }

  // ---------- what a match means ----------

  lemma ShareIff(share: real, allowed: real, whole: real)
    requires whole > 0.0
    ensures share <= allowed <==> share * whole <= allowed * whole
  {
    if share > allowed { assert (share - allowed) * whole > 0.0; }
    if share <= allowed { assert (allowed - share) * whole >= 0.0; }
  }

  /** So many edits are few enough for words of this length: at most (1 - threshold) for each character. */
  predicate FewEnough(fz: FuzzyOptions, edits: nat, length: nat) {
    edits as real <= (1.0 - fz.threshold) * length as real
  }

  lemma SimilarityIff(fz: FuzzyOptions, distance: nat, length: nat)
    requires length > 0
    ensures Similarity(distance, length) >= fz.threshold <==> FewEnough(fz, distance, length)
  {
    var part, whole := distance as real, length as real;
    ShareIff(part / whole, 1.0 - fz.threshold, whole);
    assert part / whole * whole == part;
  }

  lemma SimilarByDistance(fz: FuzzyOptions, w1: string, w2: string)
    ensures Similar(fz, w1, w2) <==>
            (w1 != [] || w2 != []) && FewEnough(fz, Dist(fz.lower(w1), fz.lower(w2)), Max(|w1|, |w2|))
  {
    if Max(|w1|, |w2|) > 0 { SimilarityIff(fz, Dist(fz.lower(w1), fz.lower(w2)), Max(|w1|, |w2|)); }
  }

  /** The script leads from one word to the other and is short enough for the longer of them. */
  ghost predicate FewEdits(fz: FuzzyOptions, w1: string, w2: string, script: seq<Edit>) {
    Turns(script, fz.lower(w1), fz.lower(w2)) && FewEnough(fz, |script|, Max(|w1|, |w2|))
  }

  lemma FewerIsFewEnough(fz: FuzzyOptions, fewer: nat, edits: nat, length: nat)
    requires fewer <= edits && FewEnough(fz, edits, length)
    ensures FewEnough(fz, fewer, length)
  {
  }

  /** Words are similar exactly if they are not both empty and some short enough script leads from one to the other. */
  lemma SimilarIff(fz: FuzzyOptions, w1: string, w2: string)
    ensures Similar(fz, w1, w2) <==> (w1 != [] || w2 != []) && exists script :: FewEdits(fz, w1, w2, script)
  {
    var a, b := fz.lower(w1), fz.lower(w2);
    SimilarByDistance(fz, w1, w2);
    DistIsFewestEdits(a, b);
    if Similar(fz, w1, w2) { assert FewEdits(fz, w1, w2, Script(a, b)); }
    if script :| FewEdits(fz, w1, w2, script) {
      assert Dist(a, b) <= |script|;
      FewerIsFewEnough(fz, Dist(a, b), |script|, Max(|w1|, |w2|));
    }
  }

  lemma SimilarSymmetric(fz: FuzzyOptions, w1: string, w2: string)
    ensures Similar(fz, w1, w2) == Similar(fz, w2, w1)
  {
    DistSymmetric(fz.lower(w1), fz.lower(w2));
  }

  /** Between single words, it does not matter which is searched for. */
  lemma SingleWordsSymmetric(fz: FuzzyOptions, text1: string, text2: string)
    requires |fz.fields(fz.lower(text1))| <= 1 && |fz.fields(fz.lower(text2))| <= 1
    ensures FuzzyHolds(fz, text1, text2) == FuzzyHolds(fz, text2, text1)
  {
    var s1, s2 := fz.lower(text1), fz.lower(text2);
    DistSymmetric(fz.lower(s1), fz.lower(s2));
    SimilarSymmetric(fz, s1, s2);
  }

  // ---------- texts of several words ----------

  /** n different words of the first text, each similar to a word of the second. */
  ghost predicate SimilarPlaces(fz: FuzzyOptions, words1: seq<string>, words2: seq<string>, places: seq<nat>) {
    && (forall k, l :: 0 <= k < l < |places| ==> places[k] < places[l])
    && forall k :: 0 <= k < |places| ==> places[k] < |words1| && SomeSimilar(fz, words1[places[k]], words2)
  }

  lemma {:induction false} EnoughPlaces(fz: FuzzyOptions, words1: seq<string>, words2: seq<string>)
    returns (places: seq<nat>)
    ensures SimilarPlaces(fz, words1, words2, places) && |places| == SimilarWords(fz, words1, words2)
  {
    if words1 == [] {
      places := [];
    } else {
      var n := |words1| - 1;
      places := EnoughPlaces(fz, words1[..n], words2);
      if SomeSimilar(fz, words1[n], words2) { places := places + [n]; }
    }
  }

  lemma {:induction false} NoMorePlaces(fz: FuzzyOptions, words1: seq<string>, words2: seq<string>, places: seq<nat>)
    requires SimilarPlaces(fz, words1, words2, places)
    ensures |places| <= SimilarWords(fz, words1, words2)
  {
    var last := |places| - 1;
    if places == [] {
    } else {
      assert places[last] < |words1|;
      var n := |words1| - 1;
      if places[last] == n {
        NoMorePlaces(fz, words1[..n], words2, places[..last]);
      } else {
        NoMorePlaces(fz, words1[..n], words2, places);
      }
    }
  }

  /**
   * Texts of which one has several words match if one contains the other, or if half as many words of the first as the
   * shorter text has, and at least one, are each similar to some word of the second.
   */
  lemma SeveralWordsIff(fz: FuzzyOptions, text1: string, text2: string)
    requires |fz.fields(fz.lower(text1))| > 1 || |fz.fields(fz.lower(text2))| > 1
    ensures var words1, words2 := fz.fields(fz.lower(text1)), fz.fields(fz.lower(text2));
            FuzzyHolds(fz, text1, text2) <==>
            || HasPart(fz.lower(text1), fz.lower(text2)) || HasPart(fz.lower(text2), fz.lower(text1))
            || exists places :: SimilarPlaces(fz, words1, words2, places)
                 && |places| >= 1 && 2 * |places| + 1 >= Min(|words1|, |words2|)
  {
    var words1, words2 := fz.fields(fz.lower(text1)), fz.fields(fz.lower(text2));
    var places := EnoughPlaces(fz, words1, words2);
    forall other | SimilarPlaces(fz, words1, words2, other) ensures |other| <= |places| {
      NoMorePlaces(fz, words1, words2, other);
    }
  }

  /** Of short words, at this threshold, only equal ones are similar. */
  lemma ShortWords(fz: FuzzyOptions, w1: string, w2: string)
    requires fz.threshold == 0.7 && fz.lower(w1) == w1 && fz.lower(w2) == w2 && 1 <= |w1| <= 2 && 1 <= |w2| <= 2
    ensures Similar(fz, w1, w2) <==> w1 == w2
  {
    DistZero(w1, w2);
    SimilarByDistance(fz, w1, w2);
  }

  function One(fz: FuzzyOptions, w: string, words2: seq<string>): nat { if SomeSimilar(fz, w, words2) then 1 else 0 }

  lemma OneMoreWord(fz: FuzzyOptions, words1: seq<string>, i: nat, words2: seq<string>)
    requires i < |words1|
    ensures SimilarWords(fz, words1[..i + 1], words2)
        == SimilarWords(fz, words1[..i], words2) + One(fz, words1[i], words2)
  {
    assert words1[..i + 1][..i] == words1[..i];
  }

  lemma FourWords(fz: FuzzyOptions, words1: seq<string>, words2: seq<string>)
    requires |words1| == 4
    ensures SimilarWords(fz, words1, words2) == One(fz, words1[0], words2) + One(fz, words1[1], words2)
        + One(fz, words1[2], words2) + One(fz, words1[3], words2)
  {
    OneMoreWord(fz, words1, 0, words2);
    OneMoreWord(fz, words1, 1, words2);
    OneMoreWord(fz, words1, 2, words2);
    OneMoreWord(fz, words1, 3, words2);
    assert words1[..4] == words1;
  }

  const FIRST := ["ab", "ab", "x", "y"]
  const SECOND := ["ab", "p", "q", "z"]

  predicate Plain(fz: FuzzyOptions) {
    fz.threshold == 0.7 && forall w :: w in FIRST + SECOND ==> fz.lower(w) == w
  }

  lemma SimilarHere(fz: FuzzyOptions, v: string, w: string)
    requires Plain(fz) && (v in FIRST || v in SECOND) && (w in FIRST || w in SECOND)
    ensures Similar(fz, v, w) <==> v == w
  {
    ShortWords(fz, v, w);
  }

  lemma OneHere(fz: FuzzyOptions, w: string, words2: seq<string>)
    requires Plain(fz) && (w in FIRST || w in SECOND) && (words2 == FIRST || words2 == SECOND)
    ensures One(fz, w, words2) == if w in words2 then 1 else 0
  {
    forall j | 0 <= j < |words2| ensures Similar(fz, w, words2[j]) <==> w == words2[j] {
      assert words2[j] in words2;
      SimilarHere(fz, w, words2[j]);
    }
  }

  lemma SharedWords()
    ensures |FIRST| == |SECOND| == 4
    ensures FIRST[0] in SECOND && FIRST[1] in SECOND && FIRST[2] !in SECOND && FIRST[3] !in SECOND
    ensures SECOND[0] in FIRST && SECOND[1] !in FIRST && SECOND[2] !in FIRST && SECOND[3] !in FIRST
  {
    assert FIRST[0] == SECOND[0] && FIRST[1] == SECOND[0];
    assert |FIRST[0]| == 2 && |FIRST[2]| == |FIRST[3]| == |SECOND[1]| == |SECOND[2]| == |SECOND[3]| == 1;
    assert FIRST[2][0] == 'x' && FIRST[3][0] == 'y';
    assert SECOND[1][0] == 'p' && SECOND[2][0] == 'q' && SECOND[3][0] == 'z';
  }

  lemma CountsHere(fz: FuzzyOptions, words1: seq<string>, words2: seq<string>)
    requires Plain(fz) && (words1 == FIRST || words1 == SECOND) && (words2 == FIRST || words2 == SECOND)
    requires |words1| == 4
    ensures SimilarWords(fz, words1, words2)
        == (if words1[0] in words2 then 1 else 0) + (if words1[1] in words2 then 1 else 0)
         + (if words1[2] in words2 then 1 else 0) + (if words1[3] in words2 then 1 else 0)
  {
    FourWords(fz, words1, words2);
    forall i | 0 <= i < 4 ensures One(fz, words1[i], words2) == if words1[i] in words2 then 1 else 0 {
      assert words1[i] in words1;
      OneHere(fz, words1[i], words2);
    }
  }

  lemma CountedWords(fz: FuzzyOptions)
    requires Plain(fz)
    ensures SimilarWords(fz, FIRST, SECOND) == 2 && SimilarWords(fz, SECOND, FIRST) == 1
  {
    SharedWords();
    CountsHere(fz, FIRST, SECOND);
    CountsHere(fz, SECOND, FIRST);
  }

  lemma NeitherContains()
    ensures !HasPart("ab ab x y", "ab p q z") && !HasPart("ab p q z", "ab ab x y")
  {
    assert "ab ab x y"[0..8][3] != "ab p q z"[3] && "ab ab x y"[1..9][0] != "ab p q z"[0];
  }

  /** The match counts words of the text it looks into, so with several words it does matter which is searched for. */
  lemma SeveralWordsAsymmetric(fz: FuzzyOptions, text1: string, text2: string)
    requires fz.lower(text1) == "ab ab x y" && fz.lower(text2) == "ab p q z" && Plain(fz)
    requires fz.fields("ab ab x y") == FIRST && fz.fields("ab p q z") == SECOND
    ensures FuzzyHolds(fz, text1, text2) && !FuzzyHolds(fz, text2, text1)
  {
    CountedWords(fz);
    NeitherContains();
  }
}
