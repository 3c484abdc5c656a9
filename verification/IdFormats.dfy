/** What each kind of id generator accepts as an id. */
module IdFormats {
  import opened Common
  import opened Numerals

  predicate LowerHex(c: char) { '0' <= c <= '9' || 'a' <= c <= 'f' }

  function LowerChar(c: char): char {
    if 'A' <= c <= 'Z' then ((c as int) + 32) as char else c
  }

  /** What position i of a version 4 UUID may hold, in lower case. */
  predicate UuidCharAt(i: nat, c: char) {
    if i == 8 || i == 13 || i == 18 || i == 23 then c == '-'
    else if i == 14 then c == '4'
    else if i == 19 then c == '8' || c == '9' || c == 'a' || c == 'b'
    else LowerHex(c)
  }

  /** The pattern 8-4-4xxx-[89ab]xxx-12 on the lower-cased id. */
  predicate MatchesUuid(id: string) {
    |id| == 36 && forall i :: 0 <= i < 36 ==> UuidCharAt(i, LowerChar(id[i]))
  }

  predicate CuidChar(c: char) { '0' <= c <= '9' || 'a' <= c <= 'z' }

  /** The pattern c followed by at least 24 of [a-z0-9]. */
  predicate MatchesCuid(id: string) {
    |id| >= 25 && id[0] == 'c' && forall i :: 1 <= i < |id| ==> CuidChar(id[i])
  }

  /** IDGeneratorManager.ValidateID; an unknown generator is an error, so it accepts nothing. */
  predicate ValidId(gen: IdGenerator, id: string) {
    match gen
    case AutoIncrement => ParseUint(id).Some?
    case Uuid => MatchesUuid(id)
    case Cuid => MatchesCuid(id)
    case Custom => id != ""
    case _ => false
  }

  lemma ValidIdNonEmpty(gen: IdGenerator, id: string)
    requires ValidId(gen, id)
    ensures id != ""
  {
  }

  // ---------- the patterns, part by part ----------

  predicate AnyHex(c: char) { '0' <= c <= '9' || 'a' <= c <= 'f' || 'A' <= c <= 'F' }

  predicate HexText(s: string, length: nat) {
    |s| == length && forall i :: 0 <= i < |s| ==> AnyHex(s[i])
  }

  /** Groups of 8, 4, 3, 3 and 12 hexadecimal digits of either case around the version 4 and a variant 8, 9, a or b. */
  predicate UuidParts(id: string, a: string, b: string, c: string, variant: char, d: string, e: string) {
    && HexText(a, 8) && HexText(b, 4) && HexText(c, 3) && HexText(d, 3) && HexText(e, 12)
    && variant in ['8', '9', 'a', 'b', 'A', 'B']
    && id == a + "-" + b + "-4" + c + "-" + [variant] + d + "-" + e
  }

  lemma LowerCharIff(c: char)
    ensures LowerHex(LowerChar(c)) <==> AnyHex(c)
    ensures LowerChar(c) == '-' <==> c == '-'
    ensures LowerChar(c) == '4' <==> c == '4'
    ensures LowerChar(c) in ['8', '9', 'a', 'b'] <==> c in ['8', '9', 'a', 'b', 'A', 'B']
  {
  }

  /** What position i of a version 4 UUID may hold, in either case. */
  predicate UuidPlace(i: nat, c: char) {
    if i == 8 || i == 13 || i == 18 || i == 23 then c == '-'
    else if i == 14 then c == '4'
    else if i == 19 then c in ['8', '9', 'a', 'b', 'A', 'B']
    else AnyHex(c)
  }

  lemma MatchesByPlace(id: string)
    ensures MatchesUuid(id) <==> |id| == 36 && forall i :: 0 <= i < 36 ==> UuidPlace(i, id[i])
  {
    if |id| == 36 {
      forall i | 0 <= i < 36 ensures UuidPlace(i, id[i]) <==> UuidCharAt(i, LowerChar(id[i])) { LowerCharIff(id[i]); }
    }
  }

  lemma PlacesSplit(id: string)
    requires |id| == 36 && forall i :: 0 <= i < 36 ==> UuidPlace(i, id[i])
    ensures UuidParts(id, id[..8], id[9..13], id[15..18], id[19], id[20..23], id[24..])
  {
    assert UuidPlace(8, id[8]) && UuidPlace(13, id[13]) && UuidPlace(14, id[14]) && UuidPlace(18, id[18])
        && UuidPlace(19, id[19]) && UuidPlace(23, id[23]);
  }

  lemma PartsPlace(id: string, a: string, b: string, c: string, variant: char, d: string, e: string)
    requires UuidParts(id, a, b, c, variant, d, e)
    ensures |id| == 36 && forall i :: 0 <= i < 36 ==> UuidPlace(i, id[i])
  {
    forall i | 0 <= i < 36 ensures UuidPlace(i, id[i]) {
      assert id[i] == if i < 8 then a[i] else if i == 8 then '-' else if i < 13 then b[i - 9] else if i == 13 then '-'
          else if i == 14 then '4' else if i < 18 then c[i - 15] else if i == 18 then '-' else if i == 19 then variant
          else if i < 23 then d[i - 20] else if i == 23 then '-' else e[i - 24];
    }
  }

  /** Exactly the ids made of such groups match the pattern. */
  lemma MatchesUuidIff(id: string)
    ensures MatchesUuid(id) <==> exists a, b, c, variant, d, e :: UuidParts(id, a, b, c, variant, d, e)
  {
    MatchesByPlace(id);
    if MatchesUuid(id) { PlacesSplit(id); }
    if a, b, c, variant, d, e :| UuidParts(id, a, b, c, variant, d, e) { PartsPlace(id, a, b, c, variant, d, e); }
  }

  /** The letter c and at least 24 digits to the base 36. */
  ghost predicate CuidParts(id: string, digits: string) {
    id == "c" + digits && |digits| >= 24 && forall i :: 0 <= i < |digits| ==> IsDigit(digits[i], 36)
  }

  lemma CuidCharIff(c: char)
    ensures CuidChar(c) <==> IsDigit(c, 36)
  {
    if '0' <= c <= '9' {
      DigitCharCode(c as int - 48);
    } else if 'a' <= c <= 'z' {
      DigitCharCode(c as int - 87);
    }
    if d: nat :| d < 36 && c == DigitChar(d) { DigitCharCode(d); }
  }

  lemma MatchesCuidIff(id: string)
    ensures MatchesCuid(id) <==> exists digits :: CuidParts(id, digits)
  {
    forall c ensures CuidChar(c) <==> IsDigit(c, 36) { CuidCharIff(c); }
    if MatchesCuid(id) {
      assert id == "c" + id[1..];
      assert CuidParts(id, id[1..]);
    }
    if digits :| CuidParts(id, digits) {
      forall i | 1 <= i < |id| ensures CuidChar(id[i]) { assert id[i] == digits[i - 1]; }
    }
  }
}
