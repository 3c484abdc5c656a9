/** Printing numbers in base 10, 16 and 36, and Go's strconv parsers. */
module Numerals {
  import opened Common

  const TWO_63 := 0x8000_0000_0000_0000
  const TWO_64 := 0x1_0000_0000_0000_0000

  function DigitChar(d: nat): (c: char)
    requires d < 36
  {
    "0123456789abcdefghijklmnopqrstuvwxyz"[d]
  }

  /** The value of a decimal digit character. */
  predicate IsDecimal(c: char) { '0' <= c <= '9' }

  function DigitValue(c: char): nat
    requires IsDecimal(c)
  {
    (c as int) - ('0' as int)
  }

  lemma QuotientSmaller(n: nat, base: nat)
    requires base >= 2
    ensures n >= base ==> 0 <= n / base < n
    ensures n % base < base
  {
  }

  /** strconv.FormatUint(n, base). */
  function Print(n: nat, base: nat): string
    requires 2 <= base <= 36
  {
    QuotientSmaller(n, base);
    if n < base then [DigitChar(n)] else Print(n / base, base) + [DigitChar(n % base)]
  }

  function Decimal(n: nat): string { Print(n, 10) }

  function SignedDecimal(n: int): string {
    if n < 0 then "-" + Decimal(-n) else Decimal(n)
  }

  predicate AllDecimal(s: string) { forall i :: 0 <= i < |s| ==> IsDecimal(s[i]) }

  function DecimalValue(s: string): nat
    requires AllDecimal(s)
  {
    if s == [] then 0 else DecimalValue(s[..|s| - 1]) * 10 + DigitValue(s[|s| - 1])
  }

  /** strconv.ParseUint(s, 10, 64). */
  function ParseUint(s: string): Option<nat> {
    if s != [] && AllDecimal(s) && DecimalValue(s) < TWO_64 then Some(DecimalValue(s)) else None
  }

  /** strconv.Atoi(s) on a 64-bit platform. */
  function Atoi(s: string): Option<int> {
    var negative := s != [] && s[0] == '-';
    var digits := if s != [] && (s[0] == '-' || s[0] == '+') then s[1..] else s;
    if digits == [] || !AllDecimal(digits) then None
    else
      var v: int := DecimalValue(digits);
      var n := if negative then -v else v;
      if -TWO_63 <= n < TWO_63 then Some(n) else None
  }

  predicate IsDigit(c: char, base: nat)
    requires base <= 36
  {
    exists d: nat :: d < base && c == DigitChar(d)
  }

  lemma {:induction false} PrintDigits(n: nat, base: nat)
    requires 2 <= base <= 36
    ensures Print(n, base) != []
    ensures forall i :: 0 <= i < |Print(n, base)| ==> IsDigit(Print(n, base)[i], base)
  {
    QuotientSmaller(n, base);
    if n < base {
      assert IsDigit(DigitChar(n), base);
    } else {
      var front, d := Print(n / base, base), n % base;
      PrintDigits(n / base, base);
      assert IsDigit(DigitChar(d), base);
      assert Print(n, base) == front + [DigitChar(d)];
    }
  }

  lemma DecimalValueAppend(front: string, c: char)
    requires AllDecimal(front) && IsDecimal(c)
    ensures AllDecimal(front + [c]) && DecimalValue(front + [c]) == DecimalValue(front) * 10 + DigitValue(c)
  {
    assert (front + [c])[..|front|] == front;
  }

  lemma DecimalDigit(d: nat)
    requires d < 10
    ensures IsDecimal(DigitChar(d)) && DigitValue(DigitChar(d)) == d
  {
  }

  lemma DecimalStep(n: nat)
    requires n >= 10
    ensures n / 10 < n && n == n / 10 * 10 + n % 10 && Decimal(n) == Decimal(n / 10) + [DigitChar(n % 10)]
  {
    QuotientSmaller(n, 10);
  }

  /** Printing then parsing gives the number back, so distinct numbers print differently. */
  lemma {:induction false} DecimalRoundTrip(n: nat)
    ensures Decimal(n) != [] && AllDecimal(Decimal(n)) && DecimalValue(Decimal(n)) == n
  {
    if n < 10 {
      DecimalDigit(n);
      assert DecimalValue([]) == 0;
      DecimalValueAppend([], DigitChar(n));
      assert [] + [DigitChar(n)] == Decimal(n);
    } else {
      DecimalStep(n);
      DecimalDigit(n % 10);
      DecimalRoundTrip(n / 10);
      DecimalValueAppend(Decimal(n / 10), DigitChar(n % 10));
    }
  }

  lemma ParseUintOfDecimal(n: nat)
    ensures ParseUint(Decimal(n)) == if n < TWO_64 then Some(n) else None
  {
    DecimalRoundTrip(n);
  }

  lemma DecimalInjective(m: nat, n: nat)
    requires Decimal(m) == Decimal(n)
    ensures m == n
  {
    DecimalRoundTrip(m);
    DecimalRoundTrip(n);
  }

  lemma AtoiOfDecimal(n: nat)
    ensures Atoi(Decimal(n)) == if n < TWO_63 then Some(n) else None
  {
    DecimalRoundTrip(n);
    assert IsDecimal(Decimal(n)[0]);
  }

  /** Numbers of either sign print differently. */
  lemma SignedDecimalInjective(m: int, n: int)
    requires SignedDecimal(m) == SignedDecimal(n)
    ensures m == n
  {
    DecimalRoundTrip(if m < 0 then -m else m);
    DecimalRoundTrip(if n < 0 then -n else n);
    assert m < 0 ==> SignedDecimal(m)[0] == '-' && SignedDecimal(m)[1..] == Decimal(-m);
    assert n < 0 ==> SignedDecimal(n)[0] == '-' && SignedDecimal(n)[1..] == Decimal(-n);
    assert m >= 0 ==> IsDecimal(SignedDecimal(m)[0]);
    assert n >= 0 ==> IsDecimal(SignedDecimal(n)[0]);
  }

  lemma AtoiAfterMinus(digits: string)
    requires digits != [] && AllDecimal(digits)
    ensures var n: int := DecimalValue(digits);
            Atoi("-" + digits) == if n <= TWO_63 then Some(-n) else None
  {
    assert ("-" + digits)[1..] == digits;
  }

  /** Reading gives back what was printed, minus sign included. */
  lemma AtoiOfSignedDecimal(n: int)
    ensures Atoi(SignedDecimal(n)) == if -TWO_63 <= n < TWO_63 then Some(n) else None
  {
    if n < 0 {
      DecimalRoundTrip(-n);
      AtoiAfterMinus(Decimal(-n));
    } else {
      AtoiOfDecimal(n);
    }
  }

  lemma DigitCharCode(d: nat)
    requires d < 36
    ensures DigitChar(d) as int == if d < 10 then d + 48 else d + 87
  {
  }

  lemma Remultiplied(n: nat, base: nat)
    requires base >= 2
    ensures n == n / base * base + n % base
  {
  }

  /** In any base, distinct numbers print differently. */
  lemma {:induction false} PrintInjective(m: nat, n: nat, base: nat)
    requires 2 <= base <= 36 && Print(m, base) == Print(n, base)
    ensures m == n
  {
    PrintLast(m, base);
    PrintLast(n, base);
    var front1, front2 := PrintFront(m, base), PrintFront(n, base);
    assert (front1 + [DigitChar(m % base)])[..|front1|] == front1;
    assert (front2 + [DigitChar(n % base)])[..|front2|] == front2;
    assert front1 == front2 && DigitChar(m % base) == DigitChar(n % base);
    DigitCharCode(m % base);
    DigitCharCode(n % base);
    if front1 != [] {
      PrintInjective(m / base, n / base, base);
      Remultiplied(m, base);
      Remultiplied(n, base);
    }
  }

  function PrintFront(n: nat, base: nat): string
    requires 2 <= base <= 36
  {
    QuotientSmaller(n, base);
    if n < base then [] else Print(n / base, base)
  }

  /** The last digit, and what comes before it. */
  lemma PrintLast(n: nat, base: nat)
    requires 2 <= base <= 36
    ensures n % base < base && n / base >= 0 && (n < base ==> n % base == n) && (n >= base ==> n / base < n)
    ensures Print(n, base) == PrintFront(n, base) + [DigitChar(n % base)]
    ensures PrintFront(n, base) == [] <==> n < base
  {
    QuotientSmaller(n, base);
    if n < base { SmallRemainder(n, base); } else { PrintDigits(n / base, base); }
  }

  lemma SmallRemainder(n: nat, base: nat)
    requires n < base
    ensures n % base == n && n / base == 0
  {
  }

  lemma DigitOfChar(c: char)
    requires IsDecimal(c)
    ensures DigitValue(c) < 10 && DigitChar(DigitValue(c)) == c
  {
    DigitCharCode(DigitValue(c));
  }

  lemma TimesTen(n: nat, d: nat)
    requires d < 10
    ensures (n * 10 + d) / 10 == n && (n * 10 + d) % 10 == d
  {
  }

  /** A text of digits that begins with no idle zero is how its value prints. */
  lemma {:induction false} DecimalOfValue(s: string)
    requires s != [] && AllDecimal(s) && (s[0] != '0' || |s| == 1)
    ensures Decimal(DecimalValue(s)) == s
  {
    var front, c := s[..|s| - 1], s[|s| - 1];
    DigitOfChar(c);
    assert s == front + [c];
    if front == [] {
      assert DecimalValue(front) == 0;
    } else {
      DecimalOfValue(front);
      LeadingDigitCounts(front);
      TimesTen(DecimalValue(front), DigitValue(c));
      DecimalStep(DecimalValue(s));
    }
  }

  lemma {:induction false} LeadingDigitCounts(s: string)
    requires s != [] && AllDecimal(s) && s[0] != '0'
    ensures DecimalValue(s) > 0
  {
    if |s| == 1 {
      assert DecimalValue(s[..0]) == 0;
    } else {
      LeadingDigitCounts(s[..|s| - 1]);
    }
  }

  /** Of the texts without idle zeros, exactly the printed numbers below 2^64 are read. */
  lemma ParseUintIff(s: string, n: nat)
    requires s != [] && (s[0] != '0' || |s| == 1)
    ensures ParseUint(s) == Some(n) <==> s == Decimal(n) && n < TWO_64
  {
    if ParseUint(s) == Some(n) { DecimalOfValue(s); }
    ParseUintOfDecimal(n);
  }

  /** The text is an optional sign and then digits that say n, a number of 64 bits. */
  predicate Says(s: string, sign: string, digits: string, n: int) {
    && sign in ["", "+", "-"] && digits != [] && AllDecimal(digits) && s == sign + digits
    && -TWO_63 <= n < TWO_63 && DecimalValue(digits) == if sign == "-" then -n else n
  }

  lemma AtoiSays(s: string, n: int)
    requires Atoi(s) == Some(n)
    ensures exists sign, digits :: Says(s, sign, digits, n)
  {
    if s[0] == '-' || s[0] == '+' {
      assert s == [s[0]] + s[1..];
      assert Says(s, [s[0]], s[1..], n);
    } else {
      assert s == "" + s;
      assert Says(s, "", s, n);
    }
  }

  lemma SaysAtoi(s: string, sign: string, digits: string, n: int)
    requires Says(s, sign, digits, n)
    ensures Atoi(s) == Some(n)
  {
    if sign == "" {
      assert s == digits && IsDecimal(s[0]);
    } else {
      assert s[0] == sign[0] && s[1..] == digits;
    }
  }

  /** Exactly such texts are read. */
  lemma AtoiIff(s: string, n: int)
    ensures Atoi(s) == Some(n) <==> exists sign, digits :: Says(s, sign, digits, n)
  {
    if Atoi(s) == Some(n) { AtoiSays(s, n); }
    if sign, digits :| Says(s, sign, digits, n) { SaysAtoi(s, sign, digits, n); }
  }
}
