// What a numeral is: the reference that the printing loops and the parsing loops
// of stdlib.h are measured against.
module Numerals {
  import opened Arith

  const NOT_A_DIGIT := 36

  function DigitChar(d: nat): char
    requires d < 36
  {
    if d < 10 then '0' + d as char else 'a' + (d - 10) as char
  }

  /** The value of a digit in either case; 36, too large for every base, for other characters. */
  function DigitValue(c: char): (d: nat)
    ensures d <= NOT_A_DIGIT
  {
    if '0' <= c <= '9' then c as int - '0' as int
    else if 'a' <= c <= 'z' then c as int - 'a' as int + 10
    else if 'A' <= c <= 'Z' then c as int - 'A' as int + 10
    else NOT_A_DIGIT
  }

  predicate AllDigits(s: string, base: nat) {
    forall i :: 0 <= i < |s| ==> DigitValue(s[i]) < base
  }

  /** The number that a string of digits denotes, however long. */
  function Value(s: string, base: nat): nat {
    if s == "" then 0
    else base * Value(s[..|s| - 1], base) + DigitValue(s[|s| - 1])
  }

  /** The shortest lower-case numeral of `n`. */
  function Numeral(n: nat, base: nat): (s: string)
    requires 2 <= base <= 36
    ensures |s| >= 1
    ensures AllDigits(s, base)
    decreases n
  {
    if n < base then [DigitChar(n)]
    else
      QuotientSmaller(n, base);
      Numeral(Quotient(n, base), base) + [DigitChar(Remainder(n, base))]
  }

  lemma QuotientSmaller(n: nat, d: nat)
    requires 2 <= d <= n
    ensures 0 < Quotient(n, d) < n
  {
    QuotientRemainder(n, d);
    MulLe(Quotient(n, d), 2, d);
  }

  /** The same with nothing at all for zero: the digits in front of a position. */
  function Leading(n: nat, base: nat): string
    requires 2 <= base <= 36
  {
    if n == 0 then "" else Numeral(n, base)
  }

  /** The decimal text of an integer. */
  function SignedDecimal(x: int): string {
    if x < 0 then "-" + Numeral(-x, 10) else Numeral(x, 10)
  }

  // ---------- a numeral denotes its number, and only one numeral does ----------

  lemma ValueAppend(t: string, c: char, base: nat)
    ensures Value(t + [c], base) == base * Value(t, base) + DigitValue(c)
  {
    assert (t + [c])[..|t|] == t;
  }

  lemma DigitOfChar(d: nat)
    requires d < 36
    ensures DigitValue(DigitChar(d)) == d
  {
  }

  lemma {:induction false} NumeralValue(n: nat, base: nat)
    requires 2 <= base <= 36
    ensures Value(Numeral(n, base), base) == n
    decreases n
  {
    hide Quotient, Remainder, DigitChar, DigitValue, Value;
    if n >= base {
      QuotientSmaller(n, base);
      QuotientRemainder(n, base);
      NumeralValue(Quotient(n, base), base);
      DigitOfChar(Remainder(n, base));
      ValueAppend(Numeral(Quotient(n, base), base), DigitChar(Remainder(n, base)), base);
    } else {
      DigitOfChar(n);
      ValueOfDigit(DigitChar(n), base);
    }
  }

  lemma ValueOfDigit(c: char, base: nat)
    ensures Value([c], base) == DigitValue(c)
  {
    assert [c][..0] == "";
    assert Value("", base) == 0;
  }

  /** Canonical digits: lower case, and no leading zero except in "0" itself. */
  predicate Canonical(s: string, base: nat) {
    && AllDigits(s, base)
    && s != ""
    && (forall i :: 0 <= i < |s| ==> !('A' <= s[i] <= 'Z'))
    && (|s| > 1 ==> s[0] != '0')
  }

  lemma {:induction false} NumeralIsCanonical(n: nat, base: nat)
    requires 2 <= base <= 36
    ensures Canonical(Numeral(n, base), base)
    ensures n > 0 ==> Numeral(n, base)[0] != '0'
    decreases n
  {
    if n >= base {
      QuotientSmaller(n, base);
      NumeralIsCanonical(Quotient(n, base), base);
    }
  }

  lemma {:induction false} ValuePositive(s: string, base: nat)
    requires 2 <= base <= 36 && s != "" && s[0] != '0' && AllDigits(s, base)
    ensures Value(s, base) > 0
  {
    if |s| > 1 {
      var t := s[..|s| - 1];
      ValuePositive(t, base);
      MulLe(base, 1, Value(t, base));
    } else {
      assert Value(s[..0], base) == 0;
    }
  }

  /** Distinct canonical strings denote distinct numbers, so the numeral of a number is unique. */
  lemma {:induction false} CanonicalIsNumeral(s: string, base: nat)
    requires 2 <= base <= 36 && Canonical(s, base)
    ensures s == Numeral(Value(s, base), base)
  {
    var t, c := s[..|s| - 1], s[|s| - 1];
    assert s == t + [c];
    assert DigitChar(DigitValue(c)) == c;
    if t == "" {
      assert Value(s, base) == DigitValue(c) by { assert Value(t, base) == 0; }
    } else {
      CanonicalIsNumeral(t, base);
      ValuePositive(t, base);
      NumeralStep(Value(t, base), DigitValue(c), base);
    }
  }

  lemma NumeralStep(q: nat, d: nat, base: nat)
    requires 2 <= base <= 36 && d < base && q > 0
    ensures Numeral(base * q + d, base) == Numeral(q, base) + [DigitChar(d)]
  {
    MulLe(base, 1, q);
    QuotientUnique(base * q + d, base, q, d);
  }

  // ---------- splitting a number at a position ----------

  lemma LeadingStep(above: nat, d: nat, base: nat)
    requires 2 <= base <= 36 && d < base
    ensures above > 0 || d > 0 ==> Leading(base * above + d, base) == Leading(above, base) + [DigitChar(d)]
    ensures Leading(above, base) == "" <==> above == 0
  {
    if above > 0 {
      NumeralStep(above, d, base);
      MulLe(base, 1, above);
    }
  }

  /** The digits above a position are a prefix of the numeral: `k` more follow. */
  lemma {:induction false} LeadingLength(v: nat, base: nat, k: nat)
    requires 2 <= base <= 36
    ensures Pow(base, k) > 0
    ensures Quotient(v, Pow(base, k)) > 0 ==>
              |Numeral(v, base)| == |Leading(Quotient(v, Pow(base, k)), base)| + k
    ensures Quotient(v, Pow(base, k)) == 0 && k > 0 ==> |Numeral(v, base)| <= k
  {
    PowPositive(base, k);
    if k == 0 {
      QuotientUnique(v, 1, v, 0);
    } else {
      LeadingLength(v, base, k - 1);
      SplitStep(v, base, k - 1);
      var above := Quotient(v, Pow(base, k));
      var d := Quotient(Remainder(v, Pow(base, k)), Pow(base, k - 1));
      LeadingStep(above, d, base);
      assert Leading(0, base) == "";
    }
  }

  /** The exact length of a numeral. */
  lemma NumeralLength(v: nat, base: nat, k: nat)
    requires 2 <= base <= 36 && k > 0
    ensures |Numeral(v, base)| <= k <==> v < Pow(base, k)
  {
    LeadingLength(v, base, k);
    if v < Pow(base, k) {
      QuotientUnique(v, Pow(base, k), 0, v);
    } else if Quotient(v, Pow(base, k)) > 0 {
      LeadingStep(Quotient(v, Pow(base, k)), 0, base);
    }
  }
}
