// When the overflow test of __strtox is right. In-range runs are always converted
// exactly; out-of-range runs are always noticed if and only if the limit is small
// enough for the base, because the running value wraps modulo 2^64.
module Overflow {
  import opened Arith
  import opened CTypes
  import opened Numerals
  import opened NumberParse

  /** The flag tells exactly the runs whose true value exceeds the limit. */
  ghost predicate Exact(base: nat, limit: nat) {
    forall ds :: AllDigits(ds, base) ==> (Accumulate(ds, base, limit).overflow <==> Value(ds, base) > limit)
  }

  /** What a caller can check: no out-of-range step can wrap past the value it started from. */
  predicate Safe(base: nat, limit: nat) {
    (limit + 1) * (base - 1) < TWO64
  }

  lemma ModuloSum(p: nat, d: nat)
    ensures (p % TWO64 + d) % TWO64 == (p + d) % TWO64
  {
  }

  lemma PushModulo(a: Acc, c: char, base: nat, limit: nat, t: nat)
    requires t == a.val * base + DigitValue(c)
    ensures Push(a, c, base, limit).val == t % TWO64
  {
    hide DigitValue;
    ModuloSum(a.val * base, DigitValue(c));
  }

  lemma {:induction false} ValueGrows(ds: string, base: nat)
    requires ds != "" && base > 0
    ensures Value(ds, base) == Value(ds[..|ds| - 1], base) * base + DigitValue(ds[|ds| - 1])
    ensures Value(ds, base) >= Value(ds[..|ds| - 1], base)
  {
    var u := Value(ds[..|ds| - 1], base);
    MulLe(u, 1, base);
  }

  lemma PushWord(a: Acc, c: char, base: nat, limit: nat, t: nat)
    requires t == a.val * base + DigitValue(c) && a.val <= t < TWO64
    ensures Push(a, c, base, limit) == Acc(t, a.overflow || t > limit)
  {
    hide DigitValue;
    PushModulo(a, c, base, limit, t);
  }

  /** While the value fits in the word, it is exact and the flag compares it with the limit, whatever the limit. */
  lemma {:induction false} WordRun(ds: string, base: nat, limit: nat)
    requires 0 < base && AllDigits(ds, base) && Value(ds, base) < TWO64
    ensures Accumulate(ds, base, limit) == Acc(Value(ds, base), Value(ds, base) > limit)
  {
    hide Value, Push, DigitValue;
    if ds != "" {
      var rest, c := ds[..|ds| - 1], ds[|ds| - 1];
      ValueGrows(ds, base);
      WordRun(rest, base, limit);
      PushWord(Accumulate(rest, base, limit), c, base, limit, Value(ds, base));
    } else {
      ValueNothing(base);
    }
  }

  /** An in-range run is converted exactly and never flagged. */
  lemma InRangeRun(ds: string, base: nat, limit: nat)
    requires 0 < base && AllDigits(ds, base) && Value(ds, base) <= limit < TWO64
    ensures Accumulate(ds, base, limit) == Acc(Value(ds, base), false)
  {
    WordRun(ds, base, limit);
  }

  lemma ValueNothing(base: nat)
    ensures Value("", base) == 0
  {
  }

  /** From `u <= limit`, one more digit adds less than a full turn of the word. */
  lemma LessThanATurn(u: nat, d: nat, base: nat, limit: nat)
    requires Safe(base, limit) && u <= limit && d < base
    ensures u * base + d < u + TWO64
  {
    assert u * base + d == u + u * (base - 1) + d;
    assert (u + 1) * (base - 1) == u * (base - 1) + (base - 1);
    MulLe(base - 1, u + 1, limit + 1);
  }

  lemma {:induction false} SafeRun(ds: string, base: nat, limit: nat)
    requires 0 < base && Safe(base, limit) && limit < TWO64 && AllDigits(ds, base)
    ensures Accumulate(ds, base, limit).overflow <==> Value(ds, base) > limit
  {
    hide Value, Safe;
    if Value(ds, base) <= limit {
      InRangeRun(ds, base, limit);
    } else if ds == "" {
      ValueNothing(base);
    } else {
      var rest, c := ds[..|ds| - 1], ds[|ds| - 1];
      ValueGrows(ds, base);
      SafeRun(rest, base, limit);
      if Value(rest, base) <= limit {
        InRangeRun(rest, base, limit);
        LessThanATurn(Value(rest, base), DigitValue(c), base, limit);
        PushModulo(Accumulate(rest, base, limit), c, base, limit, Value(ds, base));
      }
    }
  }

  /** For an unsafe limit, the run that wraps exactly back to the value it started from. */
  function BlindSpot(base: nat): string
    requires 2 <= base <= 36
  {
    Numeral(Quotient(TWO64 - 1, base - 1), base) + [DigitChar(Remainder(TWO64 - 1, base - 1) + 1)]
  }

  lemma BlindSpotValue(base: nat, limit: nat)
    requires 2 <= base <= 36 && !Safe(base, limit)
    ensures AllDigits(BlindSpot(base), base)
    ensures var u := Quotient(TWO64 - 1, base - 1);
            && u <= limit
            && Value(BlindSpot(base), base) == u + TWO64
            && u * base + (Remainder(TWO64 - 1, base - 1) + 1) == u + TWO64
  {
    hide Quotient, Remainder, Numeral, Value;
    var u, r := Quotient(TWO64 - 1, base - 1), Remainder(TWO64 - 1, base - 1);
    QuotientRemainder(TWO64 - 1, base - 1);
    BlindArithmetic(u, r, base, limit);
    NumeralValue(u, base);
    var ds := BlindSpot(base);
    assert ds[..|ds| - 1] == Numeral(u, base);
    DigitOfChar(r + 1);
    ValueGrows(ds, base);
  }

  lemma BlindArithmetic(u: nat, r: nat, base: nat, limit: nat)
    requires base >= 2 && TWO64 - 1 == (base - 1) * u + r && r < base - 1 && (limit + 1) * (base - 1) >= TWO64
    ensures u * base + (r + 1) == u + TWO64
    ensures u <= limit
  {
    assert u * base == (base - 1) * u + u;
    if u > limit {
      MulLe(base - 1, limit + 1, u);
      assert false;
    }
  }

  lemma UnsafeRun(base: nat, limit: nat)
    requires 2 <= base <= 36 && !Safe(base, limit) && limit < TWO64
    ensures AllDigits(BlindSpot(base), base) && Value(BlindSpot(base), base) > limit
    ensures !Accumulate(BlindSpot(base), base, limit).overflow
  {
    hide Quotient, Remainder, Numeral, Value, Safe, Push;
    var u, r := Quotient(TWO64 - 1, base - 1), Remainder(TWO64 - 1, base - 1);
    BlindSpotValue(base, limit);
    NumeralValue(u, base);
    InRangeRun(Numeral(u, base), base, limit);
    var ds := BlindSpot(base);
    assert ds[..|ds| - 1] == Numeral(u, base);
    DigitOfChar(r + 1);
    BlindPush(u, DigitChar(r + 1), base, limit);
  }

  lemma BlindPush(u: nat, c: char, base: nat, limit: nat)
    requires u <= limit < TWO64 && u * base + DigitValue(c) == u + TWO64
    ensures Push(Acc(u, false), c, base, limit) == Acc(u, false)
  {
    hide DigitValue;
    PushModulo(Acc(u, false), c, base, limit, u + TWO64);
  }

  /** The overflow flag is exact for every run of digits if and only if (limit + 1) * (base - 1) < 2^64. */
  lemma ExactIffSafe(base: nat, limit: nat)
    requires 1 <= base <= 36 && limit < TWO64
    ensures Exact(base, limit) <==> Safe(base, limit)
  {
    if Safe(base, limit) {
      forall ds | AllDigits(ds, base)
        ensures Accumulate(ds, base, limit).overflow <==> Value(ds, base) > limit
      {
        SafeRun(ds, base, limit);
      }
    } else {
      UnsafeRun(base, limit);
    }
  }

  /** Which limits that covers: every 32-bit one in every base; of the 64-bit ones, those of long long in base 2. */
  lemma SafeLimits(base: nat)
    requires 1 <= base <= 36
    ensures Safe(base, TWO32 - 1) && Safe(base, TWO32 / 2 - 1) && Safe(base, TWO32 / 2)
    ensures Safe(base, TWO64 - 1) <==> base == 1
    ensures Safe(base, TWO64 / 2 - 1) <==> base <= 2
    ensures Safe(base, TWO64 / 2) <==> base <= 2
  {
  }
}
