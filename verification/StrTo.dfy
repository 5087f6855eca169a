// The strto* functions of stdlib.h and atol, and what they promise their callers.
module StrTo {
  import opened Arith
  import opened CTypes
  import opened Numerals
  import opened NumberParse
  import opened Overflow

  /** strtol, and strtoll or strtoimax when `w` is W64. The value is what the caller's `long` holds. */
  function StrToL(w: Width, s: string, base: int): (int, nat, Errno) {
    var r := StrToX(s, base, -(Modulus(w) / 2), Modulus(w) / 2 - 1);
    (ToSigned(r.value % Modulus(w), Modulus(w)), r.end, r.errno)
  }

  /** strtoul, and strtoull or strtoumax when `w` is W64. */
  function StrToUL(w: Width, s: string, base: int): (nat, nat, Errno) {
    var r := StrToX(s, base, 0, Modulus(w) - 1);
    (r.value % Modulus(w), r.end, r.errno)
  }

  /** The digits that the text offers, and the number they denote. */
  function Digits(s: string, base: nat): string {
    var h := ParseHead(s, base);
    s[h.start..h.start + DigitRun(s[h.start..], h.base)]
  }

  function Magnitude(s: string, base: nat): nat {
    Value(Digits(s, base), ParseHead(s, base).base)
  }

  function TrueValue(s: string, base: nat): int {
    if ParseHead(s, base).negative then 0 - Magnitude(s, base) else Magnitude(s, base)
  }

  lemma {:induction false} RunIsLongest(s: string, base: nat)
    ensures AllDigits(s[..DigitRun(s, base)], base)
    ensures DigitRun(s, base) < |s| ==> DigitValue(s[DigitRun(s, base)]) >= base
  {
    if s != "" && DigitValue(s[0]) < base {
      RunIsLongest(s[1..], base);
      var n := DigitRun(s[1..], base);
      assert forall i :: 0 < i <= n ==> s[i] == s[1..][..n][i - 1];
    }
  }

  /** Overflow or not, the end pointer is just behind the longest run of valid digits. */
  lemma EndIsBehindDigits(s: string, base: nat, lower: int, upper: nat)
    requires base <= 36 && -TWO64 < lower <= 0
    ensures var h := ParseHead(s, base);
            var end := StrToX(s, base, lower, upper).end;
            && h.start <= end <= |s|
            && Digits(s, base) == s[h.start..end]
            && AllDigits(s[h.start..end], h.base)
            && (end < |s| ==> DigitValue(s[end]) >= h.base)
  {
    hide DigitRun, Accumulate, ParseHead, AllDigits;
    var h := ParseHead(s, base);
    var n := DigitRun(s[h.start..], h.base);
    RunIsLongest(s[h.start..], h.base);
    assert s[h.start..][..n] == s[h.start..h.start + n];
    if h.start + n < |s| {
      assert s[h.start..][n] == s[h.start + n];
    }
  }

  /** A number within the limit is returned as it is written, and errno is not touched. */
  lemma InRangeConverted(s: string, base: nat, lower: int, upper: nat)
    requires 1 <= ParseHead(s, base).base && base <= 36
    requires -TWO64 < lower <= 0 && upper < TWO64
    requires Magnitude(s, base) <= Limit(ParseHead(s, base).negative, lower, upper)
    ensures var r := StrToX(s, base, lower, upper);
            r.errno == NoError && r.value == TrueValue(s, base) % TWO64
  {
    hide DigitRun, Accumulate, ParseHead, Value, AllDigits;
    EndIsBehindDigits(s, base, lower, upper);
    InRangeRun(Digits(s, base), ParseHead(s, base).base, Limit(ParseHead(s, base).negative, lower, upper));
    NegatedIsMinus(Magnitude(s, base));
  }

  lemma NegatedIsMinus(v: nat)
    requires v < TWO64
    ensures Negated(v, TWO64) == (0 - v) % TWO64
  {
  }

  /** A number beyond the limit comes back as the limit, with ERANGE, if it fits in 64 bits or the limit is safe. */
  lemma OutOfRangeSaturated(s: string, base: nat, lower: int, upper: nat)
    requires 1 <= ParseHead(s, base).base && base <= 36
    requires -TWO64 < lower <= 0 && upper < TWO64
    requires var limit := Limit(ParseHead(s, base).negative, lower, upper);
             Magnitude(s, base) > limit && (Magnitude(s, base) < TWO64 || Safe(ParseHead(s, base).base, limit))
    ensures var h := ParseHead(s, base);
            var r := StrToX(s, base, lower, upper);
            var limit := Limit(h.negative, lower, upper);
            r.errno == ERANGE && r.value == if h.negative then Negated(limit, TWO64) else limit
  {
    hide DigitRun, Accumulate, ParseHead, Value, AllDigits, Safe;
    EndIsBehindDigits(s, base, lower, upper);
    var h := ParseHead(s, base);
    if Magnitude(s, base) < TWO64 {
      WordRun(Digits(s, base), h.base, Limit(h.negative, lower, upper));
    } else {
      SafeRun(Digits(s, base), h.base, Limit(h.negative, lower, upper));
    }
  }

  lemma NegatedLow(v: nat)
    requires v < TWO32
    ensures Negated(v, TWO64) % TWO32 == Negated(v, TWO32)
  {
    if v > 0 {
      assert Negated(v, TWO64) == TWO32 * (TWO32 - 1) + (TWO32 - v);
    }
  }

  function Clamp(x: int, lo: int, hi: int): int {
    if x < lo then lo else if x > hi then hi else x
  }

  lemma SignedWord(w: Width, x: int)
    requires -(Modulus(w) / 2) <= x < Modulus(w) / 2
    ensures ToSigned(x % TWO64 % Modulus(w), Modulus(w)) == x
  {
    if w.W32? && x < 0 {
      assert x % TWO64 == TWO32 * (TWO32 - 1) + (TWO32 + x);
    }
  }

  lemma UnsignedWord(w: Width, v: nat)
    requires v < Modulus(w)
    ensures v % TWO64 % Modulus(w) == v
  {
  }

  /** strtol clamps to the range of a 32-bit `long` and reports ERANGE exactly when it had to. */
  lemma LongSaturates(s: string, base: nat)
    requires base <= 36
    ensures var x := TrueValue(s, base);
            var r := StrToL(W32, s, base);
            && r.0 == Clamp(x, -0x8000_0000, 0x7fff_ffff)
            && r.2 == if -0x8000_0000 <= x <= 0x7fff_ffff then NoError else ERANGE
  {
    hide ParseHead, Value, DigitRun, Accumulate, Safe, StrToX, Magnitude;
    EffectiveBase(s, base);
    SafeLimits(ParseHead(s, base).base);
    hide ToSigned;
    var limit := Limit(ParseHead(s, base).negative, -0x8000_0000, 0x7fff_ffff);
    SignedWord(W32, Clamp(TrueValue(s, base), -0x8000_0000, 0x7fff_ffff));
    if Magnitude(s, base) <= limit {
      InRangeConverted(s, base, -0x8000_0000, 0x7fff_ffff);
    } else {
      OutOfRangeSaturated(s, base, -0x8000_0000, 0x7fff_ffff);
    }
  }

  /** strtoul likewise; a minus sign negates the (saturated) magnitude in the word. */
  lemma UnsignedLongSaturates(s: string, base: nat)
    requires base <= 36
    ensures var v := Magnitude(s, base);
            var sat := if v < TWO32 then v else TWO32 - 1;
            var r := StrToUL(W32, s, base);
            && r.0 == (if ParseHead(s, base).negative then Negated(sat, TWO32) else sat)
            && r.2 == if v < TWO32 then NoError else ERANGE
  {
    hide ParseHead, Value, DigitRun, Accumulate, Safe, StrToX, Magnitude, Negated;
    EffectiveBase(s, base);
    SafeLimits(ParseHead(s, base).base);
    var v := Magnitude(s, base);
    var sat := if v < TWO32 then v else TWO32 - 1;
    NegatedLow(sat);
    UnsignedWord(W32, sat);
    if v < TWO32 {
      NegatedIsMinus(v);
      InRangeConverted(s, base, 0, TWO32 - 1);
    } else {
      OutOfRangeSaturated(s, base, 0, TWO32 - 1);
    }
  }

  /** strtoll clamps, and reports ERANGE exactly when it had to, as long as the digits fit in 64 bits. */
  lemma LongLongSaturates(s: string, base: nat)
    requires base <= 36 && Magnitude(s, base) < TWO64
    ensures var x := TrueValue(s, base);
            var r := StrToL(W64, s, base);
            && r.0 == Clamp(x, -(TWO64 / 2), TWO64 / 2 - 1)
            && r.2 == if -(TWO64 / 2) <= x < TWO64 / 2 then NoError else ERANGE
  {
    hide ParseHead, Value, DigitRun, Accumulate, StrToX, ToSigned, Safe, Magnitude;
    EffectiveBase(s, base);
    var limit := Limit(ParseHead(s, base).negative, -(TWO64 / 2), TWO64 / 2 - 1);
    SignedWord(W64, Clamp(TrueValue(s, base), -(TWO64 / 2), TWO64 / 2 - 1));
    if Magnitude(s, base) <= limit {
      InRangeConverted(s, base, -(TWO64 / 2), TWO64 / 2 - 1);
    } else {
      OutOfRangeSaturated(s, base, -(TWO64 / 2), TWO64 / 2 - 1);
      NegatedIsMinus(limit);
    }
  }

  /** strtoull of everything its word can hold; a minus sign negates it there. */
  lemma UnsignedLongLongInRange(s: string, base: nat)
    requires base <= 36
    requires Magnitude(s, base) < TWO64
    ensures StrToUL(W64, s, base).0 == TrueValue(s, base) % TWO64 && StrToUL(W64, s, base).2 == NoError
  {
    hide ParseHead, Value, DigitRun, Accumulate, StrToX;
    EffectiveBase(s, base);
    InRangeConverted(s, base, 0, TWO64 - 1);
  }

  /** A 64-bit limit is not safe in base 10: 21000000000000000000 wraps to a larger value than it came from. */
  lemma UnnoticedOverflow()
    ensures StrToUL(W64, Numeral(21000000000000000000, 10), 10) == (2553255926290448384, 20, NoError)
  {
    hide Numeral, Accumulate, Push, DigitRun, ParseHead, Value, BlindSpot;
    var u := 2100000000000000000;
    var s := Numeral(10 * u + 0, 10);
    assert s == Numeral(21000000000000000000, 10);
    assert s[0..0 + |s|] == s && s[0..] == s;
    NumeralStep(u, 0, 10);
    NumeralValue(u, 10);
    InRangeRun(Numeral(u, 10), 10, TWO64 - 1);
    WrappedStep(Numeral(u, 10), u);
    WholeNumeral(10 * u + 0);
    NumeralLength(10 * u, 10, 20);
    NumeralLength(10 * u, 10, 19);
    TenToNineteen();
  }

  /** The first value beyond LLONG_MAX comes back as LLONG_MAX, with ERANGE. */
  lemma NoticedOverflow()
    ensures StrToL(W64, Numeral(TWO64 / 2, 10), 10).0 == TWO64 / 2 - 1
    ensures StrToL(W64, Numeral(TWO64 / 2, 10), 10).2 == ERANGE
  {
    hide Numeral, Accumulate, DigitRun, ParseHead, Value, StrToL;
    var s := Numeral(TWO64 / 2, 10);
    WholeNumeral(TWO64 / 2);
    assert s[0..0 + |s|] == s && s[0..] == s;
    NumeralValue(TWO64 / 2, 10);
    LongLongSaturates(s, 10);
  }

  lemma TenToNineteen()
    ensures Pow(10, 19) == 10000000000000000000 && Pow(10, 20) == 100000000000000000000
  {
    assert Pow(10, 5) == 100000;
    assert Pow(10, 10) == 10000000000;
    assert Pow(10, 15) == 1000000000000000;
  }

  lemma WrappedStep(ds: string, u: nat)
    requires u == 2100000000000000000 && Accumulate(ds, 10, TWO64 - 1) == Acc(u, false)
    ensures Accumulate(ds + [DigitChar(0)], 10, TWO64 - 1) == Acc(2553255926290448384, false)
  {
    assert (ds + [DigitChar(0)])[..|ds|] == ds;
  }

  /** A numeral by itself is all digits from its first character on. */
  lemma WholeNumeral(n: nat)
    ensures ParseHead(Numeral(n, 10), 10) == Head(false, 10, 0)
    ensures DigitRun(Numeral(n, 10), 10) == |Numeral(n, 10)|
  {
    var s := Numeral(n, 10);
    AllDigitsRun(s, 10);
    assert DigitValue(s[0]) < 10;
    assert s[0..] == s;
  }

  lemma {:induction false} AllDigitsRun(s: string, base: nat)
    requires AllDigits(s, base)
    ensures DigitRun(s, base) == |s|
  {
    if s != "" {
      AllDigitsRun(s[1..], base);
    }
  }
}
