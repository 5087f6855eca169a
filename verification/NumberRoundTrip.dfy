// What is printed reads back: every conversion to text against the parsers.
module NumberRoundTrip {
  import opened Arith
  import opened CTypes
  import opened CStrings
  import opened Numerals
  import opened NumberPrint
  import opened NumberParse
  import opened Overflow
  import opened StrTo
  import opened NumberText

  /** Text that cannot continue a number: it is empty or does not begin with a letter or a digit. */
  predicate Stops(rest: string) {
    rest == "" || DigitValue(rest[0]) == NOT_A_DIGIT
  }

  /** A numeral with a sign and an optional 0x, in front of such text, has the obvious parts. */
  lemma NumeralReads(sign: string, mark: string, v: nat, base: nat, rest: string)
    requires sign in {"", "-"} && Stops(rest)
    requires (base == 10 && mark == "") || (base == 16 && mark in {"", "0x"})
    ensures Reads(Parts("", sign, mark, Numeral(v, base), rest), base, base)
  {
    hide Numeral;
    var ds := Numeral(v, base);
    assert (mark + (ds + rest))[0] == if mark == "" then ds[0] else '0';
    if StartsHex(ds + rest) {
      assert (ds + rest)[1] == if |ds| > 1 then ds[1] else rest[0];
    }
  }

  /** strtoull(u64toa(v)) in base 10, strtoull(u64toh(v)) in base 16, with or without 0x. */
  lemma UnsignedRoundTrip(w: Width, v: nat, base: nat, prefix: string, rest: string)
    requires v < Modulus(w) && Stops(rest)
    requires (base == 10 && prefix == "") || (base == 16 && (prefix == "" || prefix == "0x"))
    ensures StrToUL(w, prefix + Numeral(v, base) + rest, base) == (v, |prefix + Numeral(v, base)|, NoError)
  {
    hide Numeral, Value, StrToUL, Reads;
    var t := Parts("", "", prefix, Numeral(v, base), rest);
    NumeralReads("", prefix, v, base, rest);
    NumeralValue(v, base);
    StrToULReads(w, t, base, base);
    assert Whole(t) == prefix + Numeral(v, base) + rest;
  }

  lemma ZeroReads(rest: string)
    requires Stops(rest)
    ensures Reads(Parts("", "", "0", "", rest), 0, 8)
  {
    assert "" + rest == rest;
  }

  lemma PositiveReads(n: string, rest: string)
    requires n != "" && AllDigits(n, 10) && n[0] != '0' && Stops(rest)
    ensures Reads(Parts("", "", "", n, rest), 0, 10)
  {
    assert (n + rest)[0] == n[0];
    assert "" + (n + rest) == n + rest;
  }

  /** In base 0 a decimal numeral is recognised as one; "0" is taken as octal, which is still 0. */
  lemma UnsignedRoundTripAnyBase(w: Width, v: nat, rest: string)
    requires v < Modulus(w) && Stops(rest)
    ensures StrToUL(w, Numeral(v, 10) + rest, 0) == (v, |Numeral(v, 10)|, NoError)
  {
    hide Numeral, Value, StrToUL, Reads, Stops;
    var n := Numeral(v, 10);
    ZeroNumeral(v);
    if v == 0 {
      ZeroReads(rest);
      ValueNothing(8);
      StrToULReads(w, Parts("", "", "0", "", rest), 0, 8);
      assert Whole(Parts("", "", "0", "", rest)) == n + rest;
    } else {
      NumeralIsCanonical(v, 10);
      NumeralValue(v, 10);
      PositiveReads(n, rest);
      StrToULReads(w, Parts("", "", "", n, rest), 0, 10);
      assert Whole(Parts("", "", "", n, rest)) == n + rest;
    }
  }

  lemma ZeroNumeral(v: nat)
    ensures Numeral(v, 10) == "0" <==> v == 0
  {
    NumeralValue(v, 10);
    ValueOfDigit('0', 10);
  }

  lemma SignedWhole(x: int, rest: string)
    ensures var sign, ds := if x < 0 then "-" else "", Numeral(if x < 0 then -x else x, 10);
            && Whole(Parts("", sign, "", ds, rest)) == SignedDecimal(x) + rest
            && Length(Parts("", sign, "", ds, rest)) == |SignedDecimal(x)|
  {
    hide Numeral;
  }

  /** strtol(itoa(x)) and strtoll(i64toa(x)), the most negative word included. */
  lemma SignedRoundTrip(w: Width, x: int, rest: string)
    requires -(Modulus(w) / 2) <= x < Modulus(w) / 2 && Stops(rest)
    ensures StrToL(w, SignedDecimal(x) + rest, 10) == (x, |SignedDecimal(x)|, NoError)
  {
    hide Numeral, Value, StrToL, Reads, SignedDecimal, Whole, Length;
    var sign, v := if x < 0 then "-" else "", if x < 0 then -x else x;
    var t := Parts("", sign, "", Numeral(v, 10), rest);
    NumeralReads(sign, "", v, 10, rest);
    NumeralValue(v, 10);
    StrToLReads(w, t, 10, 10);
    SignedWhole(x, rest);
  }

  // ---------- atol ----------

  /** Wraps silently in the word; reads an optional minus and the decimal digits after it. */
  method Atol(w: Width, s: CString) returns (r: int)
    ensures var neg := At(s, 0) == '-';
            var t := if neg then s[1..] else s;
            var v := Value(t[..DigitRun(t, 10)], 10) % Modulus(w);
            r == ToSigned(if neg then Negated(v, Modulus(w)) else v, Modulus(w))
  {
    hide DigitRun, Value, ToSigned, Negated, DigitValue;
    var m := Modulus(w);
    var ret, neg, i := 0, false, 0;
    if At(s, 0) == '-' {
      neg := true;
      i := i + 1;
    }
    ghost var t := s[i..];
    ghost var k := i;
    assert t[..0] == "";
    ValueNothing(10);
    while true
      invariant k <= i <= |s|
      invariant i - k + DigitRun(s[i..], 10) == DigitRun(t, 10)
      invariant ret == Value(t[..i - k], 10) % m
      decreases |s| - i
    {
      var d := (At(s, i) as int - '0' as int) % m;
      DigitWord(w, At(s, i));
      if d > 9 {
        RunStops(s, i, 10);
        break;
      }
      RunNext(s, i, 10);
      DecimalStep(t, i - k, ret, d, m);
      ret := ret * 10 % m;
      ret := (ret + d) % m;
      i := i + 1;
    }
    r := ToSigned(if neg then Negated(ret, m) else ret, m);
  }

  lemma DigitWord(w: Width, c: char)
    ensures var d := (c as int - '0' as int) % Modulus(w);
            (d <= 9 <==> DigitValue(c) < 10) && (d <= 9 ==> d == DigitValue(c)) && DigitValue(NUL) >= 10
  {
  }

  lemma DecimalStep(t: string, n: nat, ret: nat, d: nat, m: nat)
    requires n < |t| && d == DigitValue(t[n]) && m > 0 && ret == Value(t[..n], 10) % m
    ensures Value(t[..n + 1], 10) % m == (ret * 10 % m + d) % m
  {
    assert t[..n + 1][..n] == t[..n];
    var v := Value(t[..n], 10);
    ModStep(v, d, m);
  }

  lemma ModStep(v: nat, d: nat, m: nat)
    requires m > 0
    ensures (10 * v + d) % m == (v % m * 10 % m + d) % m
  {
    var r := v % m * 10 % m;
    var q := 10 * (v / m) + v % m * 10 / m;
    assert 10 * v == m * q + r by {
      assert v == m * (v / m) + v % m;
      assert v % m * 10 == m * (v % m * 10 / m) + r;
      assert m * q == 10 * (m * (v / m)) + m * (v % m * 10 / m);
    }
    var z := (r + d) % m;
    assert r + d == m * ((r + d) / m) + z;
    var q' := q + (r + d) / m;
    assert m * q' == m * q + m * ((r + d) / m);
    DivisionUnique(m, q', z, (10 * v + d) / m, (10 * v + d) % m);
  }

  /** Printing a long and parsing the buffer gives it back, the most negative one included. */
  method AtolOfItoa(w: Width, x: int) returns (r: int)
    requires -(Modulus(w) / 2) <= x < Modulus(w) / 2
    ensures r == x
  {
    hide DigitRun, Value, Numeral, ToSigned, AllDigits, Stored, TextOf;
    var buffer := new char[21];
    ghost var was := buffer[..];
    var word := x % Modulus(w);
    SignedWordBits(w, x);
    BufferSizes(w, word);
    var len := Itoa(w, word, buffer, 0);
    NumeralsHaveNoNul(0, x);
    BufferText(was, "", SignedDecimal(x), buffer[..]);
    assert buffer[0..] == buffer[..] && "" + SignedDecimal(x) == SignedDecimal(x);
    len := StrLen(buffer, 0);
    assert buffer[..len] == SignedDecimal(x);
    r := Atol(w, buffer[..len]);
    AtolReadsBack(w, x);
  }

  lemma AtolReadsBack(w: Width, x: int)
    requires -(Modulus(w) / 2) <= x < Modulus(w) / 2
    ensures var s := SignedDecimal(x);
            var neg := At(s, 0) == '-';
            var t := if neg then s[1..] else s;
            var v := Value(t[..DigitRun(t, 10)], 10) % Modulus(w);
            ToSigned(if neg then Negated(v, Modulus(w)) else v, Modulus(w)) == x
  {
    hide DigitRun, Value, Numeral, ToSigned, AllDigits;
    var s := SignedDecimal(x);
    var v := if x < 0 then -x else x;
    FirstIsDigit(v);
    var ds := Numeral(v, 10);
    RunOfDigits(ds, "", 10);
    assert ds + "" == ds && ds[..|ds|] == ds;
    NumeralValue(v, 10);
    assert x < 0 ==> s[1..] == ds;
    SignedMagnitude(w, x);
  }

  lemma FirstIsDigit(v: nat)
    ensures Numeral(v, 10)[0] != '-'
  {
  }

  lemma SignedMagnitude(w: Width, x: int)
    requires -(Modulus(w) / 2) <= x < Modulus(w) / 2
    ensures var v := (if x < 0 then -x else x) % Modulus(w);
            ToSigned(if x < 0 then Negated(v, Modulus(w)) else v, Modulus(w)) == x
  {
  }
}
