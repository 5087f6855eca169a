// stdlib.h: the divide-free conversions of numbers to text. Each writes its digits
// through a loop over positions, most significant first, into a caller's buffer.
module NumberPrint {
  import opened Arith
  import opened CStrings
  import opened CTypes
  import opened Numerals

  /** The position of the most significant decimal digit a word can have. */
  function TopPosition(w: Width): nat {
    if w.W32? then 9 else 19
  }

  /** What the buffer shows once the positions above `pos` are done. */
  function Shown(value: nat, base: nat, pos: int): string
    requires 2 <= base <= 36 && -1 <= pos
  {
    if pos == -1 then Numeral(value, base)
    else
      PowPositive(base, pos + 1);
      Leading(Quotient(value, Pow(base, pos + 1)), base)
  }

  /** One turn of a digit loop: what the digit is, and when it is shown. */
  lemma ShownStep(value: nat, base: nat, pos: nat)
    requires 2 <= base <= 36
    ensures Pow(base, pos) > 0 && Pow(base, pos + 1) > 0
    ensures var rest := Remainder(value, Pow(base, pos + 1));
            var d := Quotient(rest, Pow(base, pos));
            && d < base
            && Remainder(value, Pow(base, pos)) == Remainder(rest, Pow(base, pos))
            && Shown(value, base, pos - 1)
               == Shown(value, base, pos)
                  + if Shown(value, base, pos) != "" || d > 0 || pos == 0 then [DigitChar(d)] else ""
    ensures |Shown(value, base, pos - 1)| <= |Numeral(value, base)|
  {
    SplitStep(value, base, pos);
    var above := Quotient(value, Pow(base, pos + 1));
    var d := Quotient(Remainder(value, Pow(base, pos + 1)), Pow(base, pos));
    LeadingStep(above, d, base);
    LeadingLength(value, base, pos);
    if pos == 0 {
      QuotientUnique(value, 1, value, 0);
    }
  }

  lemma ShownFirst(value: nat, base: nat, pos: nat)
    requires 2 <= base <= 36 && value < Pow(base, pos + 1)
    ensures Shown(value, base, pos) == "" && Remainder(value, Pow(base, pos + 1)) == value
    ensures Shown(value, base, -1) == Numeral(value, base)
  {
    QuotientUnique(value, Pow(base, pos + 1), 0, value);
  }

  lemma PowersOfTen(w: Width)
    ensures Pow(10, TopPosition(w)) < Modulus(w) <= Pow(10, TopPosition(w) + 1)
  {
    assert Pow(10, 5) == 100000;
    assert Pow(10, 10) == 10000000000;
    assert Pow(10, 15) == 1000000000000000;
    assert Pow(10, 20) == 100000000000000000000;
  }

  lemma {:induction false} PowMonotone(b: nat, d: nat, e: nat)
    requires b > 0 && d <= e
    ensures Pow(b, d) <= Pow(b, e)
    decreases e
  {
    if d < e {
      PowMonotone(b, d, e - 1);
      MulLe(Pow(b, e - 1), 1, b);
    }
  }

  /** The loop that raises `lim` to the weight of a position, in a word of modulus `m`. */
  method PowerOfTen(w: Width, pos: nat) returns (lim: nat)
    requires pos <= TopPosition(w)
    ensures lim == Pow(10, pos) > 0
  {
    var dig := 0;
    lim := 1;
    PowersOfTen(w);
    while dig < pos
      invariant dig <= pos && lim == Pow(10, dig) > 0
    {
      PowMonotone(10, dig + 1, TopPosition(w));
      lim := lim * 10 % Modulus(w);
      dig := dig + 1;
    }
  }

  /** The loop that subtracts `lim` as often as it fits. */
  method SubtractDigit(value: nat, lim: nat) returns (dig: nat, rest: nat)
    requires lim > 0
    ensures dig == Quotient(value, lim) && rest == Remainder(value, lim)
    ensures value >= lim ==> dig > 0
  {
    dig, rest := 0, value;
    while rest >= lim
      invariant value == lim * dig + rest
    {
      rest := rest - lim;
      dig := dig + 1;
    }
    QuotientUnique(value, lim, dig, rest);
  }

  /** utoa_r, and u64toa_r when `w` is W64. */
  method Utoa(w: Width, value: nat, buffer: array<char>, start: nat) returns (digits: nat)
    requires value < Modulus(w)
    requires start + |Numeral(value, 10)| < buffer.Length
    modifies buffer
    ensures digits == |Numeral(value, 10)|
    ensures buffer[..] == Stored(old(buffer[..]), start, Numeral(value, 10) + [NUL])
  {
    hide Pow, Quotient, Remainder, Numeral, Leading, Shown, Modulus, Stored;
    ghost var before := buffer[..];
    var rest := value;
    var pos: int := TopPosition(w);
    digits := 0;
    StoredNothing(before, start);
    PowersOfTen(w);
    ShownFirst(value, 10, pos);
    while pos >= 0
      invariant -1 <= pos <= TopPosition(w)
      invariant Pow(10, pos + 1) > 0 && rest == Remainder(value, Pow(10, pos + 1))
      invariant digits == |Shown(value, 10, pos)| <= |Numeral(value, 10)|
      invariant buffer[..] == Stored(before, start, Shown(value, 10, pos))
    {
      ShownStep(value, 10, pos);
      var lim := PowerOfTen(w, pos);
      if digits > 0 || rest >= lim || pos == 0 {
        var dig;
        dig, rest := SubtractDigit(rest, lim);
        StoredAppend(before, start, Shown(value, 10, pos), '0' + dig as char);
        buffer[start + digits] := '0' + dig as char;
        digits := digits + 1;
      } else {
        QuotientUnique(rest, lim, 0, rest);
      }
      pos := pos - 1;
    }
    StoredAppend(before, start, Numeral(value, 10), NUL);
    buffer[start + digits] := NUL;
  }

  // ---------- hexadecimal ----------

  /** The nibble at position `k`, by shift and mask. */
  lemma NibbleByShift(value: nat, k: nat)
    ensures Pow(16, k) > 0 && Pow(16, k + 1) > 0
    ensures Shr(value, 4 * k) % 16 == Quotient(Remainder(value, Pow(16, k + 1)), Pow(16, k))
  {
    SplitStep(value, 16, k);
    Pow16(k);
  }

  /** Only the low 32 bits matter for a nibble below bit 32. */
  lemma LowHalfNibble(value: nat, k: nat)
    requires k < 8
    ensures Shr(value % TWO32, 4 * k) % 16 == Shr(value, 4 * k) % 16
  {
    hide Quotient, Remainder, Pow;
    PowPositive(2, 4 * k);
    PowSum(2, 4 * k, 28 - 4 * k);
    TwoTo28();
    LowHalfQuotient(value / TWO32, value % TWO32, Pow(2, 4 * k), Pow(2, 28 - 4 * k));
    DropSixteens(Quotient(value % TWO32, Pow(2, 4 * k)), Pow(2, 28 - 4 * k) * (value / TWO32));
  }

  lemma DropSixteens(q: nat, h: nat)
    ensures (16 * h + q) % 16 == q % 16
  {
  }

  lemma LowHalfQuotient(high: nat, low: nat, lim: nat, up: nat)
    requires lim > 0 && lim * up == 0x1000_0000
    ensures Quotient(TWO32 * high + low, lim) == 16 * (up * high) + Quotient(low, lim)
  {
    hide Quotient, Remainder;
    QuotientRemainder(low, lim);
    HalfProduct(lim, up, high, Quotient(low, lim), Remainder(low, lim));
    QuotientUnique(TWO32 * high + low, lim, 16 * (up * high) + Quotient(low, lim), Remainder(low, lim));
  }

  lemma TwoTo28()
    ensures Pow(2, 28) == 0x1000_0000
  {
    assert Pow(2, 14) == 0x4000;
    PowSum(2, 14, 14);
  }

  lemma HalfProduct(lim: nat, up: nat, high: nat, q: nat, r: nat)
    requires lim * up == 0x1000_0000
    ensures TWO32 * high + lim * q + r == lim * (16 * (up * high) + q) + r
  {
    assert lim * (16 * (up * high)) == 16 * ((lim * up) * high);
  }

  /** The digit as both hexadecimal loops compute it. */
  lemma HexDigit(dig: nat)
    requires dig < 16
    ensures DigitChar(dig) == '0' + (if dig > 9 then dig + 39 else dig) as char
  {
  }

  lemma PowersOfSixteen(w: Width)
    ensures Modulus(w) == Pow(16, if w.W32? then 8 else 16)
  {
    assert Pow(16, 4) == 0x1_0000;
    PowSum(16, 4, 4);
    PowSum(16, 8, 8);
  }

  /** utoh_r: shift the top nibble out and subtract it. */
  method Utoh(w: Width, value: nat, buffer: array<char>, start: nat) returns (digits: nat)
    requires value < Modulus(w)
    requires start + |Numeral(value, 16)| < buffer.Length
    modifies buffer
    ensures digits == |Numeral(value, 16)|
    ensures buffer[..] == Stored(old(buffer[..]), start, Numeral(value, 16) + [NUL])
  {
    hide Pow, Quotient, Remainder, Numeral, Leading, Shr, Shl, Shown, Stored;
    ghost var before := buffer[..];
    var rest := value;
    var pos: int := if w.W64? then 60 else 28;
    ghost var k := pos / 4;
    digits := 0;
    StoredNothing(before, start);
    PowersOfSixteen(w);
    ShownFirst(value, 16, k);
    while pos >= 0
      invariant -1 <= k <= 15 && pos == 4 * k
      invariant Pow(16, k + 1) > 0 && rest == Remainder(value, Pow(16, k + 1))
      invariant digits == |Shown(value, 16, k)| <= |Numeral(value, 16)|
      invariant buffer[..] == Stored(before, start, Shown(value, 16, k))
    {
      ShownStep(value, 16, k);
      var dig := Shr(rest, pos);
      ShiftedOut(value, rest, k);
      rest := rest - Shl(dig, pos, TWO64);
      pos, k := pos - 4, k - 1;
      HexDigit(dig);
      if dig > 0 || digits > 0 || pos < 0 {
        if dig > 9 {
          dig := dig + 39;
        }
        StoredAppend(before, start, Shown(value, 16, k + 1), '0' + dig as char);
        buffer[start + digits] := '0' + dig as char;
        digits := digits + 1;
      }
    }
    StoredAppend(before, start, Numeral(value, 16), NUL);
    buffer[start + digits] := NUL;
  }

  /** Subtracting the shifted-out nibble leaves the lower ones. */
  lemma ShiftedOut(value: nat, rest: nat, k: nat)
    requires k < 16 && Pow(16, k) > 0 && Pow(16, k + 1) > 0 && rest == Remainder(value, Pow(16, k + 1))
    ensures Shr(rest, 4 * k) == Quotient(rest, Pow(16, k))
    ensures rest - Shl(Shr(rest, 4 * k), 4 * k, TWO64) == Remainder(rest, Pow(16, k))
  {
    Pow16(k);
    QuotientRemainder(rest, Pow(16, k));
    PowersOfSixteen(W64);
    PowMonotone(16, k + 1, 16);
  }

  /** u64toh_r: mask each nibble, through 32-bit halves where `long` has 32 bits. */
  method U64toh(w: Width, value: nat, buffer: array<char>, start: nat) returns (digits: nat)
    requires value < TWO64
    requires start + |Numeral(value, 16)| < buffer.Length
    modifies buffer
    ensures digits == |Numeral(value, 16)|
    ensures buffer[..] == Stored(old(buffer[..]), start, Numeral(value, 16) + [NUL])
  {
    hide Pow, Quotient, Remainder, Numeral, Leading, Shr, Shown, Stored;
    ghost var before := buffer[..];
    var pos: int := 60;
    ghost var k := 15;
    digits := 0;
    StoredNothing(before, start);
    PowersOfSixteen(W64);
    ShownFirst(value, 16, k);
    while pos >= 0
      invariant -1 <= k <= 15 && pos == 4 * k
      invariant digits == |Shown(value, 16, k)| <= |Numeral(value, 16)|
      invariant buffer[..] == Stored(before, start, Shown(value, 16, k))
    {
      ShownStep(value, 16, k);
      var dig;
      if w.W64? {
        dig := Shr(value, pos) % 16;
      } else {
        var d := (if pos >= 32 then Shr(value, 32) else value) % TWO32;
        dig := Shr(d, pos % 32) % 16;
        SplitNibble(value, k);
      }
      NibbleByShift(value, k);
      HexDigit(dig);
      if dig > 9 {
        dig := dig + 39;
      }
      pos, k := pos - 4, k - 1;
      if dig > 0 || digits > 0 || pos < 0 {
        StoredAppend(before, start, Shown(value, 16, k + 1), '0' + dig as char);
        buffer[start + digits] := '0' + dig as char;
        digits := digits + 1;
      }
    }
    StoredAppend(before, start, Numeral(value, 16), NUL);
    buffer[start + digits] := NUL;
  }

  /** The nibble of the 32-bit path is the nibble of the 64-bit path. */
  lemma SplitNibble(value: nat, k: nat)
    requires k < 16
    ensures var d := (if 4 * k >= 32 then Shr(value, 32) else value) % TWO32;
            Shr(d, 4 * k % 32) % 16 == Shr(value, 4 * k) % 16
  {
    hide Shr;
    if k >= 8 {
      var low := k - 8;
      assert 4 * k == 32 + 4 * low && 4 * k % 32 == 4 * low;
      LowHalfNibble(Shr(value, 32), low);
      ShrShr(value, 32, 4 * low);
    } else {
      assert 4 * k % 32 == 4 * k;
      LowHalfNibble(value, k);
    }
  }

  // ---------- signed conversions and buffer sizes ----------

  /** itoa_r, and i64toa_r when `w` is W64. `value` is the argument as a two's complement word. */
  method Itoa(w: Width, value: nat, buffer: array<char>, start: nat) returns (len: nat)
    requires value < Modulus(w)
    requires start + |SignedDecimal(ToSigned(value, Modulus(w)))| < buffer.Length
    modifies buffer
    ensures len == |SignedDecimal(ToSigned(value, Modulus(w)))|
    ensures buffer[..] == Stored(old(buffer[..]), start, SignedDecimal(ToSigned(value, Modulus(w))) + [NUL])
  {
    hide Numeral, Stored;
    ghost var before := buffer[..];
    var m := Modulus(w);
    var magnitude, ptr := value, start;
    len := 0;
    if ToSigned(value, m) < 0 {
      magnitude := Negated(value, m);
      StoredNothing(before, start);
      StoredAppend(before, start, "", '-');
      buffer[ptr] := '-';
      ptr := ptr + 1;
      len := len + 1;
      StoredTwice(before, start, "-", Numeral(magnitude, 10) + [NUL]);
      assert "" + ['-'] == "-";
      assert "-" + (Numeral(magnitude, 10) + [NUL]) == SignedDecimal(ToSigned(value, m)) + [NUL];
    }
    var digits := Utoa(w, magnitude, buffer, ptr);
    len := len + digits;
  }

  lemma StoredTwice(a: string, start: nat, s: string, t: string)
    requires start + |s| + |t| <= |a|
    ensures Stored(Stored(a, start, s), start + |s|, t) == Stored(a, start, s + t)
  {
  }

  lemma PowersOfTenAre()
    ensures Pow(10, 9) == 1000000000 && Pow(10, 10) == 10000000000
    ensures Pow(10, 18) == 1000000000000000000 && Pow(10, 19) == 10000000000000000000
  {
    assert Pow(10, 5) == 100000;
    assert Pow(10, 15) == 1000000000000000;
  }

  lemma DecimalFits(w: Width, v: nat)
    requires v < Modulus(w)
    ensures |Numeral(v, 10)| <= TopPosition(w) + 1
  {
    hide Numeral, Pow, Modulus;
    PowersOfTen(w);
    NumeralLength(v, 10, TopPosition(w) + 1);
  }

  lemma HexFits(w: Width, v: nat)
    requires v < Modulus(w)
    ensures |Numeral(v, 16)| <= if w.W32? then 8 else 16
  {
    hide Numeral, Pow, Modulus;
    PowersOfSixteen(w);
    NumeralLength(v, 16, if w.W32? then 8 else 16);
  }

  /** A signed word: one digit less than the unsigned one on 64 bits, and perhaps a minus. */
  lemma SignedFits(w: Width, v: nat)
    requires v < Modulus(w)
    ensures |SignedDecimal(ToSigned(v, Modulus(w)))| <= if w.W32? then 11 else 20
  {
    hide Numeral, Pow;
    var x := ToSigned(v, Modulus(w));
    var magnitude := if x < 0 then -x else x;
    PowersOfTenAre();
    NumeralLength(magnitude, 10, if w.W32? then 10 else 19);
  }

  lemma LongestDecimals()
    ensures |Numeral(TWO32 - 1, 10)| == 10 && |Numeral(TWO64 - 1, 10)| == 20
  {
    hide Numeral, Pow;
    PowersOfTenAre();
    DecimalFits(W32, TWO32 - 1);
    DecimalFits(W64, TWO64 - 1);
    NumeralLength(TWO32 - 1, 10, 9);
    NumeralLength(TWO64 - 1, 10, 19);
  }

  lemma LongestHex()
    ensures |Numeral(TWO32 - 1, 16)| == 8 && |Numeral(TWO64 - 1, 16)| == 16
  {
    hide Numeral;
    HexFits(W32, TWO32 - 1);
    HexFits(W64, TWO64 - 1);
    assert Pow(16, 7) == 0x1000_0000;
    assert Pow(16, 11) == 0x1000_0000_0000;
    assert Pow(16, 15) == 0x1000_0000_0000_0000;
    NumeralLength(TWO32 - 1, 16, 7);
    NumeralLength(TWO64 - 1, 16, 15);
  }

  lemma LongestSigned()
    ensures |SignedDecimal(ToSigned(TWO32 / 2, TWO32))| == 11
    ensures |SignedDecimal(ToSigned(TWO64 / 2, TWO64))| == 20
  {
    hide Numeral, Pow;
    PowersOfTenAre();
    SignedFits(W32, TWO32 / 2);
    SignedFits(W64, TWO64 / 2);
    NumeralLength(TWO32 / 2, 10, 9);
    NumeralLength(TWO64 / 2, 10, 18);
  }

  /** The longest texts, and that they are reached: the size of every fixed buffer is exact. */
  lemma BufferSizes(w: Width, value: nat)
    requires value < Modulus(w)
    ensures |Numeral(value, 10)| <= (if w.W32? then 10 else 20)
    ensures |Numeral(value, 16)| <= (if w.W32? then 8 else 16)
    ensures |SignedDecimal(ToSigned(value, Modulus(w)))| <= (if w.W32? then 11 else 20)
    ensures |Numeral(TWO32 - 1, 10)| == 10 && |Numeral(TWO64 - 1, 10)| == 20
    ensures |Numeral(TWO32 - 1, 16)| == 8 && |Numeral(TWO64 - 1, 16)| == 16
    ensures |SignedDecimal(ToSigned(TWO32 / 2, TWO32))| == 11
    ensures |SignedDecimal(ToSigned(TWO64 / 2, TWO64))| == 20
  {
    hide Numeral, SignedDecimal, ToSigned, Modulus;
    DecimalFits(w, value);
    HexFits(w, value);
    SignedFits(w, value);
    LongestDecimals();
    LongestHex();
    LongestSigned();
  }

  // ---------- the text in the buffer ----------

  lemma NumeralsHaveNoNul(v: nat, x: int)
    ensures NUL !in Numeral(v, 10) && NUL !in Numeral(v, 16) && NUL !in SignedDecimal(x)
  {
    assert DigitValue(NUL) == NOT_A_DIGIT;
  }

  /** A text stored with its terminator behind a prefix is the text that starts the buffer. */
  lemma BufferText(was: string, prefix: string, text: string, b: string)
    requires |prefix| + |text| < |was| && was[..|prefix|] == prefix && NUL !in prefix && NUL !in text
    requires b == Stored(was, |prefix|, text + [NUL])
    ensures NUL in b && TextOf(b) == prefix + text
  {
    assert b[|prefix| + |text|] == NUL;
    TextOfUnique(b, prefix + text);
  }

  /** A word and its signed reading. */
  lemma SignedWordBits(w: Width, x: int)
    requires -(Modulus(w) / 2) <= x < Modulus(w) / 2
    ensures 0 <= x % Modulus(w) < Modulus(w) && ToSigned(x % Modulus(w), Modulus(w)) == x
  {
  }
}
