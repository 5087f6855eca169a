// The texts that the strto* functions read, written out: white space, a sign, the mark
// of a base, digits in either case, and whatever follows. Every text is of that form in
// exactly one way, and the results of the functions are said about its parts.
module NumberText {
  import opened CTypes
  import opened CStrings
  import opened Numerals
  import opened NumberParse
  import opened StrTo

  datatype Parts = Parts(spaces: string, sign: string, mark: string, digits: string, rest: string)

  function Whole(t: Parts): string {
    t.spaces + (t.sign + (t.mark + (t.digits + t.rest)))
  }

  /** The number of characters in front of the rest. */
  function Length(t: Parts): nat {
    |t.spaces| + |t.sign| + |t.mark| + |t.digits|
  }

  const WHITE := " \t\n\U{0B}\U{0C}\r"

  predicate AllWhite(s: string) {
    forall i :: 0 <= i < |s| ==> s[i] in WHITE
  }

  predicate Starts(s: string, chars: string) {
    s != "" && s[0] in chars
  }

  predicate HexMark(s: string) {
    s == "0x" || s == "0X"
  }

  predicate StartsHex(s: string) {
    |s| >= 2 && s[0] == '0' && s[1] in "xX"
  }

  /** The mark that selects the radix, in front of digits and rest. */
  predicate Marks(mark: string, after: string, base: nat, radix: nat) {
    if base == 0 then
      || (radix == 16 && HexMark(mark))
      || (radix == 8 && mark == "0" && !Starts(after, "xX"))
      || (radix == 10 && mark == "" && !Starts(after, "0"))
    else
      && radix == base
      && if mark == "" then base == 16 ==> !StartsHex(after) else base == 16 && HexMark(mark)
  }

  /** The parts of a text as `base` is to read it, with the digits in `radix`. */
  predicate Reads(t: Parts, base: nat, radix: nat) {
    && AllWhite(t.spaces)
    && t.sign in {"", "+", "-"}
    && (t.sign == "" ==> !Starts(t.mark + (t.digits + t.rest), WHITE + "+-"))
    && Marks(t.mark, t.digits + t.rest, base, radix)
    && AllDigits(t.digits, radix)
    && (t.rest != "" ==> DigitValue(t.rest[0]) >= radix)
  }

  lemma WhiteIsSpace(c: char)
    ensures IsSpace(c) <==> c in WHITE
  {
  }

  const LOWER := "0123456789abcdefghijklmnopqrstuvwxyz"
  const UPPER := "0123456789ABCDEFGHIJKLMNOPQRSTUVWXYZ"

  lemma DigitAt(d: nat)
    requires d < 36
    ensures LOWER[d] == if d < 10 then '0' + d as char else 'a' + (d - 10) as char
    ensures UPPER[d] == if d < 10 then '0' + d as char else 'A' + (d - 10) as char
  {
  }

  /** A digit is one of 36 characters, in either case. */
  lemma DigitIs(c: char, d: nat)
    requires d < 36
    ensures DigitValue(c) == d <==> c == LOWER[d] || c == UPPER[d]
  {
    hide LOWER, UPPER;
    DigitAt(d);
  }

  // ---------- the parts are what the parser finds ----------

  lemma {:induction false} SpacesFound(spaces: string, s: string)
    requires AllWhite(spaces) && !Starts(s, WHITE)
    ensures LeadingSpaces(spaces + s) == |spaces|
  {
    if spaces == "" {
      assert spaces + s == s;
      if s != "" { WhiteIsSpace(s[0]); }
    } else {
      WhiteIsSpace(spaces[0]);
      assert (spaces + s)[1..] == spaces[1..] + s;
      SpacesFound(spaces[1..], s);
    }
  }

  lemma SignFound(spaces: string, sign: string, s: string)
    requires AllWhite(spaces) && sign in {"", "+", "-"} && (sign == "" ==> !Starts(s, WHITE + "+-"))
    ensures var all := spaces + (sign + s);
            LeadingSpaces(all) == |spaces| && Sign(all) == sign && all[|spaces| + |sign|..] == s
  {
    hide LeadingSpaces;
    var all := spaces + (sign + s);
    assert sign == "" ==> sign + s == s;
    assert sign != "" ==> (sign + s)[0] == sign[0];
    SpacesFound(spaces, sign + s);
    assert |spaces| < |all| ==> all[|spaces|] == (sign + s)[0];
  }

  lemma MarkFound(mark: string, after: string, base: nat, radix: nat)
    requires Marks(mark, after, base, radix)
    ensures Prefix(mark + after, base) == (radix, mark)
  {
    var s := mark + after;
    assert |mark| <= 2 && s[..|mark|] == mark;
    assert mark == "" ==> s == after;
    assert mark == "0" ==> (|s| >= 2 ==> s[1] == after[0]);
    if |s| >= 2 {
      assert Take(s, 2) == [s[0], s[1]];
    }
    if |s| >= 1 {
      assert Take(s, 1) == [s[0]];
    }
  }

  lemma {:induction false} RunOfDigits(ds: string, rest: string, base: nat)
    requires AllDigits(ds, base) && (rest != "" ==> DigitValue(rest[0]) >= base)
    ensures DigitRun(ds + rest, base) == |ds|
  {
    if ds == "" {
      assert ds + rest == rest;
    } else {
      assert (ds + rest)[1..] == ds[1..] + rest;
      RunOfDigits(ds[1..], rest, base);
    }
  }

  lemma HeadFound(t: Parts, base: nat, radix: nat)
    requires Reads(t, base, radix)
    ensures ParseHead(Whole(t), base) == Head(t.sign == "-", radix, |t.spaces| + |t.sign| + |t.mark|)
  {
    hide LeadingSpaces, Sign, Prefix, Marks, AllWhite;
    SignFound(t.spaces, t.sign, t.mark + (t.digits + t.rest));
    MarkFound(t.mark, t.digits + t.rest, base, radix);
  }

  lemma Slices(t: Parts)
    ensures var s, start := Whole(t), |t.spaces| + |t.sign| + |t.mark|;
            && s[start..] == t.digits + t.rest
            && s[start..start + |t.digits|] == t.digits
            && s[start + |t.digits|..] == t.rest
            && |s| == Length(t) + |t.rest|
  {
  }

  /** However a text is written, its parts are the ones that are found. */
  lemma PartsFound(t: Parts, base: nat, radix: nat)
    requires Reads(t, base, radix)
    ensures ParseHead(Whole(t), base) == Head(t.sign == "-", radix, |t.spaces| + |t.sign| + |t.mark|)
    ensures Digits(Whole(t), base) == t.digits
  {
    hide ParseHead, DigitRun, Whole;
    HeadFound(t, base, radix);
    Slices(t);
    RunOfDigits(t.digits, t.rest, radix);
  }

  // ---------- every text has parts ----------

  lemma {:induction false} SpacesAreWhite(s: string)
    ensures AllWhite(s[..LeadingSpaces(s)]) && !Starts(s[LeadingSpaces(s)..], WHITE)
  {
    if s != "" {
      WhiteIsSpace(s[0]);
      SpacesAreWhite(s[1..]);
      if IsSpace(s[0]) {
        var n := LeadingSpaces(s[1..]);
        assert s[..n + 1] == [s[0]] + s[1..][..n];
        assert s[n + 1..] == s[1..][n..];
      }
    }
  }

  lemma MarkExists(s: string, base: nat)
    ensures var (radix, mark) := Prefix(s, base);
            && |mark| <= |s| && s[..|mark|] == mark
            && Marks(mark, s[|mark|..], base, radix)
  {
    var (radix, mark) := Prefix(s, base);
    if |s| >= 2 {
      assert Take(s, 2) == [s[0], s[1]];
    }
    if |s| >= 1 {
      assert Take(s, 1) == [s[0]];
    }
  }

  lemma SignExists(s: string) returns (spaces: string, sign: string, body: string)
    ensures s == spaces + (sign + body)
    ensures AllWhite(spaces) && sign in {"", "+", "-"} && (sign == "" ==> !Starts(body, WHITE + "+-"))
    ensures spaces == s[..LeadingSpaces(s)] && sign == Sign(s)
  {
    hide LeadingSpaces, AllWhite;
    SpacesAreWhite(s);
    var n := LeadingSpaces(s);
    spaces, sign, body := s[..n], Sign(s), s[n + |Sign(s)|..];
    assert n < |s| ==> s[n..][0] == s[n];
    assert s[n..] == sign + body;
  }

  /** Every text has parts, for every base. */
  lemma EveryText(s: string, base: nat) returns (t: Parts, radix: nat)
    ensures Whole(t) == s && Reads(t, base, radix)
  {
    hide LeadingSpaces, Prefix, DigitRun, Marks, AllWhite, Sign, WHITE, Starts;
    var spaces, sign, body := SignExists(s);
    MarkExists(body, base);
    radix := Prefix(body, base).0;
    var mark := Prefix(body, base).1;
    var tail := body[|mark|..];
    RunIsLongest(tail, radix);
    var k := DigitRun(tail, radix);
    t := Parts(spaces, sign, mark, tail[..k], tail[k..]);
    assert t.digits + t.rest == tail;
    assert t.mark + tail == body;
  }

  // ---------- what the functions return ----------

  /** The number that the sign and the digits denote. */
  function Number(t: Parts, radix: nat): int {
    if t.sign == "-" then 0 - Value(t.digits, radix) else Value(t.digits, radix)
  }

  lemma NumberFound(t: Parts, base: nat, radix: nat)
    requires Reads(t, base, radix)
    ensures Magnitude(Whole(t), base) == Value(t.digits, radix)
    ensures TrueValue(Whole(t), base) == Number(t, radix)
    ensures ParseHead(Whole(t), base).negative == (t.sign == "-")
    ensures forall lower: int, upper: nat :: -TWO64 < lower <= 0 && base <= 36 ==>
              StrToX(Whole(t), base, lower, upper).end == Length(t)
  {
    hide ParseHead, DigitRun, Whole, Value, Accumulate;
    PartsFound(t, base, radix);
    Slices(t);
    RunOfDigits(t.digits, t.rest, radix);
  }

  /**
   * strtol and strtoll: the number clamped to the word, the end behind the digits, and ERANGE exactly when it was
   * clamped. For a 64-bit word the digits must denote less than 2^64.
   */
  lemma StrToLReads(w: Width, t: Parts, base: nat, radix: nat)
    requires Reads(t, base, radix) && base <= 36 && (w.W32? || Value(t.digits, radix) < TWO64)
    ensures var x, half := Number(t, radix), Modulus(w) / 2;
            StrToL(w, Whole(t), base)
            == (if x < -half then -half else if x >= half then half - 1 else x,
                Length(t),
                if -half <= x < half then NoError else ERANGE)
  {
    hide StrToX, TrueValue, Magnitude, Whole, Reads, Number, Value, ParseHead;
    NumberFound(t, base, radix);
    if w.W32? {
      LongSaturates(Whole(t), base);
    } else {
      LongLongSaturates(Whole(t), base);
    }
  }

  /** strtoul and strtoull: likewise, and a minus negates the saturated magnitude in the word. */
  lemma StrToULReads(w: Width, t: Parts, base: nat, radix: nat)
    requires Reads(t, base, radix) && base <= 36 && (w.W32? || Value(t.digits, radix) < TWO64)
    ensures var v, m := Value(t.digits, radix), Modulus(w);
            var held := if v < m then v else m - 1;
            StrToUL(w, Whole(t), base)
            == (if t.sign == "-" && held > 0 then m - held else held, Length(t), if v < m then NoError else ERANGE)
  {
    hide StrToX, TrueValue, Magnitude, Whole, Reads, Value, ParseHead;
    NumberFound(t, base, radix);
    if w.W32? {
      UnsignedLongSaturates(Whole(t), base);
    } else {
      UnsignedLongLongInRange(Whole(t), base);
      NegatedIsMinus(Value(t.digits, radix));
    }
  }

  /** A base outside 0 to 36 reads nothing. */
  lemma InvalidBase(w: Width, s: string, base: int)
    ensures base < 0 || base > 36 <==> StrToL(w, s, base).2 == EINVAL
    ensures base < 0 || base > 36 <==> StrToUL(w, s, base).2 == EINVAL
    ensures base < 0 || base > 36 ==> StrToL(w, s, base) == (0, 0, EINVAL) && StrToUL(w, s, base) == (0, 0, EINVAL)
  {
  }
}
