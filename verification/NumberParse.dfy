// stdlib.h: text to numbers. `__strtox` is the common core of the strto* family;
// `atol` is the older wrapping parser.
module NumberParse {
  import opened CTypes
  import opened CStrings
  import opened Numerals

  datatype Errno = NoError | EINVAL | ERANGE

  /** A word of modulus 2^64, how far the parser read, and what it left in errno. */
  datatype Parsed = Parsed(value: nat, end: nat, errno: Errno)

  // ---------- the reference ----------

  function LeadingSpaces(s: string): (n: nat)
    ensures n <= |s|
  {
    if s != "" && IsSpace(s[0]) then 1 + LeadingSpaces(s[1..]) else 0
  }

  function DigitRun(s: string, base: nat): (n: nat)
    ensures n <= |s|
  {
    if s != "" && DigitValue(s[0]) < base then 1 + DigitRun(s[1..], base) else 0
  }

  /** What stands before the digits: the sign, the effective base, and where the digits start. */
  datatype Head = Head(negative: bool, base: nat, start: nat)

  function Sign(s: string): string {
    var sp := LeadingSpaces(s);
    if At(s, sp) == '+' || At(s, sp) == '-' then [s[sp]] else ""
  }

  function Prefix(s: string, base: nat): (nat, string) {
    if (base == 0 || base == 16) && (Take(s, 2) == "0x" || Take(s, 2) == "0X") then (16, Take(s, 2))
    else if base == 0 && Take(s, 1) == "0" then (8, "0")
    else if base == 0 then (10, "")
    else (base, "")
  }

  function ParseHead(s: string, base: nat): (h: Head)
    ensures h.start <= |s|
  {
    var i := LeadingSpaces(s) + |Sign(s)|;
    var p := Prefix(s[i..], base);
    Head(Sign(s) == "-", p.0, i + |p.1|)
  }

  /** The running value and the sticky overflow flag. */
  datatype Acc = Acc(val: nat, overflow: bool)

  function Push(a: Acc, c: char, base: nat, limit: nat): Acc {
    var val := (a.val * base % TWO64 + DigitValue(c)) % TWO64;
    Acc(val, a.overflow || val > limit || val < a.val)
  }

  function Accumulate(ds: string, base: nat, limit: nat): Acc {
    if ds == "" then Acc(0, false)
    else Push(Accumulate(ds[..|ds| - 1], base, limit), ds[|ds| - 1], base, limit)
  }

  function Limit(negative: bool, lower: int, upper: nat): nat
    requires -TWO64 < lower <= 0
  {
    if lower != 0 && negative then -lower else upper
  }

  function StrToX(s: string, base: int, lower: int, upper: nat): Parsed
    requires -TWO64 < lower <= 0
  {
    if base < 0 || base > 36 then Parsed(0, 0, EINVAL)
    else
      var h := ParseHead(s, base);
      var n := DigitRun(s[h.start..], h.base);
      var limit := Limit(h.negative, lower, upper);
      var a := Accumulate(s[h.start..h.start + n], h.base, limit);
      var v := if a.overflow then limit else a.val;
      Parsed(if h.negative then Negated(v, TWO64) else v, h.start + n, if a.overflow then ERANGE else NoError)
  }

  // ---------- the parser ----------

  lemma SpacesNext(s: string, i: nat)
    requires i < |s| && IsSpace(s[i])
    ensures LeadingSpaces(s[i..]) == 1 + LeadingSpaces(s[i + 1..])
  {
    assert s[i..][1..] == s[i + 1..];
  }

  lemma RunNext(s: string, i: nat, base: nat)
    requires i < |s| && DigitValue(s[i]) < base
    ensures DigitRun(s[i..], base) == 1 + DigitRun(s[i + 1..], base)
  {
    assert s[i..][1..] == s[i + 1..];
  }

  lemma RunStops(s: string, i: nat, base: nat)
    requires i <= |s| && (i < |s| ==> DigitValue(s[i]) >= base)
    ensures DigitRun(s[i..], base) == 0
  {
  }

  lemma AccumulateNothing(base: nat, limit: nat)
    ensures Accumulate("", base, limit) == Acc(0, false)
  {
  }

  lemma AccumulateNext(s: string, start: nat, i: nat, base: nat, limit: nat)
    requires start <= i < |s|
    ensures Accumulate(s[start..i + 1], base, limit) == Push(Accumulate(s[start..i], base, limit), s[i], base, limit)
  {
    assert s[start..i + 1][..i - start] == s[start..i];
  }

  method SkipSpaces(s: CString) returns (i: nat)
    ensures i == LeadingSpaces(s)
  {
    i := 0;
    while IsSpace(At(s, i))
      invariant i <= |s| && i + LeadingSpaces(s[i..]) == LeadingSpaces(s)
      decreases |s| - i
    {
      SpacesNext(s, i);
      i := i + 1;
    }
  }

  /** The tests of __strtox for a prefix: the effective base, and how many characters it takes. */
  method PrefixBody(s: CString, base: nat) returns (b: nat, skip: nat)
    ensures b == Prefix(s, base).0 && skip == |Prefix(s, base).1|
  {
    b, skip := base, 0;
    var lowerX := StrNCmp(s, "0x", 2);
    var upperX := StrNCmp(s, "0X", 2);
    var zero := StrNCmp(s, "0", 1);
    if (b == 0 || b == 16) && (lowerX == 0 || upperX == 0) {
      b, skip := 16, 2;
    } else if b == 0 && zero == 0 {
      b, skip := 8, 1;
    } else if b == 0 {
      b := 10;
    }
  }

  /** The part of __strtox before the digits. */
  method HeadBody(s: CString, base: nat) returns (neg: bool, b: nat, i: nat)
    ensures Head(neg, b, i) == ParseHead(s, base)
  {
    hide LeadingSpaces, Prefix;
    neg := false;
    i := SkipSpaces(s);
    AtEnd(s, i);
    if At(s, i) == '+' {
      i := i + 1;
    } else if At(s, i) == '-' {
      neg := true;
      i := i + 1;
    }
    assert i == LeadingSpaces(s) + |Sign(s)| && neg == (Sign(s) == "-");
    var skip;
    b, skip := PrefixBody(s[i..], base);
    i := i + skip;
  }

  /** __strtox, with the end pointer and errno as results. */
  method StrToXBody(s: CString, base: int, lower: int, upper: nat) returns (r: Parsed)
    requires -TWO64 < lower <= 0
    ensures r == StrToX(s, base, lower, upper)
  {
    hide DigitRun, Accumulate, ParseHead;
    if base < 0 || base > 36 {
      return Parsed(0, 0, EINVAL);
    }
    var neg, b, start := HeadBody(s, base);
    var limit := if lower != 0 && neg then Negated(lower % TWO64, TWO64) else upper;
    EffectiveBase(s, base);
    var val, overflow, i := DigitLoop(s, start, b, limit);
    if overflow {
      val := limit;
    }
    r := Parsed(if neg then Negated(val, TWO64) else val, i, if overflow then ERANGE else NoError);
  }

  lemma EffectiveBase(s: string, base: nat)
    requires base <= 36
    ensures ParseHead(s, base).base <= 36
    ensures base != 0 ==> ParseHead(s, base).base == base
    ensures base == 0 ==> ParseHead(s, base).base in {8, 10, 16}
  {
  }

  /** The digit loop of __strtox, from index `start`. */
  method DigitLoop(s: CString, start: nat, base: nat, limit: nat) returns (val: nat, overflow: bool, i: nat)
    requires start <= |s| && base <= 36
    ensures i == start + DigitRun(s[start..], base)
    ensures Acc(val, overflow) == Accumulate(s[start..i], base, limit)
  {
    hide Accumulate, DigitRun;
    AccumulateNothing(base, limit);
    assert s[start..start] == "";
    i, val, overflow := start, 0, false;
    while At(s, i) != NUL
      invariant start <= i <= |s|
      invariant i + DigitRun(s[i..], base) == start + DigitRun(s[start..], base)
      invariant Acc(val, overflow) == Accumulate(s[start..i], base, limit)
      decreases |s| - i
    {
      var c := DigitValue(At(s, i));
      if c == NOT_A_DIGIT || c >= base {
        break;
      }
      RunNext(s, i, base);
      AccumulateNext(s, start, i, base, limit);
      i := i + 1;
      var old_val := val;
      val := val * base % TWO64;
      val := (val + c) % TWO64;
      if val > limit || val < old_val {
        overflow := true;
      }
    }
    AtEnd(s, i);
    RunStops(s, i, base);
  }
}
