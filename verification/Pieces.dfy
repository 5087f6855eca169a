// What printf promises, said without its machine: a format is put together from
// literal text, percent signs and fields, and prints their texts one after the
// other, every field right-aligned in its width, every argument used once, in order.
module Pieces {
  import opened CTypes
  import opened Numerals
  import opened NumberParse
  import opened Format
  import opened CStrings
  import opened Delivery
  import opened Bounded
  import opened Printf

  /** The size of a number's argument; intmax_t is as long as a long long. */
  datatype Length = Int | Long | LongLong

  /** What a field prints. A character's argument is a whole word, of which the low byte counts. */
  datatype Content =
    | Decimal(x: int)
    | Unsigned(v: nat)
    | Hex(v: nat)
    | Pointer(v: nat)
    | Character(c: char, high: nat)
    | Text(s: CString)
    | NoText
    | Errno

  /** The parts of a format. Flags are all that stands between the percent sign and the width. */
  datatype Piece =
    | Literal(s: string)
    | Percent(flags: string, digits: string)
    | Field(flags: string, digits: string, length: Length, content: Content)

  // ---------- what is legal ----------

  const LETTERS := "cduxpsm"

  /** No conversion letter and no percent sign. */
  predicate NoConversion(s: string) {
    forall i :: 0 <= i < |s| ==> s[i] !in LETTERS && s[i] != '%' && s[i] != NUL
  }

  /** Flags end where the width begins, and there is no conversion in them. */
  predicate FlagChars(flags: string) {
    && NoConversion(flags)
    && (flags != "" ==> !('0' <= flags[|flags| - 1] <= '9'))
  }

  function BehindJ(flags: string): string {
    if 'j' !in flags then flags else BehindJ(flags[1..])
  }

  /** A `j` among the flags counts for two `l`, and for what is in front of it; the count is kept in a char. */
  predicate Means(flags: string, length: Length) {
    var l := ((if 'j' in flags then 2 else 0) + multiset(BehindJ(flags))['l']) % 256;
    match length
    case Int => l == 0
    case Long => l == 1
    case LongLong => l >= 2
  }

  predicate DecimalDigits(digits: string) {
    forall i :: 0 <= i < |digits| ==> '0' <= digits[i] <= '9'
  }

  function BitsModulus(length: Length, w: Width): nat {
    match length
    case Int => TWO32
    case Long => if w.W32? then TWO32 else TWO64
    case LongLong => TWO64
  }

  predicate Holds(content: Content, length: Length, w: Width) {
    var m: int := BitsModulus(length, w);
    match content
    case Decimal(x) => -(m / 2) <= x < m / 2
    case Unsigned(v) => v < m
    case Hex(v) => v < m
    case Pointer(v) => v < BitsModulus(Long, w)
    case Character(c, high) => c as int < 256 && 256 * high + c as int < m
    case _ => true
  }

  predicate Legal(q: Piece, w: Width) {
    match q
    case Literal(s) => '%' !in s && NUL !in s
    case Percent(flags, digits) => FlagChars(flags) && DecimalDigits(digits)
    case Field(flags, digits, length, content) =>
      FlagChars(flags) && DecimalDigits(digits) && Means(flags, length) && Holds(content, length, w)
  }

  /** A format may end inside a field, which then prints nothing. */
  predicate Unfinished(tail: string) {
    tail == "" || (tail[0] == '%' && NoConversion(tail[1..]))
  }

  // ---------- the format, its arguments, and what they print ----------

  function Letter(content: Content): char {
    match content
    case Decimal(_) => 'd'
    case Unsigned(_) => 'u'
    case Hex(_) => 'x'
    case Pointer(_) => 'p'
    case Character(_, _) => 'c'
    case Text(_) => 's'
    case NoText => 's'
    case Errno => 'm'
  }

  function PieceFormat(q: Piece): string {
    match q
    case Literal(s) => s
    case Percent(flags, digits) => "%" + flags + digits + "%"
    case Field(flags, digits, _, content) => "%" + flags + digits + [Letter(content)]
  }

  function PieceArgs(q: Piece, w: Width): seq<Arg>
    requires Legal(q, w)
  {
    if !q.Field? then []
    else
      match q.content
      case Decimal(x) => [Num(if x < 0 then x + BitsModulus(q.length, w) else x)]
      case Unsigned(v) => [Num(v)]
      case Hex(v) => [Num(v)]
      case Pointer(v) => [Num(v)]
      case Character(c, high) => [Num(256 * high + c as int)]
      case Text(s) => [Str(s)]
      case NoText => [NullStr]
      case Errno => []
  }

  function ContentText(content: Content, errno: int): string {
    match content
    case Decimal(x) => SignedDecimal(x)
    case Unsigned(v) => Numeral(v, 10)
    case Hex(v) => Numeral(v, 16)
    case Pointer(v) => "0x" + Numeral(v, 16)
    case Character(c, _) => if c == NUL then "" else [c]
    case Text(s) => s
    case NoText => "(null)"
    case Errno => "errno=" + SignedDecimal(errno)
  }

  /** The text at the right end of `width` columns, or of as many as it needs. */
  function RightAligned(width: nat, text: string): (s: string)
    ensures |s| == if width > |text| then width else |text|
    ensures s[|s| - |text|..] == text
    ensures forall i :: 0 <= i < |s| - |text| ==> s[i] == ' '
  {
    if width > |text| then seq(width - |text|, _ => ' ') + text else text
  }

  function PieceText(q: Piece, errno: int): string {
    match q
    case Literal(s) => s
    case Percent(_, digits) => digits + "%"
    case Field(_, digits, _, content) => RightAligned(Value(digits, 10) % TWO32, ContentText(content, errno))
  }

  predicate AllLegal(qs: seq<Piece>, w: Width) {
    forall q <- qs :: Legal(q, w)
  }

  function FormatOf(qs: seq<Piece>): string {
    if qs == [] then "" else PieceFormat(qs[0]) + FormatOf(qs[1..])
  }

  function ArgsOf(qs: seq<Piece>, w: Width): seq<Arg>
    requires AllLegal(qs, w)
  {
    if qs == [] then [] else PieceArgs(qs[0], w) + ArgsOf(qs[1..], w)
  }

  function Printed(qs: seq<Piece>, errno: int): string {
    if qs == [] then "" else PieceText(qs[0], errno) + Printed(qs[1..], errno)
  }

  // ---------- reading a specification ----------

  lemma {:induction false} RunThrough(digits: string, f: string)
    requires DecimalDigits(digits) && (f == "" || DigitValue(f[0]) >= 10)
    ensures DigitRun(digits + f, 10) == |digits|
  {
    if digits == "" {
      assert digits + f == f;
    } else {
      assert (digits + f)[1..] == digits[1..] + f;
      RunThrough(digits[1..], f);
    }
  }

  /** Digits, and then a character that is none. */
  lemma SpecAt(digits: string, c: char, f: string, lpref: nat, args: seq<Arg>, p: Platform)
    requires DecimalDigits(digits) && DigitValue(c) >= 10
    ensures RenderSpec(digits + [c] + f, lpref, args, p) ==
            if IsField(c) then Padded(WidthOf(digits), FieldText(c, lpref, args, p)) + Render(f, ArgsAfter(c, args), p)
            else if c == '%' then digits + "%" + Render(f, args, p)
            else RenderSpec(f, Modified(lpref, c), args, p)
    ensures MatchesSpec(digits + [c] + f, lpref, args, p) ==
            if IsField(c) then Suits(c, lpref, args, p) && Matches(f, ArgsAfter(c, args), p)
            else if c == '%' then Matches(f, args, p)
            else MatchesSpec(f, Modified(lpref, c), args, p)
    ensures WidthFreeSpec(digits + [c] + f) ==
            if IsField(c) then digits == "" && WidthFree(f) else if c == '%' then WidthFree(f) else WidthFreeSpec(f)
  {
    hide FieldText, Suits, Padded, WidthOf, DigitRun;
    var g := digits + [c] + f;
    assert g == digits + ([c] + f);
    RunThrough(digits, [c] + f);
    var k := |digits|;
    assert g[k] == c && g[k + 1..] == f && g[..k] == digits && g[..k + 1] == digits + [c];
    assert k == 0 ==> g[1..] == f;
  }

  function AfterFlags(flags: string, lpref: nat): nat {
    if flags == "" then lpref else AfterFlags(flags[1..], Modified(lpref, flags[0]))
  }

  lemma {:induction false} DigitsChangeNothing(digits: string, t: string, lpref: nat)
    requires DecimalDigits(digits)
    ensures AfterFlags(digits + t, lpref) == AfterFlags(t, lpref)
  {
    if digits == "" {
      assert digits + t == t;
    } else {
      assert (digits + t)[1..] == digits[1..] + t;
      DigitsChangeNothing(digits[1..], t, lpref);
    }
  }

  /** Flags leave nothing behind but the length prefix. */
  lemma {:induction false} FlagsRead(flags: string, g: string, lpref: nat, args: seq<Arg>, p: Platform)
    requires FlagChars(flags)
    ensures RenderSpec(flags + g, lpref, args, p) == RenderSpec(g, AfterFlags(flags, lpref), args, p)
    ensures MatchesSpec(flags + g, lpref, args, p) == MatchesSpec(g, AfterFlags(flags, lpref), args, p)
    ensures WidthFreeSpec(flags + g) == WidthFreeSpec(g)
    decreases |flags|
  {
    hide RenderSpec, MatchesSpec, WidthFreeSpec, Modified;
    if flags == "" {
      assert flags + g == g;
    } else {
      var k := FirstNonDigit(flags);
      var digits, c, more := flags[..k], flags[k], flags[k + 1..];
      assert flags == digits + ([c] + more) && flags + g == digits + [c] + (more + g);
      SpecAt(digits, c, more + g, lpref, args, p);
      FlagsRead(more, g, Modified(lpref, c), args, p);
      DigitsChangeNothing(digits, [c] + more, lpref);
      assert ([c] + more)[1..] == more;
    }
  }

  lemma {:induction false} FirstNonDigit(flags: string) returns (k: nat)
    requires flags != "" && !('0' <= flags[|flags| - 1] <= '9')
    ensures k < |flags| && DecimalDigits(flags[..k]) && DigitValue(flags[k]) >= 10
  {
    if '0' <= flags[0] <= '9' {
      k := FirstNonDigit(flags[1..]);
      assert flags[..k + 1] == [flags[0]] + flags[1..][..k];
      k := k + 1;
    } else {
      k := 0;
    }
  }

  lemma {:induction false} CountedLength(flags: string, lpref: nat)
    requires lpref < 256
    ensures AfterFlags(flags, lpref)
            == ((if 'j' in flags then 2 else lpref) + multiset(BehindJ(flags))['l']) % 256
  {
    if flags != "" {
      var c, rest := flags[0], flags[1..];
      assert flags == [c] + rest;
      CountedLength(rest, Modified(lpref, c));
      if 'j' in flags {
        assert BehindJ(flags) == BehindJ(rest);
      } else if c == 'l' {
        OneMore(lpref, multiset(rest)['l']);
      }
    }
  }

  lemma OneMore(lpref: nat, l: nat)
    ensures ((lpref + 1) % 256 + l) % 256 == (lpref + (1 + l)) % 256
  {
  }

  // ---------- one piece ----------

  lemma LengthIsWord(flags: string, length: Length, c: char, w: Width)
    requires Means(flags, length)
    ensures WordOf(c, AfterFlags(flags, 0), w) == if c == 'p' then BitsModulus(Long, w) else BitsModulus(length, w)
  {
    CountedLength(flags, 0);
  }

  lemma PaddedIsAligned(width: nat, text: string)
    ensures Padded(width, text) == RightAligned(width, text)
  {
  }

  /** A field takes its own argument, and leaves the others. */
  lemma FieldTakes(q: Piece, args: seq<Arg>, p: Platform)
    requires q.Field? && Legal(q, p.w)
    ensures var c, lpref, all := Letter(q.content), AfterFlags(q.flags, 0), PieceArgs(q, p.w) + args;
            && IsField(c) && DigitValue(c) >= 10
            && Suits(c, lpref, all, p)
            && FieldText(c, lpref, all, p) == ContentText(q.content, p.errno)
            && ArgsAfter(c, all) == args
  {
    hide AfterFlags, Numeral, SignedDecimal, Means, FlagChars;
    LengthIsWord(q.flags, q.length, Letter(q.content), p.w);
    var all := PieceArgs(q, p.w) + args;
    if q.content.Errno? {
      assert all == args;
    } else {
      assert all[1..] == args;
    }
  }

  lemma SpecificationRead(flags: string, digits: string, c: char, f: string, args: seq<Arg>, p: Platform)
    requires FlagChars(flags) && DecimalDigits(digits) && DigitValue(c) >= 10
    ensures var spec, lpref := "%" + flags + digits + [c], AfterFlags(flags, 0);
            && Render(spec + f, args, p) == RenderSpec(digits + [c] + f, lpref, args, p)
            && Matches(spec + f, args, p) == MatchesSpec(digits + [c] + f, lpref, args, p)
            && WidthFree(spec + f) == WidthFreeSpec(digits + [c] + f)
  {
    hide RenderSpec, MatchesSpec, WidthFreeSpec;
    var all := "%" + flags + digits + [c] + f;
    assert all[1..] == flags + (digits + [c] + f);
    FlagsRead(flags, digits + [c] + f, 0, args, p);
  }

  lemma {:induction false} LiteralRead(s: string, f: string, args: seq<Arg>, p: Platform)
    requires '%' !in s
    ensures Render(s + f, args, p) == s + Render(f, args, p)
    ensures Matches(s + f, args, p) == Matches(f, args, p)
    ensures WidthFree(s + f) == WidthFree(f)
  {
    hide RenderSpec, MatchesSpec, WidthFreeSpec;
    if s == "" {
      assert s + f == f;
    } else {
      assert (s + f)[1..] == s[1..] + f && (s + f)[0] == s[0];
      LiteralRead(s[1..], f, args, p);
    }
  }

  lemma PieceRead(q: Piece, f: string, args: seq<Arg>, p: Platform)
    requires Legal(q, p.w)
    ensures Render(PieceFormat(q) + f, PieceArgs(q, p.w) + args, p) == PieceText(q, p.errno) + Render(f, args, p)
    ensures Matches(PieceFormat(q) + f, PieceArgs(q, p.w) + args, p) == Matches(f, args, p)
    ensures WidthFree(PieceFormat(q) + f) == (WidthFree(f) && (q.Field? ==> q.digits == ""))
  {
    hide Render, RenderSpec, Matches, MatchesSpec, WidthFree, WidthFreeSpec, AfterFlags, ContentText, FieldText, Suits,
      ArgsAfter, RightAligned, Padded, FlagChars, DecimalDigits, Means, Holds;
    var all := PieceArgs(q, p.w) + args;
    match q
    case Literal(s) =>
      assert all == args;
      LiteralRead(s, f, args, p);
    case Percent(flags, digits) =>
      assert all == args;
      SpecificationRead(flags, digits, '%', f, args, p);
      SpecAt(digits, '%', f, AfterFlags(flags, 0), args, p);
    case Field(flags, digits, _, content) =>
      FieldTakes(q, args, p);
      SpecificationRead(flags, digits, Letter(content), f, all, p);
      SpecAt(digits, Letter(content), f, AfterFlags(flags, 0), all, p);
      PaddedIsAligned(WidthOf(digits), ContentText(content, p.errno));
  }

  // ---------- a whole format ----------

  lemma {:induction false} UnfinishedSpec(t: string, lpref: nat, args: seq<Arg>, p: Platform)
    requires NoConversion(t)
    ensures RenderSpec(t, lpref, args, p) == "" && MatchesSpec(t, lpref, args, p) && WidthFreeSpec(t)
    decreases |t|
  {
    var k := DigitRun(t, 10);
    if k < |t| {
      UnfinishedSpec(t[k + 1..], Modified(lpref, t[k]), args, p);
    }
  }

  /**
   * printf prints the texts of the pieces in order, each argument used by its own field; arguments beyond them
   * are not looked at. Only a field with digits keeps a format from being free of widths.
   */
  lemma {:induction false} PrintsPieces(qs: seq<Piece>, tail: string, more: seq<Arg>, p: Platform)
    requires AllLegal(qs, p.w) && Unfinished(tail)
    ensures Render(FormatOf(qs) + tail, ArgsOf(qs, p.w) + more, p) == Printed(qs, p.errno)
    ensures Matches(FormatOf(qs) + tail, ArgsOf(qs, p.w) + more, p)
    ensures WidthFree(FormatOf(qs) + tail) <==> forall q <- qs :: q.Field? ==> q.digits == ""
  {
    hide Render, Matches, WidthFree, PieceFormat, PieceText, PieceArgs, Legal;
    if qs == [] {
      assert FormatOf(qs) + tail == tail;
      TailPrintsNothing(tail, ArgsOf(qs, p.w) + more, p);
    } else {
      assert qs[0] in qs && qs == [qs[0]] + qs[1..];
      PrintsPieces(qs[1..], tail, more, p);
      var f, args := FormatOf(qs[1..]) + tail, ArgsOf(qs[1..], p.w) + more;
      assert FormatOf(qs) + tail == PieceFormat(qs[0]) + f;
      assert ArgsOf(qs, p.w) + more == PieceArgs(qs[0], p.w) + args;
      PieceRead(qs[0], f, args, p);
    }
  }

  lemma TailPrintsNothing(tail: string, args: seq<Arg>, p: Platform)
    requires Unfinished(tail)
    ensures Render(tail, args, p) == "" && Matches(tail, args, p) && WidthFree(tail)
  {
    if tail != "" {
      UnfinishedSpec(tail[1..], 0, args, p);
    }
  }

  lemma NumeralIsWidth(k: nat, flags: string, length: Length, content: Content, errno: int, w: Width)
    requires k < TWO32 && FlagChars(flags) && Means(flags, length) && Holds(content, length, w)
    ensures var q := Piece.Field(flags, Numeral(k, 10), length, content);
            && Legal(q, w)
            && PieceText(q, errno) == RightAligned(k, ContentText(content, errno))
  {
    hide ContentText, Numeral, FlagChars, Means, Holds, Value, RightAligned, DecimalDigits, AllDigits;
    NumeralValue(k, 10);
    AreDecimalDigits(Numeral(k, 10));
    assert k % TWO32 == k;
  }

  lemma NothingBehind(s: string, args: seq<Arg>)
    ensures s + "" == s && args + [] == args
  {
  }

  /** The width is the decimal number before the letter: the field is that wide, or as wide as its text. */
  lemma PrintsInColumns(k: nat, flags: string, length: Length, content: Content, p: Platform)
    requires k < TWO32 && FlagChars(flags) && Means(flags, length) && Holds(content, length, p.w)
    ensures var q := Piece.Field(flags, Numeral(k, 10), length, content);
            && Legal(q, p.w) && PieceFormat(q) == "%" + flags + Numeral(k, 10) + [Letter(content)]
            && Render(PieceFormat(q), PieceArgs(q, p.w), p) == RightAligned(k, ContentText(content, p.errno))
  {
    hide Render, Matches, WidthFree, ContentText, Numeral, FlagChars, Means, Holds, Value, PieceArgs, RightAligned,
      PieceText, Legal;
    var q := Piece.Field(flags, Numeral(k, 10), length, content);
    NumeralIsWidth(k, flags, length, content, p.errno, p.w);
    PieceRead(q, "", [], p);
    TailPrintsNothing("", [], p);
    NothingBehind(PieceFormat(q), PieceArgs(q, p.w));
    NothingBehind(RightAligned(k, ContentText(content, p.errno)), []);
  }

  lemma AreDecimalDigits(s: string)
    requires AllDigits(s, 10)
    ensures DecimalDigits(s)
  {
  }

  lemma PieceHasNoNul(q: Piece, w: Width)
    requires Legal(q, w)
    ensures NUL !in PieceFormat(q)
  {
  }

  lemma {:induction false} FormatHasNoNul(qs: seq<Piece>, w: Width)
    requires AllLegal(qs, w)
    ensures NUL !in FormatOf(qs)
  {
    hide Legal, PieceFormat;
    if qs != [] {
      PieceHasNoNul(qs[0], w);
      FormatHasNoNul(qs[1..], w);
    }
  }

  /** snprintf with room: the texts of the pieces are stored with a NUL behind them, and their length comes back. */
  method PrintPieces(qs: seq<Piece>, tail: string, more: seq<Arg>, buf: array<char>, size: nat, p: Platform)
    returns (ret: int)
    requires AllLegal(qs, p.w) && Unfinished(tail) && -(TWO32 / 2) <= p.errno < TWO32 / 2
    requires var n := |Printed(qs, p.errno)|; n < size && n < buf.Length && n < TWO32 / 2
    modifies buf
    ensures ret == |Printed(qs, p.errno)|
    ensures buf[..] == Stored(old(buf[..]), 0, Printed(qs, p.errno) + [NUL])
  {
    hide Printed, FormatOf, ArgsOf, AllLegal, Render, Matches, Chunks, Emit, Count, Clean, Take;
    FormatHasNoNul(qs, p.w);
    PrintsPieces(qs, tail, more, p);
    var fmt: CString, args := FormatOf(qs) + tail, ArgsOf(qs, p.w) + more;
    WholeTextFits(buf[..], size, fmt, args, p);
    ret := VSNPrintf(buf, size, fmt, args, p);
  }
}
