// What scanf promises, said without its loop: a text written to match a format, part by
// part, is consumed part by part, and every number is stored; and how a scan ends.
module ScanText {
  import opened CTypes
  import opened Numerals
  import opened NumberParse
  import opened NumberText
  import opened StrTo
  import opened Scanf

  /** A part of the format with the text that it meets. A number's own `rest` plays no role. */
  datatype Part =
    | Blank(format: string, text: string)
    | Literal(c: char)
    | Percent(l: nat)
    | Number(l: nat, kind: char, number: Parts)

  function Longs(l: nat): string {
    if l == 0 then "" else if l == 1 then "l" else "ll"
  }

  function PartFormat(q: Part): string {
    match q
    case Blank(format, _) => format
    case Literal(c) => [c]
    case Percent(l) => "%" + (Longs(l) + "%")
    case Number(l, kind, _) => "%" + (Longs(l) + [kind])
  }

  function PartText(q: Part): string {
    match q
    case Blank(_, text) => text
    case Literal(c) => [c]
    case Percent(_) => "%"
    case Number(_, _, number) => Whole(number.(rest := ""))
  }

  function FormatOf(qs: seq<Part>): string {
    if qs == [] then "" else PartFormat(qs[0]) + FormatOf(qs[1..])
  }

  function TextOf(qs: seq<Part>): string {
    if qs == [] then "" else PartText(qs[0]) + TextOf(qs[1..])
  }

  function Radix(kind: char): nat {
    if kind == 'd' || kind == 'u' then 10 else 16
  }

  function LongModulus(w: Width): nat {
    if w.W32? then TWO32 else TWO64
  }

  /**
   * The part fits in front of the text `s` and the format `f`: white space ends there on both sides, and a
   * number has its own parts there, with a magnitude below 2^64.
   */
  predicate Fits(q: Part, s: string, f: string, w: Width) {
    match q
    case Blank(format, text) =>
      format != "" && AllWhite(format) && AllWhite(text) && !Starts(s, WHITE) && !Starts(f, WHITE)
    case Literal(c) => c != NUL && c != '%' && c !in WHITE
    case Percent(l) => l <= 2
    case Number(l, kind, number) =>
      && l <= 2 && kind in "duxXp"
      && Reads(number.(rest := s), Radix(kind), Radix(kind))
      && Value(number.digits, Radix(kind)) < if kind == 'p' then LongModulus(w) else TWO64
  }

  predicate AllFit(qs: seq<Part>, s: string, f: string, w: Width) {
    qs == [] || (Fits(qs[0], TextOf(qs[1..]) + s, FormatOf(qs[1..]) + f, w) && AllFit(qs[1..], s, f, w))
  }

  /** What a number leaves in the variable of its conversion: %d clamps to a long long before it cuts. */
  function Kept(q: Part, w: Width): Store
    requires q.Number?
  {
    var x := NumberText.Number(q.number, Radix(q.kind));
    var m := if q.l == 1 || q.kind == 'p' then LongModulus(w) else if q.l == 0 then TWO32 else TWO64;
    if q.kind == 'd' then
      Store(m, (if x < -(TWO64 / 2) then -(TWO64 / 2) else if x >= TWO64 / 2 then TWO64 / 2 - 1 else x) % m)
    else Store(m, x % m)
  }

  function Stores(q: Part, w: Width): seq<Store> {
    if q.Number? then [Kept(q, w)] else []
  }

  function StoresOf(qs: seq<Part>, w: Width): seq<Store> {
    if qs == [] then [] else Stores(qs[0], w) + StoresOf(qs[1..], w)
  }

  // ---------- one part ----------

  /** A run of white space in the format takes any run in the text, even none. */
  lemma BlankScans(format: string, text: string, s: CString, f: CString, done: Scanned, w: Width)
    requires format != "" && AllWhite(format) && AllWhite(text) && !Starts(s, WHITE) && !Starts(f, WHITE)
    ensures NUL !in text + s && NUL !in format + f
    ensures Scan(text + s, format + f, done, w) == Scan(s, f, done, w)
  {
    hide Scan, LeadingSpaces;
    SpacesFound(text, s);
    SpacesFound(format, f);
    WhiteIsSpace(format[0]);
    assert (format + f)[0] == format[0];
    ScanStep(text + s, format + f, done, w);
    assert (text + s)[|text|..] == s && (format + f)[|format|..] == f;
  }

  lemma LiteralScans(c: char, s: CString, f: CString, done: Scanned, w: Width)
    requires c != NUL && c != '%' && c !in WHITE
    ensures NUL !in [c] + s && NUL !in [c] + f
    ensures Scan([c] + s, [c] + f, done, w) == Scan(s, f, done, w)
  {
    hide Scan;
    WhiteIsSpace(c);
    ScanStep([c] + s, [c] + f, done, w);
    assert ([c] + s)[1..] == s && ([c] + f)[1..] == f;
  }

  /** The length prefix, in front of anything that does not continue it. */
  lemma LongsRead(l: nat, tail: CString)
    requires l <= 2 && (l == 2 || At(tail, 0) != 'l')
    ensures var f := "%" + (Longs(l) + tail);
            && NUL !in f && f[1..] == Longs(l) + tail
            && LongPrefix(Longs(l) + tail) == l && |f| == 1 + l + |tail| && At(f, 1 + l) == At(tail, 0)
            && f[1 + l..] == tail
  {
    var f := "%" + (Longs(l) + tail);
    assert |Longs(l)| == l;
    assert At(Longs(l) + tail, l) == At(tail, 0);
  }

  lemma PercentScans(l: nat, s: CString, f: CString, done: Scanned, w: Width)
    requires l <= 2
    ensures NUL !in "%" + s && NUL !in "%" + (Longs(l) + "%") + f
    ensures Scan("%" + s, "%" + (Longs(l) + "%") + f, done, w) == Scan(s, f, done, w)
  {
    hide Scan, LongPrefix;
    var all := "%" + (Longs(l) + ("%" + f));
    assert all == "%" + (Longs(l) + "%") + f;
    LongsRead(l, "%" + f);
    PatternStep("%" + s, all, done, w, l);
    assert ("%" + s)[1..] == s && all[2 + l..] == f;
  }

  lemma CutTwice(x: int)
    ensures x % TWO64 % TWO32 == x % TWO32
  {
    assert x == TWO32 * (TWO32 * (x / TWO64)) + x % TWO64;
  }

  /** What strtoull holds is the number in the word. */
  lemma HeldIsNumber(v: nat, negative: bool, m: nat)
    requires v < m
    ensures (if negative && v > 0 then m - v else v) == (if negative then 0 - v else v) % m
  {
    if negative && v > 0 {
      assert (0 - v) % m == m - v by {
        Arith.DivisionUnique(m, -1, m - v, (0 - v) / m, (0 - v) % m);
      }
    } else {
      Arith.DivisionUnique(m, 0, v, v / m, v % m);
    }
  }

  lemma NumberJoined(number: Parts, s: string)
    ensures Whole(number.(rest := "")) + s == Whole(number.(rest := s))
    ensures |Whole(number.(rest := ""))| == Length(number.(rest := s))
  {
  }

  lemma SignedConverts(q: Part, s: CString, w: Width)
    requires q.Number? && q.kind == 'd' && Fits(q, s, "", w) && NUL !in PartText(q)
    ensures Convert(q.kind, q.l, PartText(q) + s, w) == (Kept(q, w), |PartText(q)|)
  {
    hide Whole, Reads, Value, StrToL;
    NumberJoined(q.number, s);
    StrToLReads(W64, q.number.(rest := s), 10, 10);
  }

  lemma PointerConverts(q: Part, s: CString, w: Width)
    requires q.Number? && q.kind == 'p' && Fits(q, s, "", w) && NUL !in PartText(q)
    ensures Convert(q.kind, q.l, PartText(q) + s, w) == (Kept(q, w), |PartText(q)|)
  {
    hide Whole, Reads, Value, StrToUL;
    NumberJoined(q.number, s);
    StrToULReads(w, q.number.(rest := s), 16, 16);
    HeldIsNumber(Value(q.number.digits, 16), q.number.sign == "-", Modulus(w));
  }

  lemma UnsignedConverts(q: Part, s: CString, w: Width)
    requires q.Number? && q.kind != 'd' && q.kind != 'p' && Fits(q, s, "", w) && NUL !in PartText(q)
    ensures Convert(q.kind, q.l, PartText(q) + s, w) == (Kept(q, w), |PartText(q)|)
  {
    hide Whole, Reads, Value, StrToUL;
    var radix := Radix(q.kind);
    NumberJoined(q.number, s);
    StrToULReads(W64, q.number.(rest := s), radix, radix);
    HeldIsNumber(Value(q.number.digits, radix), q.number.sign == "-", TWO64);
    CutTwice(NumberText.Number(q.number, radix));
  }

  /** A number's conversion keeps the number, and stops behind its digits. */
  lemma NumberConverts(q: Part, s: CString, w: Width)
    requires q.Number? && Fits(q, s, "", w) && NUL !in PartText(q)
    ensures Convert(q.kind, q.l, PartText(q) + s, w) == (Kept(q, w), |PartText(q)|)
  {
    hide Convert, Kept, PartText, Fits;
    if q.kind == 'd' {
      SignedConverts(q, s, w);
    } else if q.kind == 'p' {
      PointerConverts(q, s, w);
    } else {
      UnsignedConverts(q, s, w);
    }
  }

  lemma PartIsText(q: Part, s: string, f: string, w: Width)
    requires Fits(q, s, f, w)
    ensures NUL !in PartText(q) && NUL !in PartFormat(q)
  {
    if q.Number? {
      var t := q.number;
      assert forall i :: 0 <= i < |t.digits| ==> t.digits[i] != NUL;
      assert forall i :: 0 <= i < |t.mark| ==> t.mark[i] != NUL;
    }
  }

  lemma NumberScans(q: Part, s: CString, f: CString, done: Scanned, w: Width)
    requires q.Number? && Fits(q, s, f, w)
    ensures NUL !in PartText(q) + s && NUL !in PartFormat(q) + f
    ensures Scan(PartText(q) + s, PartFormat(q) + f, done, w)
            == Scan(s, f, Scanned(done.matches + 1, done.stores + [Kept(q, w)], done.eilseq), w)
  {
    hide Scan, LongPrefix, Convert, Kept, Whole, Reads, Value;
    PartIsText(q, s, f, w);
    var all: CString := "%" + (Longs(q.l) + ([q.kind] + f));
    assert all == PartFormat(q) + f;
    LongsRead(q.l, [q.kind] + f);
    NumberConverts(q, s, w);
    PatternStep(PartText(q) + s, all, done, w, q.l);
    assert (PartText(q) + s)[|PartText(q)|..] == s && all[2 + q.l..] == f;
  }

  // ---------- a whole scan ----------

  /** What has been matched, and more. */
  function Added(done: Scanned, stores: seq<Store>): Scanned {
    Scanned(done.matches + |stores|, done.stores + stores, done.eilseq)
  }

  lemma AddedNothing(done: Scanned)
    ensures Added(done, []) == done
  {
  }

  lemma AddedTwice(done: Scanned, a: seq<Store>, b: seq<Store>)
    ensures Added(Added(done, a), b) == Added(done, a + b)
  {
  }

  lemma PartScans(q: Part, s: CString, f: CString, done: Scanned, w: Width)
    requires Fits(q, s, f, w)
    ensures NUL !in PartText(q) + s && NUL !in PartFormat(q) + f
    ensures Scan(PartText(q) + s, PartFormat(q) + f, done, w) == Scan(s, f, Added(done, Stores(q, w)), w)
  {
    hide Scan, Kept;
    AddedNothing(done);
    match q
    case Blank(format, text) => BlankScans(format, text, s, f, done, w);
    case Literal(c) => LiteralScans(c, s, f, done, w);
    case Percent(l) => PercentScans(l, s, f, done, w);
    case Number(_, _, _) => NumberScans(q, s, f, done, w);
  }

  /** Text written for the format is consumed part by part, every number stored in order; then the scan goes on. */
  lemma {:induction false} PartsScan(qs: seq<Part>, s: CString, f: CString, done: Scanned, w: Width)
    requires AllFit(qs, s, f, w)
    ensures NUL !in TextOf(qs) + s && NUL !in FormatOf(qs) + f
    ensures Scan(TextOf(qs) + s, FormatOf(qs) + f, done, w)
            == Scan(s, f, Added(done, StoresOf(qs, w)), w)
  {
    hide Scan, Stores, Fits, PartText, PartFormat, Added;
    if qs == [] {
      assert TextOf(qs) + s == s && FormatOf(qs) + f == f;
      AddedNothing(done);
    } else {
      var s', f' := TextOf(qs[1..]) + s, FormatOf(qs[1..]) + f;
      PartsScan(qs[1..], s, f, Added(done, Stores(qs[0], w)), w);
      PartScans(qs[0], s', f', done, w);
      assert TextOf(qs) + s == PartText(qs[0]) + s' && FormatOf(qs) + f == PartFormat(qs[0]) + f';
      AddedTwice(done, Stores(qs[0], w), StoresOf(qs[1..], w));
    }
  }

  // ---------- how a scan ends ----------

  /** At the end of the format, a character that does not match, a percent sign not met, or an unknown pattern. */
  datatype Stop =
    | Finished
    | Mismatch(c: char, more: CString)
    | NoPercent(l: nat, more: CString)
    | Unknown(l: nat, more: CString)

  function StopFormat(stop: Stop): string {
    match stop
    case Finished => ""
    case Mismatch(c, more) => [c] + more
    case NoPercent(l, more) => "%" + (Longs(l) + ("%" + more))
    case Unknown(l, more) => "%" + (Longs(l) + more)
  }

  predicate StopsAt(stop: Stop, s: string) {
    match stop
    case Finished => true
    case Mismatch(c, _) => c != NUL && c != '%' && c !in WHITE && !Starts(s, [c])
    case NoPercent(l, _) => l <= 2 && !Starts(s, "%")
    case Unknown(l, more) => l <= 2 && !Starts(more, "%duxXp") && (l < 2 ==> !Starts(more, "l"))
  }

  /** EOF is only for a character that does not match before any number did; EILSEQ only for an unknown pattern. */
  function Ended(stop: Stop, done: Scanned): Scanned {
    match stop
    case Finished => done
    case Mismatch(_, _) => if done.matches == 0 then done.(matches := -1) else done
    case NoPercent(_, _) => done
    case Unknown(_, _) => done.(eilseq := true)
  }

  lemma MismatchScans(c: char, more: CString, s: CString, done: Scanned, w: Width)
    requires c != NUL && c != '%' && c !in WHITE && !Starts(s, [c])
    ensures NUL !in [c] + more
    ensures Scan(s, [c] + more, done, w) == if done.matches == 0 then done.(matches := EOF) else done
  {
    hide Scan;
    WhiteIsSpace(c);
    AtEnd(s, 0);
    ScanStep(s, [c] + more, done, w);
  }

  lemma NoPercentScans(l: nat, more: CString, s: CString, done: Scanned, w: Width)
    requires l <= 2 && !Starts(s, "%")
    ensures NUL !in "%" + (Longs(l) + ("%" + more))
    ensures Scan(s, "%" + (Longs(l) + ("%" + more)), done, w) == done
  {
    hide Scan, LongPrefix, Convert;
    LongsRead(l, "%" + more);
    PatternStep(s, "%" + (Longs(l) + ("%" + more)), done, w, l);
  }

  lemma UnknownScans(l: nat, more: CString, s: CString, done: Scanned, w: Width)
    requires l <= 2 && !Starts(more, "%duxXp") && (l < 2 ==> !Starts(more, "l"))
    ensures NUL !in "%" + (Longs(l) + more)
    ensures Scan(s, "%" + (Longs(l) + more), done, w) == done.(eilseq := true)
  {
    hide Scan, LongPrefix, Convert;
    AtEnd(more, 0);
    LongsRead(l, more);
    PatternStep(s, "%" + (Longs(l) + more), done, w, l);
  }

  lemma StopScans(stop: Stop, s: CString, done: Scanned, w: Width)
    requires StopsAt(stop, s)
    ensures NUL !in StopFormat(stop)
    ensures Scan(s, StopFormat(stop), done, w) == Ended(stop, done)
  {
    hide Scan, Longs;
    match stop
    case Finished => ScanStep(s, "", done, w);
    case Mismatch(c, more) => MismatchScans(c, more, s, done, w);
    case NoPercent(l, more) => NoPercentScans(l, more, s, done, w);
    case Unknown(l, more) => UnknownScans(l, more, s, done, w);
  }

  /** sscanf: the number of values, the values, and the reason for the end. */
  lemma ScansText(qs: seq<Part>, stop: Stop, s: CString, w: Width)
    requires AllFit(qs, s, StopFormat(stop), w) && StopsAt(stop, s)
    ensures NUL !in TextOf(qs) + s && NUL !in FormatOf(qs) + StopFormat(stop)
    ensures Scan(TextOf(qs) + s, FormatOf(qs) + StopFormat(stop), Scanned(0, [], false), w)
            == Ended(stop, Scanned(|StoresOf(qs, w)|, StoresOf(qs, w), false))
  {
    hide Scan, TextOf, FormatOf, AllFit, StoresOf, StopFormat;
    var done := Scanned(|StoresOf(qs, w)|, StoresOf(qs, w), false);
    StopScans(stop, s, done, w);
    PartsScan(qs, s, StopFormat(stop), Scanned(0, [], false), w);
    assert [] + StoresOf(qs, w) == StoresOf(qs, w);
  }
}
