// What printf writes, scanf reads back: formats of literals, white space, %% and
// number conversions, scanned by the very format that printed them.
module FormatScan {
  import opened CTypes
  import opened CStrings
  import opened Numerals
  import opened NumberParse
  import opened NumberPrint
  import opened NumberText
  import opened NumberRoundTrip
  import opened StrTo
  import opened Format
  import opened Delivery
  import opened Printf
  import P = Pieces
  import S = ScanText
  import opened Scanf

  /** The pieces of such a format, with the values. `l` is the number of length prefixes. */
  datatype Item =
    | Literal(c: char)
    | White(run: string)
    | Percent
    | Decimal(l: nat, x: int)
    | Unsigned(l: nat, v: nat)
    | Hex(l: nat, v: nat)
    | Pointer(l: nat, v: nat)

  predicate IsNumber(i: Item) {
    i.Decimal? || i.Unsigned? || i.Hex? || i.Pointer?
  }

  function LengthOf(l: nat): P.Length {
    if l == 0 then P.Int else if l == 1 then P.Long else P.LongLong
  }

  /** The values are words of the types that the conversions name. */
  predicate ItemLegal(i: Item, w: Width) {
    match i
    case Literal(c) => c != NUL && c != '%' && c !in WHITE
    case White(run) => run != "" && AllWhite(run)
    case Percent => true
    case Decimal(l, x) => l <= 2 && P.Holds(P.Decimal(x), LengthOf(l), w)
    case Unsigned(l, v) => l <= 2 && P.Holds(P.Unsigned(v), LengthOf(l), w)
    case Hex(l, v) => l <= 2 && P.Holds(P.Hex(v), LengthOf(l), w)
    case Pointer(l, v) => l <= 2 && P.Holds(P.Pointer(v), LengthOf(l), w)
  }

  /** What may follow a number: nothing, white space, or a character that is neither letter nor digit. */
  predicate EndsNumber(items: seq<Item>) {
    items == [] || items[0].White? || items[0].Percent?
    || (items[0].Literal? && DigitValue(items[0].c) == NOT_A_DIGIT)
  }

  predicate Legal(items: seq<Item>, w: Width) {
    items == [] || (
      && ItemLegal(items[0], w)
      && (IsNumber(items[0]) ==> EndsNumber(items[1..]))
      && (items[0].White? && |items| > 1 ==> !items[1].White?)
      && Legal(items[1..], w))
  }

  /** As printf takes it. */
  function PieceOf(i: Item): P.Piece {
    match i
    case Literal(c) => P.Literal([c])
    case White(run) => P.Literal(run)
    case Percent => P.Percent("", "")
    case Decimal(l, x) => P.Field(S.Longs(l), "", LengthOf(l), P.Decimal(x))
    case Unsigned(l, v) => P.Field(S.Longs(l), "", LengthOf(l), P.Unsigned(v))
    case Hex(l, v) => P.Field(S.Longs(l), "", LengthOf(l), P.Hex(v))
    case Pointer(l, v) => P.Field(S.Longs(l), "", LengthOf(l), P.Pointer(v))
  }

  /** As scanf takes it. */
  function PartOf(i: Item): S.Part {
    match i
    case Literal(c) => S.Literal(c)
    case White(run) => S.Blank(run, run)
    case Percent => S.Percent(0)
    case Decimal(l, x) =>
      S.Number(l, 'd', Parts("", if x < 0 then "-" else "", "", Numeral(if x < 0 then -x else x, 10), ""))
    case Unsigned(l, v) => S.Number(l, 'u', Parts("", "", "", Numeral(v, 10), ""))
    case Hex(l, v) => S.Number(l, 'x', Parts("", "", "", Numeral(v, 16), ""))
    case Pointer(l, v) => S.Number(l, 'p', Parts("", "", "0x", Numeral(v, 16), ""))
  }

  function PiecesOf(items: seq<Item>): seq<P.Piece> {
    if items == [] then [] else [PieceOf(items[0])] + PiecesOf(items[1..])
  }

  function PartsOf(items: seq<Item>): seq<S.Part> {
    if items == [] then [] else [PartOf(items[0])] + PartsOf(items[1..])
  }

  /** What the scan should store: every value, through a pointer of its own type. */
  function StoreOf(i: Item, w: Width): seq<Store> {
    match i
    case Decimal(l, x) => [Store(P.BitsModulus(LengthOf(l), w), x % P.BitsModulus(LengthOf(l), w))]
    case Unsigned(l, v) => [Store(P.BitsModulus(LengthOf(l), w), v)]
    case Hex(l, v) => [Store(P.BitsModulus(LengthOf(l), w), v)]
    case Pointer(_, v) => [Store(P.BitsModulus(P.Long, w), v)]
    case _ => []
  }

  function StoresOf(items: seq<Item>, w: Width): seq<Store> {
    if items == [] then [] else StoreOf(items[0], w) + StoresOf(items[1..], w)
  }

  // ---------- printing ----------

  lemma PieceLegal(i: Item, w: Width)
    requires ItemLegal(i, w)
    ensures P.Legal(PieceOf(i), w)
  {
    match i
    case Literal(c) =>
    case White(run) =>
    case Percent =>
    case Decimal(l, x) => LongsMean(l);
    case Unsigned(l, v) => LongsMean(l);
    case Hex(l, v) => LongsMean(l);
    case Pointer(l, v) => LongsMean(l);
  }

  lemma LongsMean(l: nat)
    requires l <= 2
    ensures P.FlagChars(S.Longs(l)) && P.Means(S.Longs(l), LengthOf(l))
  {
    var flags := S.Longs(l);
    assert flags == seq(l, _ => 'l');
    assert 'j' !in flags && multiset(flags)['l'] == l;
  }

  lemma {:induction false} PiecesLegal(items: seq<Item>, w: Width)
    requires Legal(items, w)
    ensures P.AllLegal(PiecesOf(items), w)
    ensures forall q <- PiecesOf(items) :: q.Field? ==> q.digits == ""
  {
    hide ItemLegal, P.Legal;
    if items != [] {
      PieceLegal(items[0], w);
      PiecesLegal(items[1..], w);
    }
  }

  lemma Unpadded(text: string)
    ensures Numerals.Value("", 10) % TWO32 == 0 && P.RightAligned(0, text) == text
  {
  }

  lemma SameField(flags: string, length: P.Length, content: P.Content, l: nat, kind: char, number: Parts, errno: int)
    requires flags == S.Longs(l) && kind == P.Letter(content)
    requires Whole(number.(rest := "")) == P.ContentText(content, errno)
    ensures var q, r := P.Field(flags, "", length, content), S.Number(l, kind, number);
            P.PieceFormat(q) == S.PartFormat(r) && P.PieceText(q, errno) == S.PartText(r)
  {
    hide P.ContentText, Whole, P.RightAligned;
    Unpadded(P.ContentText(content, errno));
    assert "%" + flags + "" + [kind] == "%" + (flags + [kind]);
  }

  lemma NumberWhole(sign: string, mark: string, digits: string)
    ensures Whole(Parts("", sign, mark, digits, "")) == sign + mark + digits
  {
  }

  /** Both sides speak of the same format and the same text. */
  lemma SamePart(i: Item, errno: int)
    ensures P.PieceFormat(PieceOf(i)) == S.PartFormat(PartOf(i))
    ensures P.PieceText(PieceOf(i), errno) == S.PartText(PartOf(i))
  {
    hide Numeral, Whole;
    if IsNumber(i) {
      hide P.PieceFormat, S.PartFormat, P.PieceText, S.PartText;
      var q, r := PieceOf(i), PartOf(i);
      NumberWhole(r.number.sign, r.number.mark, r.number.digits);
      assert r.number.(rest := "") == r.number;
      assert Whole(r.number) == P.ContentText(q.content, errno);
      SameField(q.flags, q.length, q.content, r.l, r.kind, r.number, errno);
    }
  }

  lemma {:induction false} SameText(items: seq<Item>, errno: int)
    ensures P.FormatOf(PiecesOf(items)) == S.FormatOf(PartsOf(items))
    ensures P.Printed(PiecesOf(items), errno) == S.TextOf(PartsOf(items))
  {
    hide PieceOf, PartOf, P.PieceText, P.PieceFormat, S.PartText, S.PartFormat;
    if items != [] {
      SamePart(items[0], errno);
      SameText(items[1..], errno);
    }
  }

  /** The format of the items, and the text that it prints. */
  function FormatOf(items: seq<Item>): string {
    P.FormatOf(PiecesOf(items))
  }

  function Printed(items: seq<Item>): string {
    P.Printed(PiecesOf(items), 0)
  }

  // ---------- scanning ----------

  /** A printed number fits its conversion and is the number that it keeps. */
  lemma NumberFits(l: nat, kind: char, sign: string, mark: string, v: nat, s: string, f: string, w: Width)
    requires l <= 2 && kind in "duxp" && sign in {"", "-"} && Stops(s)
    requires mark == if kind == 'p' then "0x" else ""
    requires v < if kind == 'p' then S.LongModulus(w) else TWO64
    ensures var base := S.Radix(kind);
            var number := Parts("", sign, mark, Numeral(v, base), "");
            && S.Fits(S.Number(l, kind, number), s, f, w)
            && Number(number, base) == if sign == "-" then 0 - v else v
  {
    hide Numeral, Numerals.Value, Reads;
    var base := S.Radix(kind);
    NumeralReads(sign, mark, v, base, s);
    NumeralValue(v, base);
  }

  lemma DecimalFits(l: nat, x: int, s: string, f: string, w: Width)
    requires ItemLegal(Decimal(l, x), w) && Stops(s)
    ensures S.Fits(PartOf(Decimal(l, x)), s, f, w)
    ensures S.Stores(PartOf(Decimal(l, x)), w) == StoreOf(Decimal(l, x), w)
  {
    hide Numeral, Number, S.Fits;
    NumberFits(l, 'd', if x < 0 then "-" else "", "", if x < 0 then -x else x, s, f, w);
  }

  lemma UnsignedFits(i: Item, s: string, f: string, w: Width)
    requires i.Unsigned? || i.Hex? || i.Pointer?
    requires ItemLegal(i, w) && Stops(s)
    ensures S.Fits(PartOf(i), s, f, w)
    ensures S.Stores(PartOf(i), w) == StoreOf(i, w)
  {
    hide Numeral, Number, S.Fits;
    var q := PartOf(i);
    NumberFits(q.l, q.kind, "", q.number.mark, i.v, s, f, w);
    Small(i.v, StoreOf(i, w)[0].modulus);
  }

  lemma Small(v: nat, m: nat)
    requires v < m
    ensures v % m == v
  {
  }

  lemma PartFits(i: Item, s: string, f: string, w: Width)
    requires ItemLegal(i, w) && (IsNumber(i) ==> Stops(s))
    requires i.White? ==> !Starts(s, WHITE) && !Starts(f, WHITE)
    ensures S.Fits(PartOf(i), s, f, w)
    ensures S.Stores(PartOf(i), w) == StoreOf(i, w)
  {
    if i.Decimal? {
      DecimalFits(i.l, i.x, s, f, w);
    } else if IsNumber(i) {
      UnsignedFits(i, s, f, w);
    }
  }

  lemma NumberBegins(i: Item)
    requires IsNumber(i)
    ensures var text := S.PartText(PartOf(i));
            text != "" && (text[0] == '-' || DigitValue(text[0]) < 16)
  {
    hide Numeral;
    var number := PartOf(i).number;
    NumberWhole(number.sign, number.mark, number.digits);
    assert number.(rest := "") == number;
  }

  /** How the text and the format of an item begin. */
  lemma PartBegins(i: Item, s: string, f: string, w: Width)
    requires ItemLegal(i, w)
    ensures i.White? || (!Starts(S.PartText(PartOf(i)) + s, WHITE) && !Starts(S.PartFormat(PartOf(i)) + f, WHITE))
    ensures EndsNumber([i]) ==> Stops(S.PartText(PartOf(i)) + s)
  {
    if IsNumber(i) {
      hide S.PartText;
      NumberBegins(i);
      assert (S.PartText(PartOf(i)) + s)[0] == S.PartText(PartOf(i))[0];
    }
  }

  lemma {:induction false} PartsFit(items: seq<Item>, w: Width)
    requires Legal(items, w)
    ensures S.AllFit(PartsOf(items), "", "", w)
    ensures S.StoresOf(PartsOf(items), w) == StoresOf(items, w)
  {
    hide ItemLegal, S.Fits, PartOf, S.Stores, StoreOf, S.PartText, S.PartFormat;
    if items != [] {
      PartsFit(items[1..], w);
      var rest := PartsOf(items[1..]);
      if |items| > 1 {
        PartBegins(items[1], S.TextOf(rest[1..]), S.FormatOf(rest[1..]), w);
      }
      assert S.TextOf(rest) + "" == S.TextOf(rest) && S.FormatOf(rest) + "" == S.FormatOf(rest);
      PartFits(items[0], S.TextOf(rest), S.FormatOf(rest), w);
    }
  }

  /** Scanning what was printed, by the format that printed it, matches every conversion and stores every value. */
  lemma {:induction false} ScanReadsBack(items: seq<Item>, w: Width)
    requires Legal(items, w)
    ensures NUL !in FormatOf(items) && NUL !in Printed(items)
    ensures Scan(Printed(items), FormatOf(items), Scanned(0, [], false), w)
            == Scanned(|StoresOf(items, w)|, StoresOf(items, w), false)
  {
    hide Scan, S.TextOf, S.FormatOf, S.AllFit, S.StoresOf, StoresOf, P.FormatOf, P.Printed;
    PartsFit(items, w);
    SameText(items, 0);
    S.ScansText(PartsOf(items), S.Finished, "", w);
    assert Printed(items) + "" == Printed(items) && FormatOf(items) + "" == FormatOf(items);
  }

  /** snprintf with enough room, then sscanf with the same format: every value comes back. */
  method PrintThenScan(items: seq<Item>, buf: array<char>, size: nat, p: Platform) returns (r: Scanned)
    requires Legal(items, p.w)
    requires -(TWO32 / 2) <= p.errno < TWO32 / 2
    requires |Printed(items)| < size <= buf.Length && |Printed(items)| < TWO32 / 2
    modifies buf
    ensures r == Scanned(|StoresOf(items, p.w)|, StoresOf(items, p.w), false)
  {
    hide P.Printed, P.FormatOf, P.ArgsOf, Render, Legal, StoresOf, Chunks, Matches, Emit, Count, TextOf, Scan;
    ghost var was := buf[..];
    ghost var text := Printed(items);
    ScanReadsBack(items, p.w);
    PiecesLegal(items, p.w);
    SameText(items, 0);
    SameText(items, p.errno);
    P.PrintsPieces(PiecesOf(items), "", [], p);
    var fmt: CString, args := FormatOf(items), P.ArgsOf(PiecesOf(items), p.w);
    assert fmt + "" == fmt && args + [] == args;
    WholeTextFits(was, size, fmt, args, p);
    var n := VSNPrintf(buf, size, fmt, args, p);
    assert buf[0..] == buf[..];
    BufferText(was, "", text, buf[..]);
    assert "" + text == text;
    var len := StrLen(buf, 0);
    r := VSScanf(buf[..len], fmt, p.w);
  }

  // ---------- the text of errno ----------

  /** What %m and strerror write is "errno=" and the number that strtol reads behind it. */
  lemma ErrnoReadsBack(errno: int, w: Width)
    requires -(TWO32 / 2) <= errno < TWO32 / 2
    ensures var text := ErrnoText(errno);
            && |text| > 6 && text[..6] == "errno="
            && StrToL(w, text[6..], 10) == (errno, |text| - 6, NoError)
  {
    hide Numeral, StrToL;
    SignedRoundTrip(w, errno, "");
    assert SignedDecimal(errno) != "";
    assert SignedDecimal(errno) + "" == SignedDecimal(errno);
    assert ErrnoText(errno)[6..] == SignedDecimal(errno);
  }
}
