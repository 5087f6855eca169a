// The printf language of stdio.h: what a format and its arguments denote. `Render`
// reads the format one character at a time; `Chunks` is the same text cut where
// the machine hands it to its callback. The two are proved to agree.
module Format {
  import opened CTypes
  import opened Numerals
  import opened NumberParse

  /** A variadic argument: a word with its two's complement bits, or a string pointer. */
  datatype Arg = Num(v: nat) | Str(s: CString) | NullStr

  /** The width of `long`, and the value of errno for %m. */
  datatype Platform = Platform(w: Width, errno: int)

  // ---------- conversions ----------

  predicate IsNumber(c: char) {
    c == 'c' || c == 'd' || c == 'u' || c == 'x' || c == 'p'
  }

  predicate IsField(c: char) {
    IsNumber(c) || c == 's' || c == 'm'
  }

  /** The modulus of the word that a number conversion fetches; `lpref` is the length prefix. */
  function WordOf(c: char, lpref: nat, w: Width): nat {
    if c == 'p' then Modulus(w)
    else if lpref > 1 then TWO64
    else if lpref == 1 then Modulus(w)
    else TWO32
  }

  function NumberText(c: char, lpref: nat, v: nat, w: Width): string {
    match c
    case 'c' => if v % 256 == 0 then "" else [(v % 256) as char]
    case 'd' => SignedDecimal(ToSigned(v, WordOf(c, lpref, w)))
    case 'u' => Numeral(v, 10)
    case 'p' => "0x" + Numeral(v, 16)
    case _ => Numeral(v, 16)
  }

  function ErrnoText(errno: int): string {
    "errno=" + SignedDecimal(errno)
  }

  function FieldText(c: char, lpref: nat, args: seq<Arg>, p: Platform): string {
    if c == 'm' then ErrnoText(p.errno)
    else if args == [] then ""
    else
      match args[0]
      case Num(v) => NumberText(c, lpref, v, p.w)
      case Str(s) => s
      case NullStr => "(null)"
  }

  function ArgsAfter(c: char, args: seq<Arg>): seq<Arg> {
    if c == 'm' || args == [] then args else args[1..]
  }

  /** The argument that va_arg may be asked for. */
  predicate Suits(c: char, lpref: nat, args: seq<Arg>, p: Platform) {
    c == 'm' || (args != [] && if c == 's' then !args[0].Num? else args[0].Num? && args[0].v < WordOf(c, lpref, p.w))
  }

  /** The length prefix after a modifier; it is a char, and other modifiers are ignored. */
  function Modified(lpref: nat, c: char): nat {
    if c == 'l' then (lpref + 1) % 256 else if c == 'j' then 2 else lpref
  }

  function WidthOf(digits: string): nat {
    Value(digits, 10) % TWO32
  }

  function Padding(width: nat, len: nat): nat {
    if width > len then width - len else 0
  }

  function Blanks(n: nat): (s: string)
    ensures |s| == n
  {
    seq(n, _ => ' ')
  }

  function Padded(width: nat, text: string): string {
    Blanks(Padding(width, |text|)) + text
  }

  // ---------- the text that a format denotes ----------

  function Render(f: string, args: seq<Arg>, p: Platform): string
    decreases |f|
  {
    if f == "" then ""
    else if f[0] == '%' then RenderSpec(f[1..], 0, args, p)
    else [f[0]] + Render(f[1..], args, p)
  }

  /** Behind a '%': digits count only directly before the letter, and a '%' prints itself and them. */
  function RenderSpec(f: string, lpref: nat, args: seq<Arg>, p: Platform): string
    decreases |f|
  {
    var k := DigitRun(f, 10);
    if k == |f| then ""
    else if IsField(f[k]) then
      Padded(WidthOf(f[..k]), FieldText(f[k], lpref, args, p)) + Render(f[k + 1..], ArgsAfter(f[k], args), p)
    else if f[k] == '%' then f[..k + 1] + Render(f[k + 1..], args, p)
    else RenderSpec(f[k + 1..], Modified(lpref, f[k]), args, p)
  }

  /** The arguments are what the format asks for. */
  predicate Matches(f: string, args: seq<Arg>, p: Platform)
    decreases |f|
  {
    if f == "" then true
    else if f[0] == '%' then MatchesSpec(f[1..], 0, args, p)
    else Matches(f[1..], args, p)
  }

  predicate MatchesSpec(f: string, lpref: nat, args: seq<Arg>, p: Platform)
    decreases |f|
  {
    var k := DigitRun(f, 10);
    if k == |f| then true
    else if IsField(f[k]) then Suits(f[k], lpref, args, p) && Matches(f[k + 1..], ArgsAfter(f[k], args), p)
    else if f[k] == '%' then Matches(f[k + 1..], args, p)
    else MatchesSpec(f[k + 1..], Modified(lpref, f[k]), args, p)
  }

  // ---------- the same text in the pieces that are flushed ----------

  datatype Chunk = Chunk(width: nat, text: string)

  /** `lit` is the literal text queued so far. */
  function Chunks(lit: string, f: string, args: seq<Arg>, p: Platform): seq<Chunk>
    decreases |f|
  {
    if f == "" then [Chunk(0, lit)]
    else if f[0] == '%' then [Chunk(0, lit)] + ChunksSpec(f[1..], 0, args, p)
    else Chunks(lit + [f[0]], f[1..], args, p)
  }

  function ChunksSpec(f: string, lpref: nat, args: seq<Arg>, p: Platform): seq<Chunk>
    decreases |f|
  {
    var k := DigitRun(f, 10);
    if k == |f| then []
    else if IsField(f[k]) then
      [Chunk(WidthOf(f[..k]), FieldText(f[k], lpref, args, p))] + Chunks("", f[k + 1..], ArgsAfter(f[k], args), p)
    else if f[k] == '%' then Chunks(f[..k + 1], f[k + 1..], args, p)
    else ChunksSpec(f[k + 1..], Modified(lpref, f[k]), args, p)
  }

  function Flat(cs: seq<Chunk>): string {
    if cs == [] then "" else Padded(cs[0].width, cs[0].text) + Flat(cs[1..])
  }

  lemma FlatCons(c: Chunk, cs: seq<Chunk>)
    ensures Flat([c] + cs) == Padded(c.width, c.text) + Flat(cs)
    ensures c.width == 0 ==> Padded(c.width, c.text) == c.text
  {
    assert ([c] + cs)[1..] == cs;
  }

  /** Cutting the text into chunks loses nothing and changes nothing. */
  lemma {:induction false} ChunksRender(lit: string, f: string, args: seq<Arg>, p: Platform)
    ensures Flat(Chunks(lit, f, args, p)) == lit + Render(f, args, p)
    decreases |f|, 1
  {
    hide Padded;
    if f == "" {
      FlatCons(Chunk(0, lit), []);
      assert [Chunk(0, lit)] + [] == [Chunk(0, lit)];
    } else if f[0] == '%' {
      FlatCons(Chunk(0, lit), ChunksSpec(f[1..], 0, args, p));
      ChunksSpecRender(f[1..], 0, args, p);
    } else {
      ChunksRender(lit + [f[0]], f[1..], args, p);
    }
  }

  lemma {:induction false} ChunksSpecRender(f: string, lpref: nat, args: seq<Arg>, p: Platform)
    ensures Flat(ChunksSpec(f, lpref, args, p)) == RenderSpec(f, lpref, args, p)
    decreases |f|, 0
  {
    hide Padded, FieldText, IsField, WidthOf;
    var k := DigitRun(f, 10);
    if k == |f| {
    } else if IsField(f[k]) {
      var args' := ArgsAfter(f[k], args);
      FlatCons(Chunk(WidthOf(f[..k]), FieldText(f[k], lpref, args, p)), Chunks("", f[k + 1..], args', p));
      ChunksRender("", f[k + 1..], args', p);
    } else if f[k] == '%' {
      ChunksRender(f[..k + 1], f[k + 1..], args, p);
    } else {
      ChunksSpecRender(f[k + 1..], Modified(lpref, f[k]), args, p);
    }
  }
}
