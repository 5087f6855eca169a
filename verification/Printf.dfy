// stdio.h: the printf machine and the functions built on it. The machine is proved
// to do to its sink exactly what `Delivery.Drive` does with the chunks of the format.
module Printf {
  import opened CTypes
  import opened CStrings
  import opened Numerals
  import opened NumberParse
  import opened NumberPrint
  import opened Format
  import opened Delivery
  import opened Bounded
  import opened WriteErrors

  /** The state behind a callback: a buffer being filled, or a stream on a descriptor. */
  class Sink {
    const target: Target
    const buf: array<char>
    var pos: nat        // what __nolibc_sprintf_cb keeps in *state
    var out: string     // what write() has put on the descriptor
    var calls: nat      // how often write() was called

    constructor (target: Target, buf: array<char>)
      ensures this.target == target && this.buf == buf && pos == 0 && out == "" && calls == 0
    {
      this.target, this.buf, pos, out, calls := target, buf, 0, "", 0;
    }

    ghost predicate Valid()
      reads this
    {
      pos <= buf.Length
    }

    ghost function State(): Progress
      requires Valid()
      reads this, buf
    {
      if target.Buffer? then Progress(buf[..pos], calls) else Progress(out, calls)
    }

    /** Room in the buffer for everything that is going to be delivered. */
    ghost predicate Fits(p: Progress)
      reads this
    {
      target.Buffer? ==> |p.out| <= buf.Length
    }

    /** The system call, as far as the library relies on it. */
    method Write(text: string) returns (ret: int)
      requires target.Descriptor? && text != ""
      modifies this
      ensures ret == old(WriteResult(target.oracle, calls, |text|)) && calls == old(calls) + 1
      ensures out == if ret > 0 then old(out) + text[..ret] else old(out)
      ensures pos == old(pos)
    {
      ret := WriteResult(target.oracle, calls, |text|);
      calls := calls + 1;
      if ret > 0 {
        out := out + text[..ret];
      }
    }

    /** _fwrite */
    method FWriteAll(text: string) returns (ret: int)
      requires Valid() && target.Descriptor?
      modifies this
      ensures Valid() && pos == old(pos)
      ensures (State(), ret == 0) == WriteAll(target.oracle, old(State()), text)
      ensures ret == 0 || ret == EOF
    {
      ghost var goal := WriteAll(target.oracle, State(), text);
      var size, at := |text|, 0;
      while size > 0
        invariant Valid() && pos == old(pos)
        invariant size >= 0 && at + size == |text|
        invariant WriteAll(target.oracle, State(), text[at..]) == goal
      {
        var r := Write(text[at..]);
        if r <= 0 {
          return EOF;
        }
        assert text[at..][..r] == text[at..at + r] && text[at..][r..] == text[at + r..];
        size := size - r;
        at := at + r;
      }
      return 0;
    }

    /** __nolibc_sprintf_cb, by memcpy; or __nolibc_fprintf_cb. */
    method Callback(text: string) returns (ret: int)
      requires Valid() && (target.Buffer? ==> pos + |text| <= buf.Length)
      modifies this, buf
      ensures Valid()
      ensures (State(), ret == 0) == Delivery.Callback(target, old(State()), text)
      ensures target.Buffer? ==> pos == old(pos) + |text|
      ensures pos >= old(pos)
      ensures buf[pos..] == old(buf[..])[pos..]
    {
      match target {
        case Buffer =>
          ghost var was := buf[..];
          var i := 0;
          while i < |text|
            invariant 0 <= i <= |text| && |was| == buf.Length && pos == old(pos) && calls == old(calls)
            invariant buf[..] == Stored(was, pos, text[..i])
          {
            StoredAppend(was, pos, text[..i], text[i]);
            assert text[..i] + [text[i]] == text[..i + 1];
            buf[pos + i] := text[i];
            i := i + 1;
          }
          assert text[..i] == text;
          pos := pos + |text|;
          ret := 0;
          assert buf[..pos] == buf[..][..pos] == was[..old(pos)] + text;
          assert buf[pos..] == buf[..][pos..];
        case Descriptor(_) =>
          ret := FWriteAll(text);
      }
    }

    /** fwrite: whole items are counted. */
    method FWrite(s: string, size: nat, nmemb: nat) returns (written: nat)
      requires Valid() && target.Descriptor? && |s| == size * nmemb
      modifies this
      ensures written <= nmemb
      ensures old(out) <= out <= old(out) + s
      ensures written == nmemb ==> out == old(out) + s
      ensures written < nmemb ==> size > 0 && written * size <= |out| - |old(out)| < (written + 1) * size
    {
      written := 0;
      assert s[..0 * size] == "";
      while written < nmemb
        invariant Valid() && written <= nmemb
        invariant written * size <= |s| && out == old(out) + s[..written * size]
      {
        ItemBounds(written, nmemb, size);
        var item := s[written * size..(written + 1) * size];
        ghost var before := State();
        WriteAllDelivers(target.oracle, before, item);
        assert before.out + item == old(out) + s[..(written + 1) * size];
        var r := FWriteAll(item);
        if r != 0 {
          break;
        }
        written := written + 1;
      }
      assert written == nmemb ==> s[..written * size] == s;
    }
  }

  lemma ItemBounds(k: nat, n: nat, size: nat)
    requires k < n
    ensures k * size <= (k + 1) * size <= n * size
    ensures (k + 1) * size == k * size + size
  {
    assert (n - k - 1) * size >= 0;
    assert n * size == (k + 1) * size + (n - k - 1) * size;
  }

  // ---------- the machine ----------

  /** The digits of a width, in an unsigned int. */
  method ReadWidth(fmt: CString, start: nat) returns (width: nat, k: nat)
    requires start <= |fmt|
    ensures k == DigitRun(fmt[start..], 10) && width == WidthOf(fmt[start..start + k])
    ensures start + k <= |fmt| && !('0' <= At(fmt, start + k) <= '9')
  {
    hide DigitRun, Value;
    width, k := 0, 0;
    ghost var t := fmt[start..];
    EmptyWidth();
    assert t[..0] == "";
    while '0' <= At(fmt, start + k) <= '9'
      invariant start + k <= |fmt|
      invariant k + DigitRun(fmt[start + k..], 10) == DigitRun(t, 10)
      invariant width == Value(t[..k], 10) % TWO32
      decreases |fmt| - k
    {
      RunNext(fmt, start + k, 10);
      WidthStep(t, k, width);
      width := width * 10 % TWO32;
      width := (width + (At(fmt, start + k) as int - '0' as int)) % TWO32;
      k := k + 1;
    }
    RunStops(fmt, start + k, 10);
    assert t[..k] == fmt[start..start + k];
  }

  lemma EmptyWidth()
    ensures Value("", 10) == 0
  {
  }

  lemma WidthStep(t: string, k: nat, width: nat)
    requires k < |t| && '0' <= t[k] <= '9' && width == Value(t[..k], 10) % TWO32
    ensures Value(t[..k + 1], 10) % TWO32 == (width * 10 % TWO32 + (t[k] as int - '0' as int)) % TWO32
  {
    assert t[..k + 1][..k] == t[..k];
    var v := Value(t[..k], 10);
    TimesTen(v);
    ReducedFirst(v * 10, t[k] as int - '0' as int);
  }

  lemma TimesTen(v: nat)
    ensures v % TWO32 * 10 % TWO32 == v * 10 % TWO32
  {
  }

  /** The 64-bit word that a signed word of modulus `m` extends to. */
  function SignExtended(v: nat, m: nat): nat
    requires m <= TWO64 && v < m
  {
    if 2 * v < m then v else v + TWO64 - m
  }

  /** The conversions that go through tmpbuf, whose 21 bytes always suffice. */
  method ConvertNumber(c: char, lpref: nat, v: nat, p: Platform) returns (outstr: CString)
    requires IsNumber(c) && v < WordOf(c, lpref, p.w)
    ensures outstr == NumberText(c, lpref, v, p.w)
  {
    hide Numeral, SignedDecimal, Stored, TextOf;
    var tmpbuf := new char[21];
    ghost var was := tmpbuf[..];
    if c == 'c' {
      tmpbuf[0], tmpbuf[1] := (v % 256) as char, NUL;
      TextOfUnique(tmpbuf[..], if v % 256 == 0 then "" else [(v % 256) as char]);
    } else if c == 'd' {
      var word := SignExtended(v, WordOf(c, lpref, p.w));
      BufferSizes(W64, word);
      var _ := Itoa(W64, word, tmpbuf, 0);
      NumeralsHaveNoNul(0, ToSigned(word, TWO64));
      BufferText(was, "", SignedDecimal(ToSigned(word, TWO64)), tmpbuf[..]);
    } else {
      BufferSizes(W64, v);
      NumeralsHaveNoNul(v, 0);
      if c == 'u' {
        var _ := Utoa(W64, v, tmpbuf, 0);
        BufferText(was, "", Numeral(v, 10), tmpbuf[..]);
      } else if c == 'p' {
        tmpbuf[0], tmpbuf[1] := '0', 'x';
        was := tmpbuf[..];
        var _ := U64toh(p.w, v, tmpbuf, 2);
        BufferText(was, "0x", Numeral(v, 16), tmpbuf[..]);
      } else {
        var _ := U64toh(p.w, v, tmpbuf, 0);
        BufferText(was, "", Numeral(v, 16), tmpbuf[..]);
      }
    }
    assert tmpbuf[0..] == tmpbuf[..];
    var len := StrLen(tmpbuf, 0);
    outstr := tmpbuf[..len];
    assert outstr == TextOf(tmpbuf[..]);
  }

  /** strerror: its 18-byte buffer holds the longest errno exactly. */
  method StrError(errno: int, buf: array<char>) returns (text: CString)
    requires -(TWO32 / 2) <= errno < TWO32 / 2
    requires buf.Length == 18 && buf[..6] == "errno="
    modifies buf
    ensures text == ErrnoText(errno) && TextOf(buf[..]) == text && buf[..6] == "errno="
  {
    hide Numeral, SignedDecimal, Stored, TextOf;
    ghost var was := buf[..];
    ErrnoWord(errno);
    var _ := Itoa(W64, errno % TWO64, buf, 6);
    NumeralsHaveNoNul(0, errno);
    BufferText(was, "errno=", SignedDecimal(errno), buf[..]);
    assert buf[0..] == buf[..];
    var len := StrLen(buf, 0);
    text := buf[..len];
    assert buf[..6] == text[..6];
  }

  lemma ErrnoWord(errno: int)
    requires -(TWO32 / 2) <= errno < TWO32 / 2
    ensures errno % TWO64 < TWO64 && ToSigned(errno % TWO64, TWO64) == errno
    ensures |SignedDecimal(errno)| <= 11
    ensures |ErrnoText(-(TWO32 / 2))| == 17
  {
    hide Numeral;
    BufferSizes(W32, errno % TWO32);
    assert ToSigned(errno % TWO32, TWO32) == errno;
    assert ToSigned(TWO32 / 2, TWO32) == -(TWO32 / 2);
  }

  // ---------- flushing ----------

  /** The blanks in front of a text of which `w` characters fit. An error ends the loop, unreported. */
  method PadLoop(sink: Sink, width: nat, w: nat, written: nat) returns (written': nat)
    requires sink.Valid() && written < TWO32
    requires sink.target.Buffer? ==> sink.pos + Padding(width, w) <= sink.buf.Length
    modifies sink, sink.buf
    ensures sink.Valid()
    ensures var (p, done) := Pads(sink.target, old(sink.State()), Padding(width, w));
            sink.State() == p && written' == Add32(written, done)
    ensures sink.target.Buffer? ==> sink.pos == old(sink.pos) + Padding(width, w)
    ensures sink.pos >= old(sink.pos) && sink.buf[sink.pos..] == old(sink.buf[..])[sink.pos..]
  {
    hide Pads, Delivery.Callback, Add32;
    ghost var t, start := sink.target, sink.State();
    ghost var all := Pads(t, start, Padding(width, w));
    ghost var done: nat := 0;
    var left: nat := width;
    written' := written;
    CountStep(written, 0, 0);
    while left > w
      invariant left <= width && sink.Valid()
      invariant var (p, more) := Pads(t, sink.State(), Padding(left, w)); p == all.0 && done + more == all.1
      invariant written' == Add32(written, done)
      invariant t.Buffer? ==> sink.pos + Padding(left, w) == old(sink.pos) + Padding(width, w)
      invariant sink.pos >= old(sink.pos) && sink.buf[sink.pos..] == old(sink.buf[..])[sink.pos..]
    {
      PadsStep(t, sink.State(), Padding(left, w));
      CallbackDelivers(t, sink.State(), " ");
      CountStep(written, done, 1);
      ghost var middle, rest := sink.pos, old(sink.buf[..])[sink.pos..];
      left := left - 1;
      var r := sink.Callback(" ");
      assert sink.buf[sink.pos..] == rest[sink.pos - middle..];
      if r != 0 {
        break;
      }
      written' := Add32(written', 1);
      done := done + 1;
    }
    PadsStep(t, sink.State(), 0);
  }

  /** What was beyond the position stays beyond it. */
  lemma TailKept(was: string, before: string, after: string, from: nat, to: nat)
    requires |was| == |before| == |after| && from <= to <= |was|
    requires before[from..] == was[from..] && after[to..] == before[to..]
    ensures after[to..] == was[to..]
  {
    assert before[to..] == before[from..][to - from..];
    assert was[to..] == was[from..][to - from..];
  }

  /** The flush_str part: pad and deliver within the budget. `ok` is false when the text failed. */
  method Flush(sink: Sink, n: nat, width: nat, outstr: string, written: nat, ghost todo: seq<Chunk>, ghost was: string)
    returns (ok: bool, n': nat, written': nat)
    requires sink.Valid() && written < TWO32
    requires |was| == sink.buf.Length && sink.buf[sink.pos..] == was[sink.pos..]
    requires sink.Fits(Drive(sink.target, sink.State(), n, written, [Chunk(width, outstr)] + todo).0)
    modifies sink, sink.buf
    ensures sink.Valid() && written' < TWO32
    ensures var goal := Drive(sink.target, old(sink.State()), n, written, [Chunk(width, outstr)] + todo);
            goal == if ok then Drive(sink.target, sink.State(), n', written', todo) else (sink.State(), written')
    ensures sink.buf[sink.pos..] == was[sink.pos..]
  {
    hide Pads, Delivery.Callback, Padding, Add32, Drive;
    DriveStep(sink.target, sink.State(), n, written, Chunk(width, outstr), todo);
    if n == 0 {
      return true, 0, Add32(written, |outstr|);
    }
    var w := Min(|outstr|, n);
    n' := n - w;
    ghost var t, start := sink.target, sink.State();
    ghost var (p1, padded) := Pads(t, start, Padding(width, w));
    PadsDeliver(t, start, Padding(width, w));
    CallbackDelivers(t, p1, outstr[..w]);
    DriveExtends(t, Delivery.Callback(t, p1, outstr[..w]).0, n', Add32(written, padded + |outstr|), todo);
    CountStep(written, padded, |outstr|);
    ghost var first := sink.pos;
    written' := PadLoop(sink, width, w, written);
    TailKept(was, old(sink.buf[..]), sink.buf[..], first, sink.pos);
    ghost var middle, padded' := sink.pos, sink.buf[..];
    var r := sink.Callback(outstr[..w]);
    TailKept(was, padded', sink.buf[..], middle, sink.pos);
    ok := r == 0;
    if ok {
      written' := Add32(written', |outstr|);
    }
  }

  // ---------- the loop over the format ----------

  /** What is still to be flushed when the machine stands at `f` with `lit` queued. */
  ghost function Todo(escape: bool, lit: string, f: string, lpref: nat, args: seq<Arg>, p: Platform): seq<Chunk> {
    if escape then ChunksSpec(f, lpref, args, p) else Chunks(lit, f, args, p)
  }

  ghost predicate Ready(escape: bool, f: string, lpref: nat, args: seq<Arg>, p: Platform) {
    if escape then MatchesSpec(f, lpref, args, p) else Matches(f, args, p)
  }

  lemma LiteralStep(lit: string, f: string, args: seq<Arg>, p: Platform)
    ensures Chunks(lit, f, args, p) ==
            if f == "" then [Chunk(0, lit)]
            else if f[0] == '%' then [Chunk(0, lit)] + ChunksSpec(f[1..], 0, args, p)
            else Chunks(lit + [f[0]], f[1..], args, p)
    ensures f != "" && Matches(f, args, p) ==>
              if f[0] == '%' then MatchesSpec(f[1..], 0, args, p) else Matches(f[1..], args, p)
  {
  }

  lemma SpecStep(f: string, lpref: nat, args: seq<Arg>, p: Platform, k: nat)
    requires k == DigitRun(f, 10) && MatchesSpec(f, lpref, args, p)
    ensures !IsField(NUL)
    ensures ChunksSpec(f, lpref, args, p) ==
            if k == |f| then []
            else if IsField(f[k]) then
              [Chunk(WidthOf(f[..k]), FieldText(f[k], lpref, args, p))]
              + Chunks("", f[k + 1..], ArgsAfter(f[k], args), p)
            else if f[k] == '%' then Chunks(f[..k + 1], f[k + 1..], args, p)
            else ChunksSpec(f[k + 1..], Modified(lpref, f[k]), args, p)
    ensures k < |f| ==>
              if IsField(f[k]) then Suits(f[k], lpref, args, p) && Matches(f[k + 1..], ArgsAfter(f[k], args), p)
              else if f[k] == '%' then Matches(f[k + 1..], args, p)
              else MatchesSpec(f[k + 1..], Modified(lpref, f[k]), args, p)
  {
  }

  /** One text conversion: the letter `c` takes its argument. */
  method ConvertField(c: char, lpref: nat, args: seq<Arg>, p: Platform) returns (outstr: CString, rest: seq<Arg>)
    requires IsField(c) && Suits(c, lpref, args, p)
    requires -(TWO32 / 2) <= p.errno < TWO32 / 2
    ensures outstr == FieldText(c, lpref, args, p) && rest == ArgsAfter(c, args)
  {
    hide NumberText, Numeral, SignedDecimal;
    if IsNumber(c) {
      outstr := ConvertNumber(c, lpref, args[0].v, p);
      rest := args[1..];
    } else if c == 's' {
      outstr := if args[0].NullStr? then "(null)" else args[0].s;
      rest := args[1..];
    } else {
      var buf := new char[18](i requires 0 <= i < 18 => if i < 6 then "errno="[i] else NUL);
      assert buf[..6] == "errno=";
      outstr := StrError(p.errno, buf);
      rest := args;
    }
  }

  /** One turn outside an escape sequence: the end, an escape, or one more literal character queued. */
  lemma LiteralTurn(fmt: CString, base: nat, ofs: nat, args: seq<Arg>, p: Platform)
    requires base + ofs <= |fmt| && Matches(fmt[base + ofs..], args, p)
    ensures At(fmt, base + ofs) == NUL <==> base + ofs == |fmt|
    ensures var lit, f := fmt[base..base + ofs], fmt[base + ofs..];
            Chunks(lit, f, args, p) ==
            if base + ofs == |fmt| then [Chunk(0, lit)] + []
            else if fmt[base + ofs] == '%' then [Chunk(0, lit)] + ChunksSpec(fmt[base + ofs + 1..], 0, args, p)
            else Chunks(fmt[base..base + ofs + 1], fmt[base + ofs + 1..], args, p)
    ensures base + ofs < |fmt| ==>
              if fmt[base + ofs] == '%' then MatchesSpec(fmt[base + ofs + 1..], 0, args, p)
              else Matches(fmt[base + ofs + 1..], args, p)
  {
    hide Chunks, ChunksSpec, Matches, MatchesSpec;
    var lit, f := fmt[base..base + ofs], fmt[base + ofs..];
    AtEnd(fmt, base + ofs);
    LiteralStep(lit, f, args, p);
    if base + ofs < |fmt| {
      assert f[1..] == fmt[base + ofs + 1..];
      assert lit + [f[0]] == fmt[base..base + ofs + 1];
    }
  }

  /** How an escape sequence continues: text to flush, a literal to queue, or more of the sequence. */
  datatype Escape = Field(width: nat, outstr: CString) | Literal | Modifier(lpref: nat)

  /** The branch for escape sequences: `ofs` characters from `base` on are used. */
  method ReadEscape(fmt: CString, base: nat, lpref: nat, args: seq<Arg>, p: Platform)
    returns (e: Escape, ofs: nat, rest: seq<Arg>)
    requires base <= |fmt| && MatchesSpec(fmt[base..], lpref, args, p)
    requires -(TWO32 / 2) <= p.errno < TWO32 / 2
    ensures 0 < ofs && base + ofs <= |fmt| + 1
    ensures base + ofs == |fmt| + 1 ==> e.Modifier? && ChunksSpec(fmt[base..], lpref, args, p) == []
    ensures base + ofs <= |fmt| ==>
              match e
              case Field(width, outstr) =>
                && ChunksSpec(fmt[base..], lpref, args, p)
                   == [Chunk(width, outstr)] + Chunks("", fmt[base + ofs..], rest, p)
                && Matches(fmt[base + ofs..], rest, p)
              case Literal =>
                && ChunksSpec(fmt[base..], lpref, args, p) == Chunks(fmt[base..base + ofs], fmt[base + ofs..], rest, p)
                && Matches(fmt[base + ofs..], rest, p)
              case Modifier(l) =>
                && ChunksSpec(fmt[base..], lpref, args, p) == ChunksSpec(fmt[base + ofs..], l, rest, p)
                && MatchesSpec(fmt[base + ofs..], l, rest, p)
  {
    hide Chunks, ChunksSpec, Matches, MatchesSpec, DigitRun, FieldText, Suits, WidthOf;
    ghost var f := fmt[base..];
    var width, k := ReadWidth(fmt, base);
    AtEnd(fmt, base + k);
    SpecStep(f, lpref, args, p, k);
    assert fmt[base..base + k] == f[..k] && (k < |f| ==> f[k + 1..] == fmt[base + k + 1..]);
    var c := At(fmt, base + k);
    ofs := k + 1;
    rest := args;
    if IsField(c) {
      var outstr;
      outstr, rest := ConvertField(c, lpref, args, p);
      e := Field(width, outstr);
    } else if c == '%' {
      assert fmt[base..base + ofs] == f[..k + 1];
      e := Literal;
    } else {
      e := Modifier(Modified(lpref, c));
    }
  }

  /** __nolibc_printf: what happens to the sink, and what is returned, is `Drive` of the format's chunks. */
  method Printf(sink: Sink, n: nat, fmt: CString, args: seq<Arg>, p: Platform) returns (ret: int)
    requires sink.Valid() && Matches(fmt, args, p)
    requires -(TWO32 / 2) <= p.errno < TWO32 / 2
    requires sink.Fits(Drive(sink.target, sink.State(), n, 0, Chunks("", fmt, args, p)).0)
    modifies sink, sink.buf
    ensures sink.Valid()
    ensures var (state, written) := Drive(sink.target, old(sink.State()), n, 0, Chunks("", fmt, args, p));
            sink.State() == state && ret == ToSigned(written, TWO32)
    ensures sink.buf[sink.pos..] == old(sink.buf[..])[sink.pos..]
  {
    hide Drive, Chunks, ChunksSpec, Matches, MatchesSpec;
    ghost var goal := Drive(sink.target, sink.State(), n, 0, Chunks("", fmt, args, p));
    var escape, lpref, written: nat, left, rest := false, 0, 0, n, args;
    var base, ofs := 0, 0;
    while true
      invariant 0 <= base <= base + ofs <= |fmt| && sink.Valid() && written < TWO32
      invariant escape ==> ofs == 0
      invariant Ready(escape, fmt[base + ofs..], lpref, rest, p)
      invariant Drive(sink.target, sink.State(), left, written,
                      Todo(escape, fmt[base..base + ofs], fmt[base + ofs..], lpref, rest, p)) == goal
      invariant sink.buf[sink.pos..] == old(sink.buf[..])[sink.pos..]
      decreases |fmt| - base - ofs
    {
      var width, outstr, last := 0, "", false;
      ghost var todo: seq<Chunk>;
      if escape {
        escape := false;
        var e;
        e, ofs, rest := ReadEscape(fmt, base, lpref, rest, p);
        last := base + ofs > |fmt|;
        if e.Literal? {
          continue;
        } else if e.Modifier? {
          lpref := e.lpref;
          escape := true;
          if last {
            DriveStep(sink.target, sink.State(), left, written, Chunk(0, ""), []);
            break;
          }
          base, ofs := base + ofs, 0;
          continue;
        }
        width, outstr := e.width, e.outstr;
        todo := Chunks("", fmt[base + ofs..], rest, p);
      } else {
        LiteralTurn(fmt, base, ofs, rest, p);
        var c := At(fmt, base + ofs);
        ofs := ofs + 1;
        if c != NUL && c != '%' {
          continue;
        }
        last := c == NUL;
        escape := true;
        lpref := 0;
        outstr := fmt[base..base + ofs - 1];
        todo := if last then [] else ChunksSpec(fmt[base + ofs..], 0, rest, p);
      }
      var ok;
      ok, left, written := Flush(sink, left, width, outstr, written, todo, old(sink.buf[..]));
      DriveStep(sink.target, sink.State(), left, written, Chunk(0, ""), []);
      if !ok || last {
        break;
      }
      base, ofs := base + ofs, 0;
      assert fmt[base..base] == "";
    }
    ret := ToSigned(written, TWO32);
  }

  // ---------- vsnprintf and vfprintf ----------

  /** What a call needs of the buffer: the bytes let through, and the terminator. */
  ghost predicate Room(length: nat, size: nat, cs: seq<Chunk>) {
    |Emit(cs, size)| <= length && (size > 0 ==> Min(Count(cs, size), size - 1) < length)
  }

  /** At a clean size the buffer holds the text cut to size - 1 and its terminator, and the result is its length. */
  lemma CleanStores(a: string, size: nat, cs: seq<Chunk>)
    requires size >= 1 && Clean(cs, size) && |Flat(cs)| < TWO32 / 2 && Room(|a|, size, cs)
    ensures ToSigned(Count(cs, size) % TWO32, TWO32) == |Flat(cs)|
    ensures |Take(Flat(cs), size - 1)| < |a|
    ensures Stored(a, 0, Emit(cs, size))[Min(|Flat(cs)|, size - 1) := NUL]
            == Stored(a, 0, Take(Flat(cs), size - 1) + [NUL])
  {
    hide Emit, Count, Flat, Clean, Stored;
    var text, out := Flat(cs), Emit(cs, size);
    TruncatesIffClean(cs, size);
    FlatLength(cs);
    EmitLength(cs, size);
    if |text| < size {
      assert out == Take(out, size - 1) == Take(text, size - 1) == text;
      StoredAppend(a, 0, out, NUL);
    } else {
      StoredReplace(a, 0, out, NUL);
      assert out[..size - 1] == Take(out, size - 1);
    }
  }

  /** A clean size asks of the buffer no more than itself, or than the text and its terminator. */
  lemma CleanRoom(length: nat, size: nat, cs: seq<Chunk>)
    requires size >= 1 && Clean(cs, size)
    requires size <= length || |Flat(cs)| < length
    ensures Room(length, size, cs)
  {
    hide Emit, Count, Flat, Clean;
    TruncatesIffClean(cs, size);
    FlatLength(cs);
    EmitLength(cs, size);
  }

  /** A text with room to spare, widths or not, is stored whole with its terminator, and counted. */
  lemma WholeTextFits(a: string, size: nat, fmt: CString, args: seq<Arg>, p: Platform)
    requires |Render(fmt, args, p)| < size && |Render(fmt, args, p)| < |a| && |Render(fmt, args, p)| < TWO32 / 2
    ensures var cs, text := Chunks("", fmt, args, p), Render(fmt, args, p);
            && Clean(cs, size) && Room(|a|, size, cs)
            && ToSigned(Count(cs, size) % TWO32, TWO32) == |text|
            && Stored(a, 0, Emit(cs, size))[Min(|text|, size - 1) := NUL] == Stored(a, 0, text + [NUL])
  {
    hide Chunks, Render, Emit, Count, Stored, Room;
    var cs, text := Chunks("", fmt, args, p), Render(fmt, args, p);
    WholeText(fmt, args, p);
    CleanRoom(|a|, size, cs);
    CleanStores(a, size, cs);
    assert Take(text, size - 1) == text;
  }

  lemma WholeText(fmt: CString, args: seq<Arg>, p: Platform)
    ensures Flat(Chunks("", fmt, args, p)) == Render(fmt, args, p)
  {
    ChunksRender("", fmt, args, p);
    assert "" + Render(fmt, args, p) == Render(fmt, args, p);
  }

  /**
   * Without widths, whatever the size: the text cut to size - 1 and its terminator, no byte beyond,
   * and the length of the whole text as the result.
   */
  lemma BoundedIsTruncation(a: string, size: nat, fmt: CString, args: seq<Arg>, p: Platform)
    requires WidthFree(fmt) && 1 <= size <= |a| && |Render(fmt, args, p)| < TWO32 / 2
    ensures var cs, text := Chunks("", fmt, args, p), Render(fmt, args, p);
            && Clean(cs, size) && Room(|a|, size, cs)
            && ToSigned(Count(cs, size) % TWO32, TWO32) == |text|
            && Stored(a, 0, Emit(cs, size))[Min(|text|, size - 1) := NUL] == Stored(a, 0, Take(text, size - 1) + [NUL])
  {
    hide Chunks, Render, WidthFree, Emit, Count, Stored, Room, CutsClean;
    var cs := Chunks("", fmt, args, p);
    WholeText(fmt, args, p);
    WidthFreeChunks("", fmt, args, p);
    NarrowCutsClean(cs, size);
    CleanRoom(|a|, size, cs);
    CleanStores(a, size, cs);
  }

  lemma ResultWhenClean(a: string, size: nat, fmt: CString, args: seq<Arg>, p: Platform)
    requires size >= 1 && |Render(fmt, args, p)| < TWO32 / 2 && Room(|a|, size, Chunks("", fmt, args, p))
    ensures var cs, text := Chunks("", fmt, args, p), Render(fmt, args, p);
            && (|Emit(cs, size)| <= size && ToSigned(Count(cs, size) % TWO32, TWO32) == |text| <==> Clean(cs, size))
            && (Clean(cs, size) ==>
                  && |Take(text, size - 1)| < |a|
                  && Stored(a, 0, Emit(cs, size))[Min(|text|, size - 1) := NUL]
                     == Stored(a, 0, Take(text, size - 1) + [NUL]))
  {
    hide Chunks, Render, Emit, Count, Stored, Clean, Flat;
    var cs := Chunks("", fmt, args, p);
    WholeText(fmt, args, p);
    TruncatesIffClean(cs, size);
    if Clean(cs, size) {
      CleanStores(a, size, cs);
    } else if |Emit(cs, size)| <= size {
      NotCounted(cs, size);
    }
  }

  /** Within its size but not clean: some blank is left out of the count. */
  lemma NotCounted(cs: seq<Chunk>, size: nat)
    requires size >= 1 && !Clean(cs, size) && |Emit(cs, size)| <= size
    ensures Count(cs, size) < |Flat(cs)|
  {
    hide Emit, Count, Flat, CutsClean;
    FlatLength(cs);
    EmitLength(cs, size);
    CutsCleanCounts(cs, size);
    if TextLength(cs) < size {
      BudgetLeft(cs, size);
    }
  }

  lemma StoredInFront(was: string, text: string, b: string)
    requires |text| <= |was| == |b| && b[..|text|] == text && b[|text|..] == was[|text|..]
    ensures b == Stored(was, 0, text)
  {
  }

  /**
   * vsnprintf; vsprintf is the call with SIZE_MAX for `size`. The buffer has room for what the code
   * writes, which for a padded text can be more than `size`. The call stays within `size` and returns
   * the length of the text if and only if the size is clean; then what it stores is the text, truncated.
   */
  method VSNPrintf(buf: array<char>, size: nat, fmt: CString, args: seq<Arg>, p: Platform) returns (ret: int)
    requires size >= 1 && Matches(fmt, args, p)
    requires -(TWO32 / 2) <= p.errno < TWO32 / 2
    requires Room(buf.Length, size, Chunks("", fmt, args, p))
    modifies buf
    ensures var cs := Chunks("", fmt, args, p);
            var stored := Stored(old(buf[..]), 0, Emit(cs, size));
            && ret == ToSigned(Count(cs, size) % TWO32, TWO32)
            && buf[..] == if ret < 0 then stored else stored[Min(ret, size - 1) := NUL]
    ensures var cs, text := Chunks("", fmt, args, p), Render(fmt, args, p);
            |text| < TWO32 / 2 ==> (|Emit(cs, size)| <= size && ret == |text| <==> Clean(cs, size))
    ensures var cs, text := Chunks("", fmt, args, p), Render(fmt, args, p);
            |text| < TWO32 / 2 && Clean(cs, size) ==>
              |Take(text, size - 1)| < buf.Length
              && buf[..] == Stored(old(buf[..]), 0, Take(text, size - 1) + [NUL])
    ensures var text := Render(fmt, args, p);
            WidthFree(fmt) && size <= buf.Length && |text| < TWO32 / 2 ==>
              ret == |text| && buf[..] == Stored(old(buf[..]), 0, Take(text, size - 1) + [NUL])
    ensures var text := Render(fmt, args, p);
            |text| < size && |text| < buf.Length && |text| < TWO32 / 2 ==>
              ret == |text| && buf[..] == Stored(old(buf[..]), 0, text + [NUL])
  {
    hide Chunks, Matches, Emit, Count, Render, WidthFree, Drive, Take, Stored, Clean;
    ghost var cs, was, text := Chunks("", fmt, args, p), buf[..], Render(fmt, args, p);
    if WidthFree(fmt) && size <= buf.Length && |text| < TWO32 / 2 {
      BoundedIsTruncation(was, size, fmt, args, p);
    }
    if |text| < size && |text| < buf.Length && |text| < TWO32 / 2 {
      WholeTextFits(was, size, fmt, args, p);
    }
    if |text| < TWO32 / 2 {
      ResultWhenClean(was, size, fmt, args, p);
    }
    var state := new Sink(Buffer, buf);
    assert state.State() == Progress("", 0);
    DriveBuffer(Progress("", 0), size, 0, cs);
    ret := Printf(state, size, fmt, args, p);
    assert "" + Emit(cs, size) == Emit(cs, size);
    assert buf[..][..state.pos] == buf[..state.pos] && buf[..][state.pos..] == buf[state.pos..];
    StoredInFront(was, Emit(cs, size), buf[..]);
    if ret < 0 {
      return;
    }
    buf[if ret < size then ret else size - 1] := NUL;
  }

  /** vfprintf: the same machine with SIZE_MAX for a budget, over a descriptor. */
  method VFPrintf(stream: Sink, fmt: CString, args: seq<Arg>, p: Platform) returns (ret: int)
    requires stream.Valid() && stream.target.Descriptor? && Matches(fmt, args, p)
    requires -(TWO32 / 2) <= p.errno < TWO32 / 2
    modifies stream, stream.buf
    ensures stream.Valid()
    ensures (stream.State(), ret) ==
            var cs := Chunks("", fmt, args, p);
            var (state, written) := Drive(stream.target, old(stream.State()), Modulus(p.w) - 1, 0, cs);
            (state, ToSigned(written, TWO32))
    ensures |Render(fmt, args, p)| < Modulus(p.w) ==>
              var arrived := |stream.out| - |old(stream.out)|;
              && ret <= arrived <= |Render(fmt, args, p)|
              && (arrived == |Render(fmt, args, p)| < TWO32 / 2 ==> ret == arrived)
    ensures (WidthFree(fmt) && |Render(fmt, args, p)| < Modulus(p.w))
            || (PadsHarmless(Chunks("", fmt, args, p)) && |Render(fmt, args, p)| < Modulus(p.w) - 1) ==>
              old(stream.out) <= stream.out <= old(stream.out) + Render(fmt, args, p)
    ensures Willing(stream.target, old(stream.calls)) && |Render(fmt, args, p)| < Modulus(p.w) - 1 ==>
              stream.out == old(stream.out) + Render(fmt, args, p)
  {
    hide Chunks, Render, Matches, WidthFree, Drive, PadsHarmless, Flat, NoWidths, Willing;
    ghost var start, cs := stream.State(), Chunks("", fmt, args, p);
    var n := Modulus(p.w) - 1;
    ret := Printf(stream, n, fmt, args, p);
    WholeText(fmt, args, p);
    if |Flat(cs)| <= n {
      if WidthFree(fmt) {
        WidthFreeChunks("", fmt, args, p);
      }
      ghost var counted, done := DescriptorPrefix(stream.target, start, n, 0, cs);
      ReturnedCount(counted);
    }
    if |Flat(cs)| < n {
      if PadsHarmless(cs) {
        HarmlessPrefix(stream.target, start, n, 0, cs);
      }
      if Willing(stream.target, start.calls) {
        EverythingArrives(stream.target, start, n, 0, cs);
      }
    }
  }

  /** The int that a count comes back as is never more than the count. */
  lemma ReturnedCount(counted: nat)
    ensures ToSigned(Add32(0, counted), TWO32) <= counted
    ensures counted < TWO32 / 2 ==> ToSigned(Add32(0, counted), TWO32) == counted
  {
  }
}
