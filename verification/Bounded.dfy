// When vsnprintf is bounded truncation. Padding goes by the text as it is cut and does
// not use up the budget, so with widths a call can write past its size or miscount.
// Which calls do neither is decided here, size by size and for all sizes at once.
module Bounded {
  import opened CStrings
  import opened Format
  import opened NumberParse
  import opened Numerals
  import opened Delivery

  function TextLength(cs: seq<Chunk>): nat {
    if cs == [] then 0 else |cs[0].text| + TextLength(cs[1..])
  }

  /** The blanks of the whole text. */
  function PadTotal(cs: seq<Chunk>): nat {
    if cs == [] then 0 else Padding(cs[0].width, |cs[0].text|) + PadTotal(cs[1..])
  }

  /** The blanks that go out under a budget. */
  function PadsOut(cs: seq<Chunk>, n: nat): nat {
    if cs == [] || n == 0 then 0
    else
      var w := Min(|cs[0].text|, n);
      Padding(cs[0].width, w) + PadsOut(cs[1..], n - w)
  }

  /** What a caller of vsnprintf expects: at most `size` bytes, those of the text, and all of it counted. */
  ghost predicate Truncates(cs: seq<Chunk>, size: nat)
    requires size >= 1
  {
    && |Emit(cs, size)| <= size
    && Take(Emit(cs, size), size - 1) == Take(Flat(cs), size - 1)
    && Count(cs, size) == |Flat(cs)|
  }

  /** Nothing is padded, and the text in which the budget ends keeps at least its width. */
  predicate CutsClean(cs: seq<Chunk>, n: nat) {
    cs == [] || (
      && Padding(cs[0].width, |cs[0].text|) == 0
      && (0 < n < |cs[0].text| ==> cs[0].width <= n)
      && CutsClean(cs[1..], n - Min(|cs[0].text|, n)))
  }

  /** Either everything fits, blanks included, or nothing is padded, not even where it is cut. */
  predicate Clean(cs: seq<Chunk>, size: nat) {
    |Flat(cs)| <= size || CutsClean(cs, size)
  }

  // ---------- counting text and blanks ----------

  lemma {:induction false} FlatLength(cs: seq<Chunk>)
    ensures |Flat(cs)| == TextLength(cs) + PadTotal(cs)
  {
    if cs != [] {
      FlatLength(cs[1..]);
    }
  }

  lemma {:induction false} EmitLength(cs: seq<Chunk>, n: nat)
    ensures |Emit(cs, n)| == Min(TextLength(cs), n) + PadsOut(cs, n)
    ensures Count(cs, n) == TextLength(cs) + PadsOut(cs, n)
  {
    if cs != [] {
      EmitLength(cs[1..], n - Min(|cs[0].text|, n));
    }
  }

  lemma {:induction false} CutsCleanCounts(cs: seq<Chunk>, n: nat)
    ensures CutsClean(cs, n) <==> PadTotal(cs) == 0 && PadsOut(cs, n) == 0
  {
    if cs != [] {
      CutsCleanCounts(cs[1..], n - Min(|cs[0].text|, n));
      if n == 0 {
        assert PadsOut(cs[1..], 0) == 0;
      }
    }
  }

  /** While some budget is left over, everything goes out as it should. */
  lemma {:induction false} BudgetLeft(cs: seq<Chunk>, n: nat)
    requires TextLength(cs) < n
    ensures Emit(cs, n) == Flat(cs) && PadsOut(cs, n) == PadTotal(cs)
  {
    if cs != [] {
      var text := cs[0].text;
      assert text[..|text|] == text;
      BudgetLeft(cs[1..], n - |text|);
    }
  }

  lemma {:induction false} CutsCleanTruncates(cs: seq<Chunk>, n: nat)
    requires CutsClean(cs, n)
    ensures Emit(cs, n) == Take(Flat(cs), n)
  {
    hide Padded, Blanks, Take;
    if cs == [] || n == 0 {
      TakeEnds(Flat(cs), n);
    } else {
      var c := cs[0];
      CutsCleanTruncates(cs[1..], n - Min(|c.text|, n));
      NoBlanks(c, Min(|c.text|, n));
      TakeConcat(c.text, Flat(cs[1..]), n);
    }
  }

  lemma NoBlanks(c: Chunk, w: nat)
    requires Padding(c.width, |c.text|) == 0 && Padding(c.width, w) == 0 && w <= |c.text|
    ensures Padded(c.width, c.text) == c.text
    ensures Blanks(Padding(c.width, w)) + c.text[..w] == c.text[..w]
  {
  }

  /** Where the budget ends: the chunks before it go out whole, then what fits of one text, padded as cut. */
  lemma {:induction false} CutAt(before: seq<Chunk>, c: Chunk, after: seq<Chunk>, n: nat)
    requires TextLength(before) < n <= TextLength(before) + |c.text|
    ensures Emit(before + [c] + after, n) == Flat(before) + Padded(c.width, c.text[..n - TextLength(before)])
    decreases |before|
  {
    hide Padded, Emit, Flat;
    if before == [] {
      assert before + [c] + after == [c] + after;
      EmitStep(c, after, n);
      FlatNothing();
    } else {
      var b, rest := before[0], before[1..] + [c] + after;
      assert before + [c] + after == [b] + rest;
      CutAt(before[1..], c, after, n - |b.text|);
      EmitStep(b, rest, n);
      FlatCons(b, before[1..]);
      assert before == [b] + before[1..];
    }
  }

  lemma EmitStep(c: Chunk, rest: seq<Chunk>, n: nat)
    requires n > 0
    ensures var w := Min(|c.text|, n);
            Emit([c] + rest, n) == Padded(c.width, c.text[..w]) + Emit(rest, n - w)
    ensures |c.text| <= n ==> c.text[..Min(|c.text|, n)] == c.text
    ensures Emit(rest, 0) == ""
  {
    assert ([c] + rest)[1..] == rest;
  }

  // ---------- one size ----------

  /** At every single size: the call truncates if and only if the size is clean for it. */
  lemma TruncatesIffClean(cs: seq<Chunk>, size: nat)
    requires size >= 1
    ensures Truncates(cs, size) <==> Clean(cs, size)
    ensures |Emit(cs, size)| <= size ==> Count(cs, size) <= |Flat(cs)|
  {
    hide Emit, Flat, Count, CutsClean, TextLength, PadTotal, PadsOut, Take;
    FlatLength(cs);
    EmitLength(cs, size);
    CutsCleanCounts(cs, size);
    if TextLength(cs) < size {
      BudgetLeft(cs, size);
    } else {
      if CutsClean(cs, size) {
        CutsCleanTruncates(cs, size);
        TakeTwice(Flat(cs), size - 1, size);
      } else if |Flat(cs)| <= size {
        NothingToPad(cs, size);
      }
    }
  }

  lemma TakeTwice(s: string, m: nat, n: nat)
    requires m <= n
    ensures Take(Take(s, n), m) == Take(s, m)
  {
  }

  /** A text that just fits and has no blanks is never cut. */
  lemma {:induction false} NothingToPad(cs: seq<Chunk>, n: nat)
    requires PadTotal(cs) == 0 && TextLength(cs) <= n
    ensures PadsOut(cs, n) == 0
  {
    if cs != [] {
      NothingToPad(cs[1..], n - |cs[0].text|);
    }
  }

  // ---------- all sizes ----------

  /** No width does anything, at any cut: at most 1, and 1 only before some text. */
  predicate Narrow(cs: seq<Chunk>) {
    forall c <- cs :: c.width == 0 || (c.width == 1 && c.text != "")
  }

  lemma {:induction false} NarrowCutsClean(cs: seq<Chunk>, n: nat)
    requires Narrow(cs)
    ensures CutsClean(cs, n)
  {
    if cs != [] {
      NarrowCutsClean(cs[1..], n - Min(|cs[0].text|, n));
      assert cs[0] in cs;
    }
  }

  /** A width of 2 or more on an unpadded text shows as soon as the budget ends behind its first character. */
  lemma {:induction false} WideCut(cs: seq<Chunk>) returns (n: nat)
    requires PadTotal(cs) == 0 && !Narrow(cs)
    ensures 1 <= n < TextLength(cs) && !CutsClean(cs, n)
  {
    var c := cs[0];
    if c.width > 1 {
      n := 1;
    } else {
      n := WideCut(cs[1..]);
      n := n + |c.text|;
    }
  }

  /** The call truncates at every size if and only if no width does anything, or the whole text is one blank. */
  lemma AlwaysTruncatesIffNarrow(cs: seq<Chunk>)
    ensures (forall size: nat :: size >= 1 ==> Truncates(cs, size)) <==> Narrow(cs) || Flat(cs) == " "
  {
    hide Truncates, Flat;
    FlatLength(cs);
    if Narrow(cs) || Flat(cs) == " " {
      forall size: nat | size >= 1
        ensures Truncates(cs, size)
      {
        if Narrow(cs) {
          NarrowCutsClean(cs, size);
        }
        TruncatesIffClean(cs, size);
      }
    } else if PadTotal(cs) > 0 {
      CutsCleanCounts(cs, 1);
      if |Flat(cs)| <= 1 {
        OneBlankOnly(cs);
      }
      TruncatesIffClean(cs, 1);
      assert !Truncates(cs, 1);
    } else {
      var n := WideCut(cs);
      TruncatesIffClean(cs, n);
      assert !Truncates(cs, n);
    }
  }

  lemma {:induction false} OneBlankOnly(cs: seq<Chunk>)
    requires PadTotal(cs) > 0 && |Flat(cs)| <= 1
    ensures Flat(cs) == " "
  {
    FlatLength(cs);
    FlatLength(cs[1..]);
    if Padding(cs[0].width, |cs[0].text|) == 0 {
      OneBlankOnly(cs[1..]);
      assert Padded(cs[0].width, cs[0].text) == "";
    } else {
      assert Flat(cs[1..]) == "" && cs[0].text == "";
      assert Padded(cs[0].width, "") == " ";
    }
  }

  // ---------- two calls that go wrong ----------

  /** snprintf(buf, 1, "%2d", 1) writes two bytes. */
  lemma WritesPastSize(p: Platform)
    ensures Render("%2d", [Num(1)], p) == " 1" && Matches("%2d", [Num(1)], p)
    ensures Emit(Chunks("", "%2d", [Num(1)], p), 1) == " 1"
  {
    hide Emit;
    PaddedOne(p);
    var cs := [Chunk(0, ""), Chunk(2, "1"), Chunk(0, "")];
    EmitOf(cs);
  }

  lemma EmitOf(cs: seq<Chunk>)
    requires cs == [Chunk(0, ""), Chunk(2, "1"), Chunk(0, "")]
    ensures Emit(cs, 1) == " 1"
  {
    assert Emit(cs[1..][1..], 0) == "";
    assert Padding(2, 1) == 1 && Blanks(1) == " " && Blanks(0) == "";
    assert Emit(cs[1..], 1) == " 1";
  }

  lemma PaddedOne(p: Platform)
    ensures Chunks("", "%2d", [Num(1)], p) == [Chunk(0, ""), Chunk(2, "1"), Chunk(0, "")]
    ensures Render("%2d", [Num(1)], p) == " 1" && Matches("%2d", [Num(1)], p)
  {
  }

  /** snprintf(buf, 2, "ab%1s", "") stays in its buffer, but returns 2 for a text of 3. */
  lemma Miscounts(p: Platform)
    ensures Render("ab%1s", [Str("")], p) == "ab " && Matches("ab%1s", [Str("")], p)
    ensures var cs := Chunks("", "ab%1s", [Str("")], p);
            |Emit(cs, 2)| == 2 && Count(cs, 2) == 2
  {
    hide Emit, Count;
    EmptyPadded(p);
    var cs := [Chunk(0, "ab"), Chunk(1, ""), Chunk(0, "")];
    EmitLength(cs, 2);
    assert TextLength(cs[1..][1..]) == 0 && PadsOut(cs[1..], 0) == 0;
  }

  lemma EmptyPadded(p: Platform)
    ensures Chunks("", "ab%1s", [Str("")], p) == [Chunk(0, "ab"), Chunk(1, ""), Chunk(0, "")]
    ensures Render("ab%1s", [Str("")], p) == "ab " && Matches("ab%1s", [Str("")], p)
  {
    hide ChunksSpec, RenderSpec, MatchesSpec;
    BlankField(p);
    var f := "%1s";
    assert f[1..] == "1s";
    assert Chunks("ab", f, [Str("")], p) == [Chunk(0, "ab"), Chunk(1, ""), Chunk(0, "")];
    assert "a" + ['b'] == "ab" && "" + ['a'] == "a";
    assert "b%1s"[1..] == f && "ab%1s"[1..] == "b%1s";
    assert Chunks("a", "b%1s", [Str("")], p) == Chunks("ab", f, [Str("")], p);
  }

  lemma BlankField(p: Platform)
    ensures ChunksSpec("1s", 0, [Str("")], p) == [Chunk(1, ""), Chunk(0, "")]
    ensures RenderSpec("1s", 0, [Str("")], p) == " " && MatchesSpec("1s", 0, [Str("")], p)
  {
    var spec := "1s";
    assert spec[1..] == "s" && "s"[0] == 's' && DigitRun("s", 10) == 0;
    assert DigitRun(spec, 10) == 1 && spec[..1] == "1" && spec[2..] == "" && spec[1] == 's';
    WidthOne();
  }

  lemma WidthOne()
    ensures WidthOf("1") == 1
  {
    assert "1"[..0] == "" && Value("", 10) == 0;
  }
}
