// Exactly when a failing write() can leave something on the descriptor that is not a
// prefix of the text: the padding loop of stdio.h stops at an error without reporting it.
module WriteErrors {
  import opened CTypes
  import opened CStrings
  import opened Format
  import opened Delivery
  import opened Bounded

  predicate AllBlank(s: string) {
    forall i :: 0 <= i < |s| ==> s[i] == ' '
  }

  /** Behind the first blank of padding there is nothing but blanks. */
  predicate PadsHarmless(cs: seq<Chunk>) {
    cs == [] || (
      && (Padding(cs[0].width, |cs[0].text|) > 0 ==> AllBlank(cs[0].text + Flat(cs[1..])))
      && PadsHarmless(cs[1..]))
  }

  ghost predicate PrefixArrives(oracle: nat -> int, p: Progress, n: nat, cs: seq<Chunk>) {
    var q := Drive(Descriptor(oracle), p, n, 0, cs).0;
    p.out <= q.out <= p.out + Flat(cs)
  }

  // ---------- harmless padding ----------

  lemma BlankPrefix(a: string, b: string)
    requires AllBlank(a) && AllBlank(b) && |a| <= |b|
    ensures a <= b
  {
  }

  /** Blanks stay blanks, and there are never more of them. */
  lemma {:induction false} BlanksArrive(t: Target, p: Progress, n: nat, written: nat, cs: seq<Chunk>)
    requires AllBlank(Flat(cs)) && n > |Flat(cs)|
    ensures var q := Drive(t, p, n, written, cs).0;
            p.out <= q.out && |q.out| <= |p.out| + |Flat(cs)| && AllBlank(q.out[|p.out|..])
    decreases |cs|
  {
    hide Pads, Callback, Padding, Drive, Add32, AllBlank, Blanks;
    if cs == [] {
      DriveStep(t, p, n, written, Chunk(0, ""), []);
      AddBlanks(0, "");
      assert p.out[|p.out|..] == Blanks(0) + "";
    } else {
      var c, rest := cs[0], cs[1..];
      assert cs == [c] + rest;
      var k := Padding(c.width, |c.text|);
      assert Flat(cs) == (Blanks(k) + c.text) + Flat(rest);
      BlankParts(Blanks(k) + c.text, Flat(rest));
      BlankParts(Blanks(k), c.text);
      DriveStep(t, p, n, written, c, rest);
      assert c.text[..|c.text|] == c.text;
      PadsDeliver(t, p, k);
      var (p1, done) := Pads(t, p, k);
      CallbackDelivers(t, p1, c.text);
      var (p2, ok) := Callback(t, p1, c.text);
      BlankHead(p.out, done, p1.out, c.text, p2.out);
      if ok {
        BlanksArrive(t, p2, n - |c.text|, Add32(written, done + |c.text|), rest);
        var q := Drive(t, p2, n - |c.text|, Add32(written, done + |c.text|), rest).0;
        assert q.out[|p.out|..] == p2.out[|p.out|..] + q.out[|p2.out|..];
        BlankSum(p2.out[|p.out|..], q.out[|p2.out|..]);
      }
    }
  }

  lemma BlankHead(before: string, done: nat, padded: string, text: string, after: string)
    requires padded == before + Blanks(done) && padded <= after <= padded + text && AllBlank(text)
    ensures before <= after && AllBlank(after[|before|..]) && |after| <= |before| + done + |text|
  {
    forall i | |before| <= i < |after| ensures after[i] == ' ' {
      assert after[i] == (padded + text)[i];
    }
  }

  lemma BlankSum(a: string, b: string)
    requires AllBlank(a) && AllBlank(b)
    ensures AllBlank(a + b)
  {
  }

  lemma BlankParts(a: string, b: string)
    requires AllBlank(a + b)
    ensures AllBlank(a) && AllBlank(b)
  {
    assert forall i :: 0 <= i < |a| ==> a[i] == (a + b)[i];
    assert forall i :: 0 <= i < |b| ==> b[i] == (a + b)[|a| + i];
  }

  lemma {:induction false} HarmlessPrefix(t: Target, p: Progress, n: nat, written: nat, cs: seq<Chunk>)
    requires PadsHarmless(cs) && n > |Flat(cs)|
    ensures var q := Drive(t, p, n, written, cs).0;
            p.out <= q.out <= p.out + Flat(cs)
    decreases |cs|
  {
    hide Pads, Callback, Drive, Add32, AllBlank;
    if cs == [] {
      DriveStep(t, p, n, written, Chunk(0, ""), []);
    } else if Padding(cs[0].width, |cs[0].text|) > 0 {
      AddBlanks(Padding(cs[0].width, |cs[0].text|), cs[0].text + Flat(cs[1..]));
      assert Flat(cs) == Blanks(Padding(cs[0].width, |cs[0].text|)) + (cs[0].text + Flat(cs[1..]));
      BlanksArrive(t, p, n, written, cs);
      var q := Drive(t, p, n, written, cs).0;
      var extra := q.out[|p.out|..];
      BlankPrefix(extra, Flat(cs));
      assert q.out == p.out + extra;
      assert p.out + extra <= p.out + Flat(cs);
    } else {
      var c, rest := cs[0], cs[1..];
      assert cs == [c] + rest;
      assert Padded(c.width, c.text) == c.text;
      assert Flat(cs) == c.text + Flat(rest);
      DriveStep(t, p, n, written, c, rest);
      assert c.text[..|c.text|] == c.text;
      PadsStep(t, p, 0);
      CallbackDelivers(t, p, c.text);
      var (p2, ok) := Callback(t, p, c.text);
      assert p.out + Flat(cs) == (p.out + c.text) + Flat(rest);
      if ok {
        HarmlessPrefix(t, p2, n - |c.text|, Add32(written, 0 + |c.text|), rest);
      }
    }
  }

  lemma AddBlanks(k: nat, s: string)
    requires AllBlank(s)
    ensures AllBlank(Blanks(k) + s)
  {
  }

  // ---------- one failing call ----------

  /** A descriptor that fails at one call and takes everything at the others. */
  function FailAt(bad: nat, large: nat): nat -> int {
    call => if call == bad then -1 else large
  }

  lemma Accepted(bad: nat, large: nat, p: Progress, text: string)
    requires |text| <= large && (text == "" || p.calls != bad)
    ensures Callback(Descriptor(FailAt(bad, large)), p, text)
            == (Progress(p.out + text, p.calls + if text == "" then 0 else 1), true)
  {
    var o := FailAt(bad, large);
    if text == "" {
      assert p.out + text == p.out;
    } else {
      assert WriteResult(o, p.calls, |text|) == |text|;
      assert text[..|text|] == text && text[|text|..] == "";
      assert WriteAll(o, Progress(p.out + text, p.calls + 1), "") == (Progress(p.out + text, p.calls + 1), true);
    }
  }

  lemma {:induction false} PadsAccepted(bad: nat, large: nat, p: Progress, k: nat)
    requires large > 0 && !(p.calls <= bad < p.calls + k)
    ensures Pads(Descriptor(FailAt(bad, large)), p, k) == (Progress(p.out + Blanks(k), p.calls + k), k)
    decreases k
  {
    hide Callback, Pads;
    PadsStep(Descriptor(FailAt(bad, large)), p, k);
    if k == 0 {
      assert p.out + Blanks(0) == p.out;
    } else {
      Accepted(bad, large, p, " ");
      PadsAccepted(bad, large, Progress(p.out + " ", p.calls + 1), k - 1);
      assert (p.out + " ") + Blanks(k - 1) == p.out + Blanks(k);
    }
  }

  function CallsFor(c: Chunk): nat {
    Padding(c.width, |c.text|) + if c.text == "" then 0 else 1
  }

  /** A chunk before the failing call arrives whole. */
  lemma ChunkAccepted(bad: nat, large: nat, p: Progress, n: nat, written: nat, c: Chunk, rest: seq<Chunk>)
    requires 0 < large && |c.text| <= large && n > |c.text| && !(p.calls <= bad < p.calls + CallsFor(c))
    ensures var t := Descriptor(FailAt(bad, large));
            Drive(t, p, n, written, [c] + rest)
            == Drive(t, Progress(p.out + Padded(c.width, c.text), p.calls + CallsFor(c)), n - |c.text|,
                     Add32(written, Padding(c.width, |c.text|) + |c.text|), rest)
  {
    hide Callback, Pads, Drive, Add32, FailAt;
    var t, k := Descriptor(FailAt(bad, large)), Padding(c.width, |c.text|);
    DriveStep(t, p, n, written, c, rest);
    assert c.text[..|c.text|] == c.text;
    PadsAccepted(bad, large, p, k);
    Accepted(bad, large, Progress(p.out + Blanks(k), p.calls + k), c.text);
    assert (p.out + Blanks(k)) + c.text == p.out + Padded(c.width, c.text);
  }

  lemma {:induction false} AllAccepted(bad: nat, large: nat, p: Progress, n: nat, written: nat, cs: seq<Chunk>)
    requires 0 < large && |Flat(cs)| <= large && n > |Flat(cs)| && bad < p.calls
    ensures Drive(Descriptor(FailAt(bad, large)), p, n, written, cs).0.out == p.out + Flat(cs)
    decreases |cs|
  {
    hide Drive, FailAt, CallsFor;
    var t := Descriptor(FailAt(bad, large));
    if cs == [] {
      DriveStep(t, p, n, written, Chunk(0, ""), []);
    } else {
      var c, rest := cs[0], cs[1..];
      assert cs == [c] + rest;
      ChunkAccepted(bad, large, p, n, written, c, rest);
      var p' := Progress(p.out + Padded(c.width, c.text), p.calls + CallsFor(c));
      var w' := Add32(written, Padding(c.width, |c.text|) + |c.text|);
      AllAccepted(bad, large, p', n - |c.text|, w', rest);
      assert p'.out + Flat(rest) == p.out + Flat(cs);
    }
  }

  /** If a text is its own continuation behind a blank, it is blank throughout. */
  lemma {:induction false} ShiftedIsBlank(k: nat, s: string)
    requires k > 0 && s <= Blanks(k) + s
    ensures AllBlank(s)
  {
    var t := Blanks(k) + s;
    var i := 0;
    while i < |s|
      invariant 0 <= i <= |s| && forall j :: 0 <= j < i ==> s[j] == ' '
    {
      assert s[i] == t[i] == if i < k then ' ' else s[i - k];
      i := i + 1;
    }
  }

  /** The call to fail so that something else than a prefix arrives. */
  lemma {:induction false} HarmfulCall(p: Progress, n: nat, written: nat, cs: seq<Chunk>, large: nat) returns (bad: nat)
    requires !PadsHarmless(cs) && n > |Flat(cs)| && large > 0 && large >= |Flat(cs)|
    ensures bad >= p.calls
    ensures !(Drive(Descriptor(FailAt(bad, large)), p, n, written, cs).0.out <= p.out + Flat(cs))
    decreases |cs|
  {
    hide Drive, FailAt, Callback, Pads, CallsFor, Add32, AllBlank;
    var c, rest := cs[0], cs[1..];
    assert cs == [c] + rest;
    var k := Padding(c.width, |c.text|);
    assert Flat(cs) == Padded(c.width, c.text) + Flat(rest) == Blanks(k) + (c.text + Flat(rest));
    if k > 0 && !AllBlank(c.text + Flat(rest)) {
      bad := p.calls;
      LostPad(p, n, written, c, rest, large);
      if c.text + Flat(rest) <= Blanks(k) + (c.text + Flat(rest)) {
        ShiftedIsBlank(k, c.text + Flat(rest));
      }
      SamePrefix(p.out, c.text + Flat(rest), Flat(cs));
    } else {
      var p' := Progress(p.out + Padded(c.width, c.text), p.calls + CallsFor(c));
      bad := HarmfulCall(p', n - |c.text|, 0, rest, large);
      ChunkAccepted(bad, large, p, n, written, c, rest);
      var t := Descriptor(FailAt(bad, large));
      var w' := Add32(written, Padding(c.width, |c.text|) + |c.text|);
      WrittenIrrelevant(t, p', n - |c.text|, w', 0, rest);
      assert p'.out + Flat(rest) == p.out + Flat(cs);
    }
  }

  lemma SamePrefix(a: string, b: string, c: string)
    ensures a + b <= a + c <==> b <= c
  {
    if a + b <= a + c {
      assert (a + b)[|a|..] == b && (a + c)[|a|..] == c;
      assert forall i :: 0 <= i < |b| ==> b[i] == (a + b)[|a| + i] == (a + c)[|a| + i] == c[i];
    }
  }

  /** The count does not influence what is delivered. */
  lemma {:induction false} WrittenIrrelevant(t: Target, p: Progress, n: nat, w: nat, w': nat, cs: seq<Chunk>)
    ensures Drive(t, p, n, w, cs).0 == Drive(t, p, n, w', cs).0
    decreases |cs|
  {
    hide Pads, Callback, Padding, Drive, Add32;
    if cs == [] {
      DriveStep(t, p, n, w, Chunk(0, ""), []);
      DriveStep(t, p, n, w', Chunk(0, ""), []);
    } else {
      var c, rest := cs[0], cs[1..];
      assert cs == [c] + rest;
      DriveStep(t, p, n, w, c, rest);
      DriveStep(t, p, n, w', c, rest);
      var m := Min(|c.text|, n);
      var (p1, padded) := Pads(t, p, Padding(c.width, m));
      var p2 := Callback(t, p1, c.text[..m]).0;
      WrittenIrrelevant(t, p2, n - m, Add32(w, padded + |c.text|), Add32(w', padded + |c.text|), rest);
      WrittenIrrelevant(t, p, 0, Add32(w, |c.text|), Add32(w', |c.text|), rest);
    }
  }

  /** The first blank fails: the text and everything after it arrive without the padding. */
  lemma LostPad(p: Progress, n: nat, written: nat, c: Chunk, rest: seq<Chunk>, large: nat)
    requires Padding(c.width, |c.text|) > 0
    requires |c.text| + |Flat(rest)| < n && 0 < large && |c.text| + |Flat(rest)| <= large
    ensures Drive(Descriptor(FailAt(p.calls, large)), p, n, written, [c] + rest).0.out
            == p.out + (c.text + Flat(rest))
  {
    hide Drive, Callback, Pads, Padding, Add32;
    var o := FailAt(p.calls, large);
    var t := Descriptor(o);
    var p1 := p.(calls := p.calls + 1);
    DriveStep(t, p, n, written, c, rest);
    PadsStep(t, p, Padding(c.width, |c.text|));
    FirstFails(o, p);
    assert c.text[..|c.text|] == c.text;
    Accepted(p.calls, large, p1, c.text);
    var p2 := Callback(t, p1, c.text).0;
    AllAccepted(p.calls, large, p2, n - |c.text|, Add32(written, 0 + |c.text|), rest);
    assert (p.out + c.text) + Flat(rest) == p.out + (c.text + Flat(rest));
  }

  lemma FirstFails(oracle: nat -> int, p: Progress)
    requires oracle(p.calls) < 0
    ensures Callback(Descriptor(oracle), p, " ") == (p.(calls := p.calls + 1), false)
  {
  }

  /**
   * With a budget for all of it, a prefix of the text arrives whatever write() does, if and only if
   * nothing but blanks follows the first blank of padding.
   */
  lemma PrefixIffHarmless(cs: seq<Chunk>, n: nat)
    requires n > |Flat(cs)|
    ensures (forall oracle, p :: PrefixArrives(oracle, p, n, cs)) <==> PadsHarmless(cs)
  {
    if PadsHarmless(cs) {
      forall oracle, p ensures PrefixArrives(oracle, p, n, cs) {
        HarmlessPrefix(Descriptor(oracle), p, n, 0, cs);
      }
    } else {
      var bad := HarmfulCall(Progress("", 0), n, 0, cs, |Flat(cs)| + 1);
      assert !PrefixArrives(FailAt(bad, |Flat(cs)| + 1), Progress("", 0), n, cs);
    }
  }

  /** fprintf(f, "%2d", 1): an error on the blank is not noticed, and the digit follows without it. */
  lemma PaddingErrorIsLost(oracle: nat -> int, platform: Platform)
    requires oracle(0) < 0 && oracle(1) > 0
    ensures Render("%2d", [Num(1)], platform) == " 1"
    ensures Drive(Descriptor(oracle), Progress("", 0), 10, 0, Chunks("", "%2d", [Num(1)], platform))
            == (Progress("1", 2), 1)
  {
    hide Drive, Pads, Chunks;
    PaddedOne(platform);
    var t := Descriptor(oracle);
    var first, second, third := Chunk(0, ""), Chunk(2, "1"), Chunk(0, "");
    var start, lost, end := Progress("", 0), Progress("", 1), Progress("1", 2);
    assert [first, second, third] == [first] + ([second] + ([third] + []));
    NothingWritten(t, start, 10, 0, [second] + ([third] + []));
    DriveStep(t, start, 10, 0, second, [third] + []);
    PadsStep(t, start, 1);
    FirstFails(oracle, start);
    OneWritten(oracle);
    assert "1"[..1] == "1";
    NothingWritten(t, end, 9, 1, []);
    DriveStep(t, end, 9, 1, third, []);
  }

  /** An empty chunk makes no call. */
  lemma NothingWritten(t: Target, p: Progress, n: nat, written: nat, rest: seq<Chunk>)
    requires n > 0 && written < TWO32
    ensures Drive(t, p, n, written, [Chunk(0, "")] + rest) == Drive(t, p, n, written, rest)
  {
    hide Drive, Pads;
    DriveStep(t, p, n, written, Chunk(0, ""), rest);
    PadsStep(t, p, 0);
    assert ""[..0] == "" && p.out + "" == p.out;
  }

  lemma OneWritten(oracle: nat -> int)
    requires oracle(1) > 0
    ensures Callback(Descriptor(oracle), Progress("", 1), "1") == (Progress("1", 2), true)
  {
    assert "1"[..1] == "1" && "1"[1..] == "" && "" + "1" == "1";
  }
}
