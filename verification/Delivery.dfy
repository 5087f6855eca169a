// Where formatted text goes: the two callbacks of stdio.h, the loop that pads and
// hands out chunks against a budget, and what arrives at the other end.
module Delivery {
  import opened CTypes
  import opened CStrings
  import opened Format
  import opened NumberParse

  /** A memory buffer, or a descriptor whose n-th write() call returns `oracle(n)` if it can. */
  datatype Target = Buffer | Descriptor(oracle: nat -> int)

  /** What has been delivered, and how many write() calls were made for it. */
  datatype Progress = Progress(out: string, calls: nat)

  /** What one write() of a non-empty text returns: an error, or a count of 1 up to its length. */
  function WriteResult(oracle: nat -> int, calls: nat, size: nat): int {
    var r := oracle(calls);
    if r > size then size else r
  }

  /** _fwrite: retry after short writes, stop at the first error. */
  function WriteAll(oracle: nat -> int, p: Progress, text: string): (Progress, bool)
    decreases |text|
  {
    if text == "" then (p, true)
    else
      var r := WriteResult(oracle, p.calls, |text|);
      if r <= 0 then (p.(calls := p.calls + 1), false)
      else WriteAll(oracle, Progress(p.out + text[..r], p.calls + 1), text[r..])
  }

  function Callback(t: Target, p: Progress, text: string): (Progress, bool) {
    match t
    case Buffer => (p.(out := p.out + text), true)
    case Descriptor(oracle) => WriteAll(oracle, p, text)
  }

  /** Up to `k` blanks, stopping at a failure; how many were delivered. */
  function Pads(t: Target, p: Progress, k: nat): (Progress, nat)
    decreases k
  {
    if k == 0 then (p, 0)
    else
      var (p', ok) := Callback(t, p, " ");
      if !ok then (p', 0)
      else
        var (q, done) := Pads(t, p', k - 1);
        (q, done + 1)
  }

  /** Addition in an unsigned int. */
  function Add32(a: nat, b: nat): (c: nat)
    ensures c < TWO32
  {
    (a + b) % TWO32
  }

  /** The flush loop: `n` is the budget, which padding does not use up; `written` is an unsigned int. */
  function Drive(t: Target, p: Progress, n: nat, written: nat, cs: seq<Chunk>): (Progress, nat)
    decreases |cs|
  {
    if cs == [] then (p, written)
    else
      var len := |cs[0].text|;
      if n == 0 then Drive(t, p, 0, Add32(written, len), cs[1..])
      else
        var w := Min(len, n);
        var (p1, padded) := Pads(t, p, Padding(cs[0].width, w));
        var (p2, ok) := Callback(t, p1, cs[0].text[..w]);
        if !ok then (p2, Add32(written, padded))
        else Drive(t, p2, n - w, Add32(written, padded + len), cs[1..])
  }

  lemma PadsStep(t: Target, p: Progress, k: nat)
    ensures Pads(t, p, 0) == (p, 0)
    ensures k > 0 ==>
              var (p', ok) := Callback(t, p, " ");
              var (q, done) := Pads(t, p', k - 1);
              Pads(t, p, k) == if ok then (q, done + 1) else (p', 0)
  {
  }

  lemma DriveStep(t: Target, p: Progress, n: nat, written: nat, c: Chunk, todo: seq<Chunk>)
    ensures Drive(t, p, n, written, []) == (p, written)
    ensures n == 0 ==> Drive(t, p, 0, written, [c] + todo) == Drive(t, p, 0, Add32(written, |c.text|), todo)
    ensures n > 0 ==>
              var w := Min(|c.text|, n);
              var (p1, padded) := Pads(t, p, Padding(c.width, w));
              var (p2, ok) := Callback(t, p1, c.text[..w]);
              Drive(t, p, n, written, [c] + todo)
              == if ok then Drive(t, p2, n - w, Add32(written, padded + |c.text|), todo)
                 else (p2, Add32(written, padded))
  {
    assert ([c] + todo)[1..] == todo;
  }

  // ---------- short writes ----------

  /** Whatever write() does, a prefix arrives; and it is everything exactly when success is reported. */
  lemma {:induction false} WriteAllDelivers(oracle: nat -> int, p: Progress, text: string)
    ensures var (q, ok) := WriteAll(oracle, p, text);
            && p.out <= q.out <= p.out + text
            && (ok <==> q.out == p.out + text)
    decreases |text|
  {
    if text != "" {
      var r := WriteResult(oracle, p.calls, |text|);
      if r > 0 {
        var p' := Progress(p.out + text[..r], p.calls + 1);
        assert p'.out + text[r..] == p.out + text;
        WriteAllDelivers(oracle, p', text[r..]);
      }
    }
  }

  /** It stops at the first error: every other write() took something. Nothing to write is no call. */
  lemma {:induction false} StopsAtFirstError(oracle: nat -> int, p: Progress, text: string)
    ensures var (q, ok) := WriteAll(oracle, p, text);
            && p.calls <= q.calls <= p.calls + |text|
            && (forall call :: p.calls <= call < q.calls - (if ok then 0 else 1) ==> oracle(call) > 0)
            && (!ok ==> q.calls > p.calls && oracle(q.calls - 1) <= 0)
    decreases |text|
  {
    if text != "" {
      var r := WriteResult(oracle, p.calls, |text|);
      if r > 0 {
        StopsAtFirstError(oracle, Progress(p.out + text[..r], p.calls + 1), text[r..]);
      }
    }
  }

  lemma CallbackDelivers(t: Target, p: Progress, text: string)
    ensures var (q, ok) := Callback(t, p, text);
            && p.out <= q.out <= p.out + text
            && (ok <==> q.out == p.out + text)
            && (t.Buffer? ==> ok && q.calls == p.calls)
  {
    if t.Descriptor? {
      WriteAllDelivers(t.oracle, p, text);
    }
  }

  lemma {:induction false} PadsDeliver(t: Target, p: Progress, k: nat)
    ensures var (q, done) := Pads(t, p, k);
            && done <= k && q.out == p.out + Blanks(done)
            && (t.Buffer? ==> done == k && q.calls == p.calls)
    decreases k
  {
    if k > 0 {
      CallbackDelivers(t, p, " ");
      var (p', ok) := Callback(t, p, " ");
      if ok {
        PadsDeliver(t, p', k - 1);
        var done := Pads(t, p', k - 1).1;
        assert " " + Blanks(done) == Blanks(done + 1);
      } else {
        assert p'.out != p.out + " ";
        assert p'.out == p.out;
      }
      assert Blanks(0) == "";
    } else {
      assert p.out + Blanks(0) == p.out;
    }
  }

  /** Output is only ever added to. */
  lemma {:induction false} DriveExtends(t: Target, p: Progress, n: nat, written: nat, cs: seq<Chunk>)
    ensures p.out <= Drive(t, p, n, written, cs).0.out
    decreases |cs|
  {
    hide Pads, Callback, Padding, Add32;
    if cs != [] {
      var len := |cs[0].text|;
      if n == 0 {
        DriveExtends(t, p, 0, Add32(written, len), cs[1..]);
      } else {
        var w := Min(len, n);
        var (p1, padded) := Pads(t, p, Padding(cs[0].width, w));
        PadsDeliver(t, p, Padding(cs[0].width, w));
        CallbackDelivers(t, p1, cs[0].text[..w]);
        DriveExtends(t, Callback(t, p1, cs[0].text[..w]).0, n - w, Add32(written, padded + len), cs[1..]);
      }
    }
  }

  // ---------- a buffer ----------

  /** What a budget of `n` lets through: the padding goes by the truncated text. */
  function Emit(cs: seq<Chunk>, n: nat): string {
    if cs == [] || n == 0 then ""
    else
      var w := Min(|cs[0].text|, n);
      Blanks(Padding(cs[0].width, w)) + cs[0].text[..w] + Emit(cs[1..], n - w)
  }

  /** The count that comes back: all the text, and the padding that went out. */
  function Count(cs: seq<Chunk>, n: nat): nat {
    if cs == [] then 0
    else
      var len := |cs[0].text|;
      var w := Min(len, n);
      (if n == 0 then 0 else Padding(cs[0].width, w)) + len + Count(cs[1..], n - w)
  }

  lemma CountStep(a: nat, b: nat, c: nat)
    ensures Add32(Add32(a, b), c) == Add32(a, b + c)
    ensures a < TWO32 ==> Add32(a, 0) == a
  {
    ReducedFirst(a + b, c);
  }

  lemma ReducedFirst(x: nat, c: nat)
    ensures (x % TWO32 + c) % TWO32 == (x + c) % TWO32
  {
  }

  lemma {:induction false} DriveBuffer(p: Progress, n: nat, written: nat, cs: seq<Chunk>)
    requires written < TWO32
    ensures Drive(Buffer, p, n, written, cs)
            == (p.(out := p.out + Emit(cs, n)), Add32(written, Count(cs, n)))
    decreases |cs|
  {
    hide Padding, Blanks, Pads, Add32;
    CountStep(written, 0, 0);
    if cs == [] {
      assert p.out + "" == p.out;
    } else {
      var len := |cs[0].text|;
      var w := Min(len, n);
      if n == 0 {
        DriveBuffer(p, 0, Add32(written, len), cs[1..]);
        CountStep(written, len, Count(cs[1..], 0));
      } else {
        var k := Padding(cs[0].width, w);
        PadsDeliver(Buffer, p, k);
        var p1 := Pads(Buffer, p, k).0;
        var p2 := Callback(Buffer, p1, cs[0].text[..w]).0;
        DriveBuffer(p2, n - w, Add32(written, k + len), cs[1..]);
        CountStep(written, k + len, Count(cs[1..], n - w));
        assert p2.out + Emit(cs[1..], n - w) == p.out + Emit(cs, n);
      }
    }
  }

  /** With room for all of it, padding included, the whole text goes out and is counted. */
  lemma {:induction false} Untruncated(cs: seq<Chunk>, n: nat)
    requires |Flat(cs)| < n
    ensures Emit(cs, n) == Flat(cs) && Count(cs, n) == |Flat(cs)|
  {
    if cs != [] {
      var c := cs[0];
      assert |Flat(cs)| == |Padded(c.width, c.text)| + |Flat(cs[1..])|;
      Untruncated(cs[1..], n - |c.text|);
      assert c.text[..|c.text|] == c.text;
    }
  }

  // ---------- when bounded formatting is truncation ----------

  /** No chunk is padded at any truncation, but for one blank at the very end. */
  predicate Unpadded(cs: seq<Chunk>) {
    cs == [] || (
      && cs[0].width <= 1
      && (cs[0].width == 1 && cs[0].text == "" ==> Flat(cs[1..]) == "")
      && Unpadded(cs[1..]))
  }

  lemma TakeConcat(a: string, b: string, n: nat)
    ensures Take(a + b, n) == a[..Min(|a|, n)] + Take(b, n - Min(|a|, n))
  {
  }

  lemma NotPadded(width: nat, text: string, w: nat)
    requires width <= 1 && (width == 1 ==> text != "") && w <= |text| && (text != "" ==> w > 0)
    ensures Blanks(Padding(width, w)) == "" && Padded(width, text) == text
  {
    assert Blanks(0) == "";
  }

  lemma {:induction false} UnpaddedTruncates(cs: seq<Chunk>, n: nat)
    requires Unpadded(cs)
    ensures Emit(cs, n) == Take(Flat(cs), n)
  {
    hide Padded, Blanks, Take, Padding;
    if cs == [] || n == 0 {
      TakeEnds(Flat(cs), n);
    } else {
      var c := cs[0];
      var w := Min(|c.text|, n);
      UnpaddedTruncates(cs[1..], n - w);
      if c.text == "" && c.width == 1 {
        OneBlank(n);
      } else {
        NotPadded(c.width, c.text, w);
        TakeConcat(c.text, Flat(cs[1..]), n);
      }
    }
  }

  lemma TakeEnds(s: string, n: nat)
    requires s == "" || n == 0
    ensures Take(s, n) == ""
  {
  }

  lemma OneBlank(n: nat)
    requires n > 0
    ensures Take("", n) == "" && Take(Padded(1, "") + "", n) == Blanks(Padding(1, 0)) + "" + ""
  {
  }

  lemma {:induction false} EmptyIsUnpadded(cs: seq<Chunk>)
    requires Flat(cs) == ""
    ensures Unpadded(cs)
  {
    if cs != [] {
      assert |Padded(cs[0].width, cs[0].text)| == 0;
      EmptyIsUnpadded(cs[1..]);
    }
  }

  /** A budget that the output of a padded chunk list exceeds. */
  lemma {:induction false} PaddedOverruns(cs: seq<Chunk>) returns (n: nat)
    requires !Unpadded(cs)
    ensures |Emit(cs, n)| > n
  {
    var c := cs[0];
    if c.width > 1 {
      n := 1;
      assert |Emit(cs, 1)| >= c.width;
    } else if c.width == 1 && c.text == "" {
      if Flat(cs[1..]) == "" {
        EmptyIsUnpadded(cs[1..]);
      }
      n := 1;
      SomethingAfter(cs[1..]);
      assert |Emit(cs, 1)| >= 2;
    } else {
      var m := PaddedOverruns(cs[1..]);
      n := |c.text| + m;
      assert m > 0;
      assert |Emit(cs, n)| == |c.text| + |Emit(cs[1..], m)|;
    }
  }

  /** If there is any text or padding at all, a budget of one lets some of it through. */
  lemma {:induction false} SomethingAfter(cs: seq<Chunk>)
    requires Flat(cs) != ""
    ensures |Emit(cs, 1)| >= 1
  {
    var c := cs[0];
    if c.text == "" && c.width == 0 {
      assert Padded(0, "") == "";
      SomethingAfter(cs[1..]);
    }
  }

  /** The bytes under a budget are at most the budget, and are the truncated text, if and only if nothing is padded. */
  lemma TruncationIffUnpadded(cs: seq<Chunk>)
    ensures (forall n: nat :: |Emit(cs, n)| <= n) <==> Unpadded(cs)
    ensures (forall n: nat :: Emit(cs, n) == Take(Flat(cs), n)) <==> Unpadded(cs)
  {
    if Unpadded(cs) {
      forall n: nat
        ensures Emit(cs, n) == Take(Flat(cs), n)
      {
        UnpaddedTruncates(cs, n);
      }
      assert forall n: nat :: |Emit(cs, n)| == |Take(Flat(cs), n)|;
    } else {
      var n := PaddedOverruns(cs);
    }
  }

  // ---------- formats without widths ----------

  predicate NoWidths(cs: seq<Chunk>) {
    forall c <- cs :: c.width == 0
  }

  lemma {:induction false} NoWidthsUnpadded(cs: seq<Chunk>, n: nat)
    requires NoWidths(cs)
    ensures Unpadded(cs) && Count(cs, n) == |Flat(cs)|
  {
    if cs != [] {
      NoWidthsUnpadded(cs[1..], n - Min(|cs[0].text|, n));
      assert |Padded(0, cs[0].text)| == |cs[0].text|;
    }
  }

  /** No field of the format has digits directly before its letter. */
  predicate WidthFree(f: string)
    decreases |f|
  {
    f == "" || if f[0] == '%' then WidthFreeSpec(f[1..]) else WidthFree(f[1..])
  }

  predicate WidthFreeSpec(f: string)
    decreases |f|
  {
    var k := DigitRun(f, 10);
    if k == |f| then true
    else if IsField(f[k]) then k == 0 && WidthFree(f[1..])
    else if f[k] == '%' then WidthFree(f[k + 1..])
    else WidthFreeSpec(f[k + 1..])
  }

  lemma {:induction false} WidthFreeChunks(lit: string, f: string, args: seq<Arg>, p: Platform)
    requires WidthFree(f)
    ensures NoWidths(Chunks(lit, f, args, p))
    decreases |f|, 1
  {
    if f == "" {
    } else if f[0] == '%' {
      WidthFreeSpecChunks(f[1..], 0, args, p);
    } else {
      WidthFreeChunks(lit + [f[0]], f[1..], args, p);
    }
  }

  lemma {:induction false} WidthFreeSpecChunks(f: string, lpref: nat, args: seq<Arg>, p: Platform)
    requires WidthFreeSpec(f)
    ensures NoWidths(ChunksSpec(f, lpref, args, p))
    decreases |f|, 0
  {
    hide IsField, FieldText;
    var k := DigitRun(f, 10);
    if k == |f| {
    } else if IsField(f[k]) {
      WidthFreeChunks("", f[1..], ArgsAfter(f[k], args), p);
      assert f[..0] == "";
      assert WidthOf("") == 0;
    } else if f[k] == '%' {
      WidthFreeChunks(f[..k + 1], f[k + 1..], args, p);
    } else {
      WidthFreeSpecChunks(f[k + 1..], Modified(lpref, f[k]), args, p);
    }
  }

  // ---------- a descriptor ----------

  /**
   * What is counted has arrived; what has arrived and is not counted is the beginning of the one chunk, number
   * `done`, whose text failed. No more arrives than the text is long, and all of it is counted when that much
   * arrives. Without widths it is a prefix of the text that arrives.
   */
  lemma {:induction false} DescriptorPrefix(t: Target, p: Progress, n: nat, written: nat, cs: seq<Chunk>)
    returns (counted: nat, done: nat)
    requires |Flat(cs)| <= n && written < TWO32
    ensures var (q, total) := Drive(t, p, n, written, cs);
            && p.out <= q.out
            && total == Add32(written, counted)
            && counted <= |q.out| - |p.out| <= |Flat(cs)|
            && done <= |cs| && (|q.out| - |p.out| - counted < if done < |cs| then |cs[done].text| else 1)
            && (|q.out| - |p.out| == |Flat(cs)| ==> counted == |Flat(cs)|)
            && (NoWidths(cs) ==> q.out <= p.out + Flat(cs))
    decreases |cs|
  {
    hide Padding, Flat, Add32, Drive;
    CountStep(written, 0, 0);
    if cs == [] {
      FlatNothing();
      DriveStep(t, p, n, written, Chunk(0, ""), []);
      return 0, 0;
    }
    var c, rest := cs[0], cs[1..];
    assert [c] + rest == cs;
    FlatStep(c, rest);
    var p', blanks, ok := ChunkArrives(t, p, n, written, c, rest);
    counted, done := blanks, 0;
    if ok {
      counted, done := DescriptorPrefix(t, p', n - |c.text|, Add32(written, blanks + |c.text|), rest);
      CountStep(written, blanks + |c.text|, counted);
      counted, done := blanks + |c.text| + counted, done + 1;
    }
    if NoWidths(cs) {
      FirstArrives(p.out, c.text, p'.out, Flat(rest), Drive(t, p, n, written, cs).0.out, ok);
    }
  }

  /** One chunk within the budget: its blanks, as many as succeed, and its text. */
  lemma ChunkArrives(t: Target, p: Progress, n: nat, written: nat, c: Chunk, rest: seq<Chunk>)
    returns (p': Progress, done: nat, ok: bool)
    requires Padding(c.width, |c.text|) + |c.text| <= n && written < TWO32
    ensures Drive(t, p, n, written, [c] + rest)
            == if ok then Drive(t, p', n - |c.text|, Add32(written, done + |c.text|), rest)
               else (p', Add32(written, done))
    ensures p.out <= p'.out && done <= Padding(c.width, |c.text|)
    ensures var arrived := |p'.out| - |p.out|;
            if ok then arrived == done + |c.text| else done <= arrived < done + |c.text|
    ensures Padding(c.width, |c.text|) == 0 ==> p'.out <= p.out + c.text && (ok ==> p'.out == p.out + c.text)
  {
    hide Padding, Callback, Pads, Add32, Drive;
    var text, k := c.text, Padding(c.width, |c.text|);
    assert text[..|text|] == text;
    DriveStep(t, p, n, written, c, rest);
    if n == 0 {
      return p, 0, true;
    }
    var p1;
    p1, done := Pads(t, p, k).0, Pads(t, p, k).1;
    p', ok := Callback(t, p1, text).0, Callback(t, p1, text).1;
    PadsDeliver(t, p, k);
    CallbackDelivers(t, p1, text);
  }

  lemma FlatNothing()
    ensures Flat([]) == ""
  {
  }

  lemma FlatStep(c: Chunk, rest: seq<Chunk>)
    ensures |Flat([c] + rest)| == Padding(c.width, |c.text|) + |c.text| + |Flat(rest)|
    ensures c.width == 0 ==> Flat([c] + rest) == c.text + Flat(rest) && Padding(c.width, |c.text|) == 0
  {
    FlatCons(c, rest);
  }

  lemma FirstArrives(before: string, text: string, mid: string, more: string, after: string, ok: bool)
    requires before <= mid <= before + text
    requires if ok then mid == before + text && after <= mid + more else after == mid
    ensures after <= before + (text + more)
  {
    assert before + (text + more) == (before + text) + more;
  }

  // ---------- when every write succeeds ----------

  /** From this call on, write() always takes something. */
  ghost predicate Willing(t: Target, from: nat) {
    t.Descriptor? ==> forall call: nat :: call >= from ==> t.oracle(call) > 0
  }

  lemma {:induction false} WriteAllSucceeds(oracle: nat -> int, p: Progress, text: string)
    requires Willing(Descriptor(oracle), p.calls)
    ensures var (q, ok) := WriteAll(oracle, p, text);
            ok && q.out == p.out + text && q.calls >= p.calls
    decreases |text|
  {
    if text != "" {
      var r := WriteResult(oracle, p.calls, |text|);
      var p' := Progress(p.out + text[..r], p.calls + 1);
      assert p'.out + text[r..] == p.out + text;
      WriteAllSucceeds(oracle, p', text[r..]);
    }
  }

  lemma CallbackSucceeds(t: Target, p: Progress, text: string)
    requires Willing(t, p.calls)
    ensures var (q, ok) := Callback(t, p, text);
            ok && q.out == p.out + text && q.calls >= p.calls
  {
    if t.Descriptor? {
      WriteAllSucceeds(t.oracle, p, text);
    }
  }

  lemma {:induction false} PadsSucceed(t: Target, p: Progress, k: nat)
    requires Willing(t, p.calls)
    ensures var (q, done) := Pads(t, p, k);
            done == k && q.out == p.out + Blanks(k) && q.calls >= p.calls
    decreases k
  {
    hide Callback, Pads;
    PadsStep(t, p, k);
    PadsDeliver(t, p, k);
    if k > 0 {
      CallbackSucceeds(t, p, " ");
      PadsSucceed(t, Callback(t, p, " ").0, k - 1);
    }
  }

  /** Then the whole text arrives, blanks included, and is counted. */
  lemma {:induction false} EverythingArrives(t: Target, p: Progress, n: nat, written: nat, cs: seq<Chunk>)
    requires Willing(t, p.calls) && |Flat(cs)| < n && written < TWO32
    ensures var (q, total) := Drive(t, p, n, written, cs);
            q.out == p.out + Flat(cs) && total == Add32(written, |Flat(cs)|)
    decreases |cs|
  {
    hide Padding, Callback, Pads, Add32, Drive, Willing;
    CountStep(written, 0, 0);
    if cs == [] {
      DriveStep(t, p, n, written, Chunk(0, ""), []);
    } else {
      var c, rest := cs[0], cs[1..];
      var k := Padding(c.width, |c.text|);
      assert [c] + rest == cs;
      DriveStep(t, p, n, written, c, rest);
      assert c.text[..|c.text|] == c.text;
      var p1 := Pads(t, p, k).0;
      PadsSucceed(t, p, k);
      StaysWilling(t, p.calls, p1.calls);
      CallbackSucceeds(t, p1, c.text);
      var p2 := Callback(t, p1, c.text).0;
      StaysWilling(t, p.calls, p2.calls);
      assert Flat(cs) == Blanks(k) + c.text + Flat(rest);
      EverythingArrives(t, p2, n - |c.text|, Add32(written, k + |c.text|), rest);
      CountStep(written, k + |c.text|, |Flat(rest)|);
      assert p.out + Blanks(k) + c.text + Flat(rest) == p.out + Flat(cs);
    }
  }

  lemma StaysWilling(t: Target, from: nat, later: nat)
    requires Willing(t, from) && from <= later
    ensures Willing(t, later)
  {
  }
}
