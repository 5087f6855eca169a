// stdlib.h: malloc, calloc, realloc and free over an adversarial page mapper. The
// mappings and the memory behind them are flat; what the clients are promised is a
// map from live pointers to the contents of their blocks.
module Heap {
  import opened Arith
  import opened CTypes

  const PAGE := 4096

  /** A null pointer, and MAP_FAILED for the mapper. */
  const NULL := 0

  // ---------- sizes ----------

  /** The size malloc asks the mapper for, in wrapping size_t arithmetic. */
  function MappingSize(w: Width, hdr: nat, len: nat): nat {
    RoundUp((hdr + len) % Modulus(w), Modulus(w))
  }

  /** (x + 4095) & -4096 in a word of modulus `m`. */
  function RoundUp(x: nat, m: nat): nat
    requires m > 0
  {
    var y := (x + 4095) % m;
    y - y % PAGE
  }

  /** The bytes a block of that size can hold, behind its header. */
  function BlockSize(w: Width, hdr: nat, len: nat): nat {
    var size := MappingSize(w, hdr, len);
    if size > hdr then size - hdr else 0
  }

  /** Adding 4095 and clearing the low bits rounds up to whole pages. */
  lemma PageRounding(x: nat)
    ensures var y := x + 4095;
            (y - y % PAGE) % PAGE == 0 && x <= y - y % PAGE < x + PAGE
  {
  }

  /** The rounded size; nothing is left where the rounding wraps. */
  lemma RoundUpIs(x: nat, m: nat)
    requires x < m && m % PAGE == 0 && m > PAGE
    ensures var r := RoundUp(x, m);
            r % PAGE == 0 && r < m && if x + 4095 < m then x <= r < x + PAGE else r == 0
  {
    PageRounding(x);
    if x + 4095 < m {
      DivisionUnique(m, 0, x + 4095, (x + 4095) / m, (x + 4095) % m);
    } else {
      DivisionUnique(m, 1, x + 4095 - m, (x + 4095) / m, (x + 4095) % m);
    }
  }

  /** Where adding the header wraps, less than a header is left. */
  lemma HeaderWraps(hdr: nat, len: nat, m: nat)
    requires 0 < hdr < PAGE && len < m && m > PAGE
    ensures (hdr + len) % m == (if hdr + len < m then hdr + len else hdr + len - m) < m
  {
    if hdr + len < m {
      DivisionUnique(m, 0, hdr + len, (hdr + len) / m, (hdr + len) % m);
    } else {
      DivisionUnique(m, 1, hdr + len - m, (hdr + len) / m, (hdr + len) % m);
    }
  }

  /** Whole pages; and, when it is not zero, room for the request exactly if the header fits in a size_t with it. */
  lemma MappingSizeFits(w: Width, hdr: nat, len: nat)
    requires 0 < hdr < PAGE && len < Modulus(w)
    ensures var size := MappingSize(w, hdr, len);
            && size % PAGE == 0 && size < Modulus(w)
            && (size > 0 ==> size >= PAGE && (size - hdr >= len <==> hdr + len < Modulus(w)))
            && (hdr + len + 4095 < Modulus(w) ==> hdr + len <= size < hdr + len + PAGE)
  {
    hide RoundUp;
    HeaderWraps(hdr, len, Modulus(w));
    RoundUpIs((hdr + len) % Modulus(w), Modulus(w));
  }

  /**
   * malloc(SIZE_MAX - 9) with a 16-byte header: the size wraps, and a granted block holds 4080 bytes. To
   * realloc a block of malloc(8000) to that size copies 8176.
   */
  lemma WrappedRequest()
    ensures MappingSize(W64, 16, TWO64 - 10) == PAGE && BlockSize(W64, 16, TWO64 - 10) == 4080
    ensures BlockSize(W64, 16, 8000) == 8176 && !HasRoom(8176, W64, 16, TWO64 - 10)
  {
  }

  /** Whether the bytes of an old block have room in the block that malloc(newSize) returns. */
  predicate HasRoom(had: nat, w: Width, hdr: nat, newSize: nat) {
    had <= BlockSize(w, hdr, newSize)
  }

  /** When the mapper grants it, every smaller block can be copied there exactly if the header fits in a size_t. */
  lemma CopyFitsIff(w: Width, hdr: nat, newSize: nat)
    requires 0 < hdr < PAGE && newSize < Modulus(w) && MappingSize(w, hdr, newSize) > 0
    ensures (forall had: nat :: had < newSize ==> HasRoom(had, w, hdr, newSize)) <==> hdr + newSize < Modulus(w)
  {
    hide RoundUp;
    MappingSizeFits(w, hdr, newSize);
    if hdr + newSize >= Modulus(w) {
      HeaderWraps(hdr, newSize, Modulus(w));
      RoundUpIs((hdr + newSize) % Modulus(w), Modulus(w));
      assert !HasRoom(newSize - 1, w, hdr, newSize);
    }
  }

  // ---------- mappings ----------

  predicate Apart(b: nat, len: nat, c: nat, len': nat) {
    b + len <= c || c + len' <= b
  }

  ghost predicate Regions(maps: map<nat, nat>, limit: nat) {
    && (forall b <- maps :: b > 0 && b % PAGE == 0 && maps[b] > 0 && maps[b] % PAGE == 0 && b + maps[b] <= limit)
    && (forall b <- maps, c <- maps :: b != c ==> Apart(b, maps[b], c, maps[c]))
  }

  lemma RegionsWith(maps: map<nat, nat>, base: nat, len: nat, limit: nat)
    requires Regions(maps, limit)
    requires base > 0 && base % PAGE == 0 && len > 0 && len % PAGE == 0 && base + len <= limit
    requires forall b :: b in maps ==> Apart(base, len, b, maps[b])
    ensures base !in maps && Regions(maps[base := len], limit)
  {
    assert base in maps ==> Apart(base, len, base, maps[base]);
  }

  /** The sum of the mapping lengths. */
  ghost function Total(maps: map<nat, nat>): nat {
    if maps == map[] then 0
    else
      var b :| b in maps;
      maps[b] + Total(maps - {b})
  }

  lemma {:induction false} TotalWithout(maps: map<nat, nat>, b: nat)
    requires b in maps
    ensures Total(maps) == maps[b] + Total(maps - {b})
    decreases |maps|
  {
    var c :| c in maps && Total(maps) == maps[c] + Total(maps - {c});
    if b != c {
      TotalWithout(maps - {c}, b);
      TotalWithout(maps - {b}, c);
      assert maps - {c} - {b} == maps - {b} - {c};
    }
  }

  lemma TotalWith(maps: map<nat, nat>, b: nat, len: nat)
    requires b !in maps
    ensures Total(maps[b := len]) == Total(maps) + len
  {
    TotalWithout(maps[b := len], b);
    assert maps[b := len] - {b} == maps;
  }

  // ---------- memory ----------

  function Zeros(n: nat): (z: seq<int>)
    ensures |z| == n
    ensures forall i :: 0 <= i < n ==> z[i] == 0
  {
    seq(n, _ => 0)
  }

  /** What ties the mappings to the memory behind them: each header holds its mapping's length. */
  ghost predicate Consistent(maps: map<nat, nat>, mem: seq<int>, hdr: nat) {
    && 0 < hdr < PAGE
    && Regions(maps, |mem|)
    && forall b <- maps :: mem[b] == maps[b]
  }

  lemma PageBounds(maps: map<nat, nat>, limit: nat, b: nat)
    requires Regions(maps, limit) && b in maps
    ensures PAGE <= maps[b] && b > 0 && b + maps[b] <= limit
  {
  }

  /** What the block behind the header at `b` holds. */
  ghost function Contents(maps: map<nat, nat>, mem: seq<int>, hdr: nat, b: nat): seq<int>
    requires 0 < hdr < PAGE && Regions(maps, |mem|) && b in maps
  {
    PageBounds(maps, |mem|, b);
    mem[b + hdr..b + maps[b]]
  }

  /** The abstract heap: the contents of every live block, by the address of its header. */
  ghost function BlocksOf(maps: map<nat, nat>, mem: seq<int>, hdr: nat): (blocks: map<nat, seq<int>>)
    requires 0 < hdr < PAGE && Regions(maps, |mem|)
    ensures blocks.Keys == maps.Keys
  {
    map b | b in maps :: Contents(maps, mem, hdr, b)
  }

  /** Writing to one place leaves the header and the contents of a block elsewhere alone. */
  lemma Elsewhere(mem: seq<int>, at: nat, data: seq<int>, b: nat, len: nat, hdr: nat)
    requires at + |data| <= |mem| && hdr < len && b + len <= |mem| && Apart(at, |data|, b, len)
    ensures Stored(mem, at, data)[b] == mem[b]
    ensures Stored(mem, at, data)[b + hdr..b + len] == mem[b + hdr..b + len]
  {
  }

  lemma FreshContents(mem: seq<int>, base: nat, len: nat, hdr: nat)
    requires 0 < hdr < len && base + len <= |mem|
    ensures Stored(mem, base, Zeros(len))[base := len] == Stored(mem, base, [len] + Zeros(len - 1))
    ensures Stored(mem, base, [len] + Zeros(len - 1))[base] == len
    ensures Stored(mem, base, [len] + Zeros(len - 1))[base + hdr..base + len] == Zeros(len - hdr)
  {
  }

  lemma RegionsApart(maps: map<nat, nat>, limit: nat, b: nat, c: nat)
    requires Regions(maps, limit) && b in maps && c in maps && b != c
    ensures Apart(b, maps[b], c, maps[c])
  {
  }

  lemma SameContents(maps: map<nat, nat>, maps': map<nat, nat>, mem: seq<int>, mem': seq<int>, hdr: nat, b: nat)
    requires 0 < hdr < PAGE && |mem| == |mem'| && Regions(maps, |mem|) && Regions(maps', |mem|)
    requires b in maps && b in maps' && maps[b] == maps'[b]
    requires b + hdr <= b + maps[b] <= |mem| && mem'[b + hdr..b + maps[b]] == mem[b + hdr..b + maps[b]]
    ensures Contents(maps', mem', hdr, b) == Contents(maps, mem, hdr, b)
  {
  }

  /** A fresh zeroed mapping with its header written is one more block, of zeros; no other block changes. */
  lemma FreshBlock(maps: map<nat, nat>, mem: seq<int>, hdr: nat, base: nat, len: nat)
    requires Consistent(maps, mem, hdr)
    requires base !in maps && len >= PAGE && base + len <= |mem| && Regions(maps[base := len], |mem|)
    ensures var mem' := Stored(mem, base, Zeros(len))[base := len];
            && Consistent(maps[base := len], mem', hdr)
            && BlocksOf(maps[base := len], mem', hdr) == BlocksOf(maps, mem, hdr)[base := Zeros(len - hdr)]
  {
    hide Stored, Zeros, Regions, Contents, Apart;
    var maps' := maps[base := len];
    var data := [len] + Zeros(len - 1);
    assert |data| == len;
    FreshContents(mem, base, len, hdr);
    var mem' := Stored(mem, base, data);
    forall b | b in maps
      ensures b < |mem| && mem'[b] == mem[b] && Contents(maps', mem', hdr, b) == Contents(maps, mem, hdr, b)
    {
      RegionsApart(maps', |mem|, base, b);
      PageBounds(maps, |mem|, b);
      Elsewhere(mem, base, data, b, maps[b], hdr);
      SameContents(maps, maps', mem, mem', hdr, b);
    }
    HeaderOf(maps', mem', hdr, base);
  }

  lemma RegionsWithout(maps: map<nat, nat>, b: nat, limit: nat)
    requires Regions(maps, limit)
    ensures Regions(maps - {b}, limit)
  {
  }

  /** Removing a mapping removes its block and changes no other. */
  lemma BlockRemoved(maps: map<nat, nat>, mem: seq<int>, hdr: nat, b: nat)
    requires Consistent(maps, mem, hdr) && b in maps
    ensures Consistent(maps - {b}, mem, hdr)
    ensures BlocksOf(maps - {b}, mem, hdr) == BlocksOf(maps, mem, hdr) - {b}
  {
    hide Regions;
    RegionsWithout(maps, b, |mem|);
    forall c | c in maps && c != b
      ensures Contents(maps - {b}, mem, hdr, c) == Contents(maps, mem, hdr, c)
    {
      PageBounds(maps, |mem|, c);
      SameContents(maps, maps - {b}, mem, mem, hdr, c);
    }
  }

  lemma CheckedProduct(size: nat, nmemb: nat, m: nat)
    requires size < m && nmemb < m
    ensures size * nmemb < m ==> size * nmemb % m == size * nmemb && (size > 0 ==> size * nmemb / size == nmemb)
    ensures size * nmemb >= m ==> size > 0 && size * nmemb % m / size != nmemb
  {
    if size > 0 {
      CheckedDivision(size, nmemb, size * nmemb, m);
    }
  }

  lemma CheckedDivision(size: nat, nmemb: nat, x: nat, m: nat)
    requires size > 0 && m > 0 && x == size * nmemb
    ensures x < m ==> x % m == x && x / size == nmemb
    ensures x >= m ==> x % m / size != nmemb
  {
    hide Quotient, Remainder;
    QuotientIsDivision(x, m);
    QuotientIsDivision(x, size);
    if x < m {
      QuotientUnique(x, m, 0, x);
      QuotientUnique(x, size, nmemb, 0);
    } else {
      var y := x % m;
      assert y == size * (y / size) + y % size;
    }
  }

  /** The header of a block gives the length of its contents. */
  lemma HeaderOf(maps: map<nat, nat>, mem: seq<int>, hdr: nat, b: nat)
    requires Consistent(maps, mem, hdr) && b in maps
    ensures b < |mem| && hdr < mem[b] == maps[b] == hdr + |Contents(maps, mem, hdr, b)| && b + maps[b] <= |mem|
    ensures BlocksOf(maps, mem, hdr)[b] == Contents(maps, mem, hdr, b) == mem[b + hdr..b + maps[b]]
  {
  }

  lemma BlocksApart(maps: map<nat, nat>, mem: seq<int>, hdr: nat, b: nat, c: nat)
    requires Consistent(maps, mem, hdr) && b in maps && c in maps && b != c && maps[b] <= maps[c]
    ensures Apart(c + hdr, maps[b] - hdr, b + hdr, maps[b] - hdr)
  {
    RegionsApart(maps, |mem|, b, c);
  }

  lemma ZerosStored(n: nat, data: seq<int>)
    requires |data| <= n
    ensures Stored(Zeros(n), 0, data) == data + Zeros(n - |data|)
  {
  }

  /** Writing inside one block changes that block and nothing else. */
  lemma BlockWritten(maps: map<nat, nat>, mem: seq<int>, hdr: nat, b: nat, at: nat, data: seq<int>)
    requires Consistent(maps, mem, hdr) && b in maps && at + |data| <= |Contents(maps, mem, hdr, b)|
    ensures b + hdr + at + |data| <= |mem|
    ensures var mem' := Stored(mem, b + hdr + at, data);
            && Consistent(maps, mem', hdr)
            && BlocksOf(maps, mem', hdr)
               == BlocksOf(maps, mem, hdr)[b := Stored(Contents(maps, mem, hdr, b), at, data)]
  {
    hide Stored, Regions, Contents;
    HeaderOf(maps, mem, hdr, b);
    var mem' := Stored(mem, b + hdr + at, data);
    forall c | c in maps
      ensures c < |mem| && mem'[c] == mem[c]
      ensures c != b ==> Contents(maps, mem', hdr, c) == Contents(maps, mem, hdr, c)
    {
      HeaderOf(maps, mem, hdr, c);
      if c == b {
        HeaderKept(mem, b, hdr + at, data);
      } else {
        RegionsApart(maps, |mem|, b, c);
        Elsewhere(mem, b + hdr + at, data, c, maps[c], hdr);
        SameContents(maps, maps, mem, mem', hdr, c);
      }
    }
    WrittenContents(maps, mem, hdr, b, at, data);
  }

  lemma WrittenContents(maps: map<nat, nat>, mem: seq<int>, hdr: nat, b: nat, at: nat, data: seq<int>)
    requires Consistent(maps, mem, hdr) && b in maps && at + |data| <= |Contents(maps, mem, hdr, b)|
    requires b + hdr + at + |data| <= |mem|
    ensures Contents(maps, Stored(mem, b + hdr + at, data), hdr, b) == Stored(Contents(maps, mem, hdr, b), at, data)
  {
    StoredSlice(mem, b + hdr, b + maps[b], at, data);
  }

  lemma HeaderKept(mem: seq<int>, b: nat, skip: nat, data: seq<int>)
    requires skip > 0 && b + skip + |data| <= |mem|
    requires b < |mem|
    ensures Stored(mem, b + skip, data)[b] == mem[b]
  {
  }

  lemma StoredSlice(mem: seq<int>, lo: nat, hi: nat, at: nat, data: seq<int>)
    requires lo <= hi <= |mem| && at + |data| <= hi - lo
    ensures Stored(mem, lo + at, data)[lo..hi] == Stored(mem[lo..hi], at, data)
  {
  }

  /** A copy apart from its source reads the original bytes throughout. */
  lemma SourceKept(mem: seq<int>, dst: nat, src: nat, len: nat, pos: nat)
    requires dst + len <= |mem| && src + len <= |mem| && Apart(dst, len, src, len) && pos < len
    ensures Stored(mem, dst, mem[src..src + pos])[src + pos] == mem[src + pos]
  {
  }

  lemma OneByte(s: seq<int>, i: nat, v: int)
    requires i < |s|
    ensures Stored(s, i, [v]) == s[i := v]
  {
  }

  /** What a program can do with the heap. */
  datatype Op =
    | Malloc(len: nat)
    | Calloc(size: nat, nmemb: nat)
    | Realloc(p: nat, newSize: nat)
    | Free(p: nat)
    | Store(p: nat, at: nat, v: int)

  /** Sizes are words. */
  predicate Sized(op: Op, w: Width) {
    match op
    case Malloc(len) => len < Modulus(w)
    case Calloc(size, nmemb) => size < Modulus(w) && nmemb < Modulus(w)
    case Realloc(_, newSize) => newSize < Modulus(w)
    case _ => true
  }

  // ---------- the heap that clients may rely on ----------

  /** A null result and no change, or one more block at a new address. */
  predicate Allocated(b: map<nat, seq<int>>, r: nat, b': map<nat, seq<int>>, data: seq<int>, hdr: nat) {
    if r == NULL then b' == b else r >= hdr && r - hdr !in b && b' == b[r - hdr := data]
  }

  predicate IsLive(b: map<nat, seq<int>>, p: nat, hdr: nat) {
    p >= hdr && p - hdr in b
  }

  /** What one operation may do to the blocks, whatever the mapper decides. */
  predicate Transition(op: Op, b: map<nat, seq<int>>, r: nat, b': map<nat, seq<int>>, w: Width, hdr: nat) {
    match op
    case Malloc(len) => Allocated(b, r, b', Zeros(BlockSize(w, hdr, len)), hdr)
    case Calloc(size, nmemb) =>
      if size * nmemb >= Modulus(w) then r == NULL && b' == b
      else Allocated(b, r, b', Zeros(BlockSize(w, hdr, size * nmemb)), hdr)
    case Realloc(p, newSize) =>
      if p == NULL then Allocated(b, r, b', Zeros(BlockSize(w, hdr, newSize)), hdr)
      else if !IsLive(b, p, hdr) then r == NULL && b' == b
      else if |b[p - hdr]| >= newSize then r == p && b' == b
      else if r == NULL then b' == b
      else
        var was := b[p - hdr];
        && HasRoom(|was|, w, hdr, newSize)
        && (hdr + newSize < Modulus(w) ==> HasRoom(newSize, w, hdr, newSize))
        && r >= hdr && r - hdr !in b
        && b' == (b - {p - hdr})[r - hdr := was + Zeros(BlockSize(w, hdr, newSize) - |was|)]
    case Free(p) => r == NULL && b' == if IsLive(b, p, hdr) then b - {p - hdr} else b
    case Store(p, at, v) =>
      r == NULL && b' == if IsLive(b, p, hdr) && at < |b[p - hdr]| then b[p - hdr := b[p - hdr][at := v]] else b
  }

  /** A run of the operations: the blocks before, between and after them. */
  predicate IsRun(ops: seq<Op>, results: seq<nat>, trace: seq<map<nat, seq<int>>>, w: Width, hdr: nat) {
    && |results| == |ops| && |trace| == |ops| + 1
    && forall i :: 0 <= i < |ops| ==> Transition(ops[i], trace[i], results[i], trace[i + 1], w, hdr)
  }

  /** A block that no operation of a run names is there at the end, with the same contents. */
  lemma {:induction false} RunKeepsOthers(ops: seq<Op>, results: seq<nat>, trace: seq<map<nat, seq<int>>>,
                                          w: Width, hdr: nat, k: nat)
    requires IsRun(ops, results, trace, w, hdr)
    requires k in trace[0] && forall op <- ops :: !Touches(op, k + hdr)
    ensures k in trace[|ops|] && trace[|ops|][k] == trace[0][k]
  {
    hide Zeros, BlockSize;
    var n := |ops| - 1;
    if n >= 0 {
      assert forall op <- ops[..n] :: op in ops;
      RunKeepsOthers(ops[..n], results[..n], trace[..n + 1], w, hdr, k);
      assert Transition(ops[n], trace[n], results[n], trace[n + 1], w, hdr);
      assert ops[n] in ops && !Touches(ops[n], k + hdr);
    }
  }

  /** The operations that name the block of `p`. */
  predicate Touches(op: Op, p: nat) {
    match op
    case Realloc(q, _) => q == p
    case Free(q) => q == p
    case Store(q, _, _) => q == p
    case _ => false
  }

  class Process {
    const width: Width
    const hdr: nat               // offset of user_p in struct nolibc_heap
    const oracle: nat -> nat     // the address the mapper proposes at each call; an unusable one means failure

    var calls: nat
    var maps: map<nat, nat>      // base address to length of each mapping
    var mem: seq<int>            // one cell per address; the cell at a base holds the header's len
    var mapped: nat              // bytes mapped and not unmapped

    constructor (width: Width, hdr: nat, oracle: nat -> nat)
      requires 0 < hdr < PAGE
      ensures Valid() && Blocks() == map[]
    {
      this.width, this.hdr, this.oracle := width, hdr, oracle;
      calls, maps, mapped := 0, map[], 0;
      mem := Zeros(Modulus(width));
    }

    ghost predicate Valid()
      reads this
    {
      && |mem| == Modulus(width) && 0 < hdr < PAGE
      && Consistent(maps, mem, hdr)
      && mapped == Total(maps)
    }

    ghost function Blocks(): map<nat, seq<int>>
      requires Valid()
      reads this
    {
      BlocksOf(maps, mem, hdr)
    }

    /** Where the mapper would put a mapping now: its proposal if that is a legal place, MAP_FAILED otherwise. */
    function Place(len: nat): nat
      reads this
    {
      var base := oracle(calls);
      if len == 0 || base == 0 || base % PAGE != 0 || base + len > Modulus(width)
         || exists b :: b in maps && !Apart(base, len, b, maps[b])
      then NULL else base
    }

    /** The mapper proposes a place for `len` bytes: page-aligned, in the address space, apart from every mapping. */
    ghost predicate Offers(base: nat, len: nat)
      reads this
    {
      && base == oracle(calls) && base > 0 && base % PAGE == 0 && base + len <= Modulus(width)
      && forall b <- maps :: base + len <= b || b + maps[b] <= base
    }

    /** Malloc takes every place that the mapper offers, unless the rounded size is 0. */
    lemma OfferTaken(len: nat)
      ensures Place(len) == if len > 0 && Offers(oracle(calls), len) then oracle(calls) else NULL
      ensures Offers(oracle(calls), len) ==> oracle(calls) != NULL
    {
    }

    /** The pointer that malloc returns then. */
    function UserPointer(len: nat): nat
      reads this
    {
      if Place(len) == NULL then NULL else Place(len) + hdr
    }

    /** mmap: maps fresh zeroed pages where the oracle says, if that is a legal place. */
    method Mmap(len: nat) returns (base: nat)
      requires Valid() && len % PAGE == 0
      modifies `calls, `maps, `mem, `mapped
      ensures base == old(Place(len))
      ensures base == NULL ==> maps == old(maps) && mem == old(mem) && mapped == old(mapped)
      ensures base != NULL ==>
                && len >= PAGE && base !in old(maps)
                && maps == old(maps)[base := len]
                && Regions(maps, |mem|)
                && mapped == old(mapped) + len == Total(maps)
                && base + len <= |old(mem)| && mem == Stored(old(mem), base, Zeros(len))
    {
      hide Regions, Total, Stored, Modulus;
      base := Place(len);
      calls := calls + 1;
      if base == NULL {
        return;
      }
      RegionsWith(maps, base, len, |mem|);
      TotalWith(maps, base, len);
      maps := maps[base := len];
      mem := Stored(mem, base, Zeros(len));
      mapped := mapped + len;
    }

    /** munmap. That every call releases exactly one whole mapping is its precondition. */
    method Munmap(base: nat, len: nat)
      requires Valid() && base in maps && maps[base] == len
      modifies `maps, `mapped
      ensures maps == old(maps) - {base}
      ensures mapped == old(mapped) - len == Total(maps)
    {
      TotalWithout(maps, base);
      maps := maps - {base};
      mapped := mapped - len;
    }

    /** A pointer that malloc, calloc or realloc returned and that has not been released. */
    ghost predicate Live(p: nat)
      requires Valid()
      reads this
    {
      p >= hdr && p - hdr in Blocks()
    }

    method Malloc(len: nat) returns (p: nat)
      requires Valid() && len < Modulus(width)
      modifies this
      ensures Valid()
      ensures p == old(UserPointer(MappingSize(width, hdr, len)))
      ensures if old(Offers(oracle(calls), MappingSize(width, hdr, len))) && MappingSize(width, hdr, len) > 0
              then p == old(oracle(calls)) + hdr else p == NULL
      ensures p == NULL ==> Blocks() == old(Blocks()) && mapped == old(mapped)
      ensures p != NULL ==>
                && MappingSize(width, hdr, len) >= PAGE
                && p >= hdr && p - hdr !in old(Blocks())
                && Blocks() == old(Blocks())[p - hdr := Zeros(BlockSize(width, hdr, len))]
                && mapped == old(mapped) + hdr + BlockSize(width, hdr, len)
    {
      hide Consistent, Regions, Total, Stored, BlocksOf, Zeros, Place, Offers;
      MappingSizeFits(width, hdr, len);
      var size := MappingSize(width, hdr, len);
      OfferTaken(size);
      var base := Mmap(size);
      if base == NULL {
        return NULL;
      }
      FreshBlock(old(maps), old(mem), hdr, base, size);
      mem := mem[base := size];
      p := base + hdr;
    }

    method Free(p: nat)
      requires Valid() && (p == NULL || Live(p))
      modifies this
      ensures Valid()
      ensures p == NULL ==> Blocks() == old(Blocks())
      ensures p != NULL ==>
                && Blocks() == old(Blocks()) - {p - hdr}
                && mapped == old(mapped) - hdr - |old(Blocks())[p - hdr]|
    {
      hide Regions, Total, Contents;
      if p == NULL {
        return;
      }
      var heap := p - hdr;
      BlockRemoved(maps, mem, hdr, heap);
      HeaderOf(maps, mem, hdr, heap);
      Munmap(heap, mem[heap]);
    }

    /** calloc: the multiplication is checked; the zeros are the mapper's. */
    method Calloc(size: nat, nmemb: nat) returns (p: nat, enomem: bool)
      requires Valid() && size < Modulus(width) && nmemb < Modulus(width)
      modifies this
      ensures Valid()
      ensures enomem <==> size * nmemb >= Modulus(width)
      ensures p == if enomem then NULL else old(UserPointer(MappingSize(width, hdr, size * nmemb)))
      ensures p == NULL ==> Blocks() == old(Blocks()) && mapped == old(mapped)
      ensures p != NULL ==>
                && size * nmemb < Modulus(width) && p >= hdr && p - hdr !in old(Blocks())
                && Blocks() == old(Blocks())[p - hdr := Zeros(BlockSize(width, hdr, size * nmemb))]
                && var block := Blocks()[p - hdr];
                && (hdr + size * nmemb < Modulus(width) ==> |block| >= size * nmemb)
                && forall i :: 0 <= i < |block| ==> block[i] == 0
    {
      hide Consistent, Regions, Total, BlocksOf, MappingSize;
      var x := size * nmemb % Modulus(width);
      CheckedProduct(size, nmemb, Modulus(width));
      MappingSizeFits(width, hdr, x);
      if size > 0 && x / size != nmemb {
        return NULL, true;
      }
      p := Malloc(x);
      enomem := false;
    }

    /** memcpy, within a memory where source and destination lie apart. */
    method MemCpy(dst: nat, src: nat, len: nat)
      requires dst + len <= |mem| && src + len <= |mem| && Apart(dst, len, src, len)
      modifies `mem
      ensures mem == Stored(old(mem), dst, old(mem)[src..src + len])
    {
      hide Stored;
      ghost var was := mem;
      var pos := 0;
      assert was[src..src] == [];
      StoredNothing(was, dst);
      while pos < len
        invariant pos <= len && |mem| == |was|
        invariant mem == Stored(was, dst, was[src..src + pos])
      {
        assert was[src..src + pos + 1] == was[src..src + pos] + [was[src + pos]];
        SourceKept(was, dst, src, len, pos);
        StoredAppend(was, dst, was[src..src + pos], was[src + pos]);
        mem := mem[dst + pos := mem[src + pos]];
        pos := pos + 1;
      }
    }

    /** realloc of a block of `had` bytes does not copy more than it maps; CopyFitsIff says when that is certain. */
    predicate CopyFits(had: nat, newSize: nat)
      reads this
    {
      had < newSize ==> UserPointer(MappingSize(width, hdr, newSize)) == NULL || HasRoom(had, width, hdr, newSize)
    }

    /**
     * realloc. The pointer is kept exactly when the block is large enough already; otherwise the
     * contents move to a larger block and the old mapping goes; and when the mapper fails, nothing changes.
     */
    method Realloc(ptr: nat, newSize: nat) returns (ret: nat)
      requires Valid() && newSize < Modulus(width)
      requires ptr == NULL || (Live(ptr) && CopyFits(|Blocks()[ptr - hdr]|, newSize))
      modifies this
      ensures Valid()
      ensures ret == if ptr != NULL && |old(Blocks())[ptr - hdr]| >= newSize then ptr
                     else old(UserPointer(MappingSize(width, hdr, newSize)))
      ensures ret == ptr ==> Blocks() == old(Blocks())
      ensures ret == NULL ==> Blocks() == old(Blocks()) && mapped == old(mapped)
      ensures ptr != NULL && |old(Blocks())[ptr - hdr]| < newSize && ret != NULL ==>
                var was := old(Blocks())[ptr - hdr];
                var more := BlockSize(width, hdr, newSize) - |was|;
                && more >= 0 && (hdr + newSize < Modulus(width) ==> |was| + more >= newSize)
                && ret >= hdr && ret - hdr !in old(Blocks())
                && Blocks() == (old(Blocks()) - {ptr - hdr})[ret - hdr := was + Zeros(more)]
      ensures ptr == NULL && ret != NULL ==>
                && ret >= hdr && ret - hdr !in old(Blocks())
                && Blocks() == old(Blocks())[ret - hdr := Zeros(BlockSize(width, hdr, newSize))]
    {
      hide Consistent, Regions, Total, BlocksOf, MappingSize, Contents, Stored, Zeros;
      if ptr == NULL {
        ret := Malloc(newSize);
        return;
      }
      var heap := ptr - hdr;
      HeaderOf(maps, mem, hdr, heap);
      var userLen := mem[heap] - hdr;
      if userLen >= newSize {
        return ptr;
      }
      ret := Malloc(newSize);
      if ret == NULL {
        return;
      }
      MappingSizeFits(width, hdr, newSize);
      HeaderOf(maps, mem, hdr, heap);
      ZerosStored(BlockSize(width, hdr, newSize), Blocks()[heap]);
      CopyAndUnmap(heap, ret, userLen);
    }

    /** The end of realloc: the old contents are copied and their mapping goes. */
    method CopyAndUnmap(heap: nat, ret: nat, userLen: nat)
      requires Valid() && heap in Blocks() && Live(ret) && ret - hdr != heap
      requires userLen == |Blocks()[heap]| <= |Blocks()[ret - hdr]|
      modifies this
      ensures Valid()
      ensures Blocks() == (old(Blocks()) - {heap})
                          [ret - hdr := Stored(old(Blocks())[ret - hdr], 0, old(Blocks())[heap])]
    {
      hide Consistent, Regions, Total, BlocksOf, Contents, Stored;
      var src := heap + hdr;
      HeaderOf(maps, mem, hdr, heap);
      HeaderOf(maps, mem, hdr, ret - hdr);
      BlocksApart(maps, mem, hdr, heap, ret - hdr);
      BlockWritten(maps, mem, hdr, ret - hdr, 0, mem[src..src + userLen]);
      MemCpy(ret, src, userLen);
      HeaderOf(maps, mem, hdr, heap);
      BlockRemoved(maps, mem, hdr, heap);
      Munmap(heap, mem[heap]);
    }

    /** A client writes one byte of its block. */
    method Store(p: nat, i: nat, v: int)
      requires Valid() && Live(p) && i < |Blocks()[p - hdr]|
      modifies this
      ensures Valid() && mapped == old(mapped)
      ensures Blocks() == old(Blocks())[p - hdr := old(Blocks())[p - hdr][i := v]]
    {
      hide Consistent, Regions, Total, BlocksOf, Contents, Stored;
      HeaderOf(maps, mem, hdr, p - hdr);
      BlockWritten(maps, mem, hdr, p - hdr, i, [v]);
      OneByte(mem, p + i, v);
      OneByte(Blocks()[p - hdr], i, v);
      mem := mem[p + i := v];
    }

    /**
     * Any program: a sequence of heap calls and stores. A call on a pointer that is not live, or that would copy
     * more than it maps, is not made.
     */
    method Run(ops: seq<Op>) returns (results: seq<nat>, ghost trace: seq<map<nat, seq<int>>>)
      requires Valid() && forall op <- ops :: Sized(op, width)
      modifies this
      ensures Valid()
      ensures IsRun(ops, results, trace, width, hdr) && trace[0] == old(Blocks()) && trace[|ops|] == Blocks()
      ensures forall k :: k in old(Blocks()) && (forall op <- ops :: !Touches(op, k + hdr)) ==>
                        k in Blocks() && Blocks()[k] == old(Blocks())[k]
    {
      hide Consistent, Regions, Total, BlocksOf, Transition;
      results, trace := [], [Blocks()];
      var i: nat := 0;
      while i < |ops|
        invariant Valid() && i <= |ops|
        invariant IsRun(ops[..i], results, trace, width, hdr)
        invariant trace[0] == old(Blocks()) && trace[i] == Blocks()
      {
        assert ops[..i + 1] == ops[..i] + [ops[i]];
        var r := Execute(ops[i]);
        results, trace := results + [r], trace + [Blocks()];
        i := i + 1;
      }
      assert ops[..i] == ops;
      forall k | k in old(Blocks()) && (forall op <- ops :: !Touches(op, k + hdr))
        ensures k in Blocks() && Blocks()[k] == old(Blocks())[k]
      {
        RunKeepsOthers(ops, results, trace, width, hdr, k);
      }
    }

    method Execute(op: Op) returns (r: nat)
      requires Valid() && Sized(op, width)
      modifies this
      ensures Valid()
      ensures Transition(op, old(Blocks()), r, Blocks(), width, hdr)
    {
      hide Consistent, Regions, Total, BlocksOf, BlockSize, MappingSize, Zeros;
      r := NULL;
      match op {
        case Malloc(len) =>
          r := Malloc(len);
        case Calloc(size, nmemb) =>
          var enomem;
          r, enomem := Calloc(size, nmemb);
        case Realloc(p, size) =>
          if p == NULL {
            r := Realloc(p, size);
          } else if p >= hdr && p - hdr in maps {
            HeaderOf(maps, mem, hdr, p - hdr);
            if CopyFits(maps[p - hdr] - hdr, size) {
              r := Realloc(p, size);
            }
          }
        case Free(p) =>
          if p == NULL || (p >= hdr && p - hdr in maps) {
            Free(p);
          }
        case Store(p, at, v) =>
          if p >= hdr && p - hdr in maps {
            HeaderOf(maps, mem, hdr, p - hdr);
            if at < maps[p - hdr] - hdr {
              Store(p, at, v);
            }
          }
      }
    }
  }
}
