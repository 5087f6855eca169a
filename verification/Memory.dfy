// Overlap-safe copying: the portable memmove of string.h and the x86-64 assembly,
// which decide the direction by different tests. Addresses are indices into one memory.
module Memory {
  import opened CTypes

  /** Memory after `len` bytes have moved from `src` to `dst`, as if through a buffer of their own. */
  function Moved(m: string, dst: nat, src: nat, len: nat): string
    requires dst + len <= |m| && src + len <= |m|
  {
    Stored(m, dst, m[src..src + len])
  }

  /** The original source bytes stand at the destination, and no other byte has changed. */
  predicate Copied(was: string, now: string, dst: nat, src: nat, len: nat)
    requires dst + len <= |was| && src + len <= |was|
  {
    && |now| == |was|
    && forall i :: 0 <= i < |was| ==> now[i] == if dst <= i < dst + len then was[src + (i - dst)] else was[i]
  }

  lemma MovedIsCopied(was: string, dst: nat, src: nat, len: nat)
    requires dst + len <= |was| && src + len <= |was|
    ensures Copied(was, Moved(was, dst, src, len), dst, src, len)
  {
    var now := Moved(was, dst, src, len);
    forall i | 0 <= i < |was|
      ensures now[i] == if dst <= i < dst + len then was[src + (i - dst)] else was[i]
    {
      StoredAt(was, dst, was[src..src + len], i);
    }
  }

  /** Copying one more byte upwards, when no source byte ahead has been overwritten. */
  lemma StepUp(was: string, dst: nat, src: nat, len: nat, k: nat)
    requires k < len && dst + len <= |was| && src + len <= |was|
    requires dst <= src || dst >= src + len
    ensures var m := Moved(was, dst, src, k);
            m[dst + k := m[src + k]] == Moved(was, dst, src, k + 1)
  {
    assert was[src..src + k + 1] == was[src..src + k] + [was[src + k]];
    StoredAppend(was, dst, was[src..src + k], was[src + k]);
  }

  /** Copying one more byte downwards, when the destination is not below the source. */
  lemma StepDown(was: string, dst: nat, src: nat, len: nat, k: nat)
    requires 0 < k <= len && dst + len <= |was| && src + len <= |was|
    requires dst >= src
    ensures var m := Moved(was, dst + k, src + k, len - k);
            m[dst + k - 1 := m[src + k - 1]] == Moved(was, dst + k - 1, src + k - 1, len - k + 1)
  {
    var m := Moved(was, dst + k, src + k, len - k);
    assert m[src + k - 1] == was[src + k - 1];
    assert was[src + k - 1..src + len] == [was[src + k - 1]] + was[src + k..src + len];
  }

  lemma MovedNothing(was: string, dst: nat, src: nat)
    requires dst <= |was| && src <= |was|
    ensures Moved(was, dst, src, 0) == was
  {
  }

  /** The number just below `k`, which wraps at zero. */
  predicate Behind(w: Width, q: int, k: int) {
    q == if k == 0 then Modulus(w) - 1 else k - 1
  }

  function SizeSum(w: Width, pos: int, dir: int): int {
    (pos + dir) % Modulus(w)
  }

  lemma StepSize(w: Width, pos: int, k: int)
    requires 0 <= k < Modulus(w)
    ensures Behind(w, pos, k) ==> SizeSum(w, pos, 1) == k
    ensures pos == k ==> Behind(w, SizeSum(w, pos, Modulus(w) - 1), k)
  {
  }

  /** string.h: `pos` runs down from len, or up from -1, in a wrapping size_t. */
  method MemMove(w: Width, mem: array<char>, dst: nat, src: nat, len: nat)
    requires mem.Length < Modulus(w)
    requires dst + len <= mem.Length && src + len <= mem.Length
    modifies mem
    ensures mem[..] == Moved(old(mem[..]), dst, src, len)
    ensures Copied(old(mem[..]), mem[..], dst, src, len)
  {
    hide Moved, SizeSum, Copied;
    ghost var was := mem[..];
    MovedIsCopied(was, dst, src, len);
    MovedNothing(was, dst, src);
    MovedNothing(was, dst + len, src + len);
    var m := Modulus(w);
    var pos, dir, left := len, m - 1, len;
    if dst < src {
      pos := m - 1;
      dir := 1;
    }
    while left > 0
      invariant 0 <= left <= len && |was| == mem.Length
      invariant dst < src ==> dir == 1 && Behind(w, pos, len - left)
                              && mem[..] == Moved(was, dst, src, len - left)
      invariant dst >= src ==> dir == m - 1 && pos == left
                               && mem[..] == Moved(was, dst + left, src + left, len - left)
    {
      if dst < src {
        StepUp(was, dst, src, len, len - left);
      } else {
        StepDown(was, dst, src, len, left);
      }
      StepSize(w, pos, if dst < src then len - left else left);
      pos := SizeSum(w, pos, dir);
      mem[dst + pos] := mem[src + pos];
      left := left - 1;
    }
  }

  /** The registers that `rep movsb` works on. */
  datatype Registers = Registers(rdi: int, rsi: int, rcx: nat, df: bool)

  /** rep movsb: copies rcx bytes, stepping both pointers up, or down when the direction flag is set. */
  method RepMovsb(mem: array<char>, r: Registers, ghost dst: nat, ghost src: nat) returns (r': Registers)
    requires mem.Length < TWO64
    requires dst + r.rcx <= mem.Length && src + r.rcx <= mem.Length
    requires if r.df then r.rcx > 0 && r.rdi == dst + r.rcx - 1 && r.rsi == src + r.rcx - 1 && dst >= src
             else r.rdi == dst && r.rsi == src && (dst <= src || dst >= src + r.rcx)
    modifies mem
    ensures mem[..] == Moved(old(mem[..]), dst, src, r.rcx)
    ensures r'.rcx == 0 && r'.df == r.df
  {
    hide Moved, SizeSum;
    r' := r;
    ghost var len, was := r.rcx, mem[..];
    MovedNothing(was, dst, src);
    MovedNothing(was, dst + len, src + len);
    if r.df {
      while r'.rcx > 0
        invariant r'.rcx <= len && r'.df && |was| == mem.Length
        invariant Behind(W64, r'.rdi, dst + r'.rcx) && Behind(W64, r'.rsi, src + r'.rcx)
        invariant mem[..] == Moved(was, dst + r'.rcx, src + r'.rcx, len - r'.rcx)
        decreases r'.rcx
      {
        StepDown(was, dst, src, len, r'.rcx);
        StepSize(W64, r'.rdi, r'.rdi);
        StepSize(W64, r'.rsi, r'.rsi);
        mem[r'.rdi] := mem[r'.rsi];
        r' := Registers(SizeSum(W64, r'.rdi, TWO64 - 1), SizeSum(W64, r'.rsi, TWO64 - 1), r'.rcx - 1, true);
      }
    } else {
      while r'.rcx > 0
        invariant r'.rcx <= len && !r'.df && |was| == mem.Length
        invariant r'.rdi == dst + len - r'.rcx && r'.rsi == src + len - r'.rcx
        invariant mem[..] == Moved(was, dst, src, len - r'.rcx)
        decreases r'.rcx
      {
        StepUp(was, dst, src, len, len - r'.rcx);
        StepSize(W64, r'.rdi, r'.rdi + 1);
        StepSize(W64, r'.rsi, r'.rsi + 1);
        mem[r'.rdi] := mem[r'.rsi];
        r' := Registers(SizeSum(W64, r'.rdi, 1), SizeSum(W64, r'.rsi, 1), r'.rcx - 1, false);
      }
    }
  }

  /** arch-x86_64.h: backward exactly when dst - src, as an unsigned word, is below the length. */
  method MemMoveX86(mem: array<char>, rdi: nat, rsi: nat, rdx: nat) returns (rax: nat, df: bool)
    requires mem.Length < TWO64
    requires rdi + rdx <= mem.Length && rsi + rdx <= mem.Length
    modifies mem
    ensures mem[..] == Moved(old(mem[..]), rdi, rsi, rdx)
    ensures Copied(old(mem[..]), mem[..], rdi, rsi, rdx)
    ensures rax == rdi && !df
  {
    hide Copied;
    MovedIsCopied(mem[..], rdi, rsi, rdx);
    var rcx := rdx;
    rax := rdi;
    var distance := (rdi - rsi) % TWO64;
    if distance < rcx {
      var r := RepMovsb(mem, Registers((rcx + rdi - 1) % TWO64, (rcx + rsi - 1) % TWO64, rcx, true), rdi, rsi);
      df := false;
    } else {
      var r := RepMovsb(mem, Registers(rdi, rsi, rcx, false), rdi, rsi);
      df := r.df;
    }
  }

  /** The two direction tests differ exactly for regions apart, the destination above: either direction is right. */
  lemma DirectionsDiffer(dst: nat, src: nat, len: nat)
    requires len > 0 && dst + len <= TWO64 && src + len <= TWO64
    ensures ((dst >= src) <==> ((dst - src) % TWO64 < len)) <==> dst < src + len
  {
    if dst < src {
      assert (dst - src) % TWO64 == TWO64 - (src - dst);
    }
  }
}
