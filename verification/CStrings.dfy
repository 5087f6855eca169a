// string.h: comparison, search and bounded building of NUL-terminated strings.
// A string that is only read is the sequence of its bytes before the NUL; a
// string that is written lives in an array.
module CStrings {
  import opened CTypes

  datatype Position = NotFound | Found(index: nat)

  /** The text that starts here: everything before the first NUL, if there is one. */
  function TextOf(s: string): (t: string)
    ensures |t| <= |s| && t == s[..|t|] && NUL !in t
    ensures |t| < |s| ==> s[|t|] == NUL
  {
    if s == "" || s[0] == NUL then "" else [s[0]] + TextOf(s[1..])
  }

  lemma {:induction false} TextOfUnique(s: string, t: string)
    requires |t| <= |s| && t == s[..|t|] && NUL !in t
    requires |t| == |s| || s[|t|] == NUL
    ensures TextOf(s) == t
  {
    if t != "" {
      assert s[0] == t[0];
      assert t[0] in t;
      TextOfUnique(s[1..], t[1..]);
    }
  }

  function Min(a: nat, b: nat): nat {
    if a < b then a else b
  }

  function Take(s: string, n: nat): string {
    s[..Min(|s|, n)]
  }

  method StrLen(a: array<char>, start: nat) returns (len: nat)
    requires start <= a.Length && NUL in a[start..]
    ensures len == |TextOf(a[start..])|
    ensures start + len < a.Length
  {
    len := 0;
    while a[start + len] != NUL
      invariant start + len < a.Length
      invariant NUL !in a[start..start + len] && NUL in a[start + len..]
      decreases a.Length - len
    {
      len := len + 1;
    }
    TextOfUnique(a[start..], a[start..start + len]);
  }

  method StrNLen(a: array<char>, maxlen: nat) returns (len: nat)
    requires maxlen <= a.Length
    ensures len == |TextOf(a[..maxlen])|
  {
    len := 0;
    while len < maxlen && a[len] != NUL
      invariant len <= maxlen && NUL !in a[..len]
    {
      len := len + 1;
    }
    TextOfUnique(a[..maxlen], a[..len]);
  }

  /** The first place where two readings differ, and by how much. */
  ghost predicate FirstDifference(a: string, b: string, k: nat, diff: int) {
    && k <= |a| && k <= |b|
    && a[..k] == b[..k]
    && diff == At(a, k) as int - At(b, k) as int
  }

  /** Compares up to `size` characters; the sign is that of the first difference. */
  method StrNCmp(a: CString, b: CString, size: nat) returns (diff: int)
    ensures diff == 0 <==> Take(a, size) == Take(b, size)
    ensures diff != 0 ==> exists k: nat :: k < size && FirstDifference(a, b, k, diff)
  {
    diff := 0;
    var i, left := 0, size;
    while left > 0
      invariant left <= size && i == size - left && i <= |a| && i <= |b|
      invariant a[..i] == b[..i]
    {
      left := left - 1;
      var c := At(b, i);
      diff := At(a, i) as int - c as int;
      if diff != 0 {
        assert FirstDifference(a, b, i, diff);
        assert i < |a| ==> Take(a, size)[i] == a[i];
        assert i < |b| ==> Take(b, size)[i] == b[i];
        return;
      }
      if c == NUL {
        AtEnd(a, i);
        AtEnd(b, i);
        assert a == a[..i] && b == b[..i];
        return;
      }
      AtEnd(b, i);
      assert a[..i + 1] == a[..i] + [a[i]] && b[..i + 1] == b[..i] + [b[i]];
      i := i + 1;
    }
  }

  method MemCmp(s1: string, s2: string, n: nat) returns (c1: int)
    requires n <= |s1| && n <= |s2|
    ensures c1 == 0 <==> s1[..n] == s2[..n]
    ensures c1 != 0 ==> exists k: nat :: k < n && FirstDifference(s1, s2, k, c1)
  {
    var ofs := 0;
    c1 := 0;
    while ofs < n
      invariant ofs <= n && s1[..ofs] == s2[..ofs]
    {
      c1 := s1[ofs] as int - s2[ofs] as int;
      if c1 != 0 {
        assert FirstDifference(s1, s2, ofs, c1);
        assert s1[..n][ofs] == s1[ofs] && s2[..n][ofs] == s2[ofs];
        return;
      }
      assert s1[..ofs + 1] == s1[..ofs] + [s1[ofs]] && s2[..ofs + 1] == s2[..ofs] + [s2[ofs]];
      ofs := ofs + 1;
    }
  }

  predicate OccursAt(needle: string, haystack: string, i: nat) {
    i + |needle| <= |haystack| && haystack[i..i + |needle|] == needle
  }

  /** The leftmost occurrence. An empty needle is never found, unlike in C. */
  method StrStr(haystack: CString, needle: CString) returns (r: Position)
    ensures r.Found? ==> needle != "" && OccursAt(needle, haystack, r.index)
                         && forall i :: 0 <= i < r.index ==> !OccursAt(needle, haystack, i)
    ensures r.NotFound? ==> needle == "" || forall i :: 0 <= i ==> !OccursAt(needle, haystack, i)
  {
    if |needle| == 0 {
      return NotFound;
    }
    var start, left := 0, |haystack|;
    while left >= |needle|
      invariant start + left == |haystack|
      invariant forall i :: 0 <= i < start ==> !OccursAt(needle, haystack, i)
    {
      var c := MemCmp(haystack[start..], needle, |needle|);
      assert haystack[start..][..|needle|] == haystack[start..start + |needle|];
      assert needle[..|needle|] == needle;
      if c == 0 {
        return Found(start);
      }
      start := start + 1;
      left := left - 1;
    }
    return NotFound;
  }

  /** The loop that counts the part of `src` that no longer fits. */
  method CountRest(src: CString, from: nat, counted: nat) returns (len: nat)
    requires from <= |src|
    ensures len == counted + |src| - from
  {
    var i := from;
    len := counted;
    AtEnd(src, i);
    while At(src, i) != NUL
      invariant i <= |src| && len == counted + i - from
      invariant At(src, i) == NUL <==> i == |src|
      decreases |src| - i
    {
      len := len + 1;
      i := i + 1;
      AtEnd(src, i);
    }
  }

  /** Copies within `size` bytes and always terminates, unless `size` is zero. */
  method StrLCpy(dst: array<char>, src: CString, size: nat) returns (len: nat)
    requires size <= dst.Length
    modifies dst
    ensures len == |src|
    ensures dst[..] == if size == 0 then old(dst[..])
                       else Stored(old(dst[..]), 0, Take(src, size - 1) + [NUL])
  {
    ghost var before := dst[..];
    len := 0;
    while len < size
      invariant len <= |src| && len <= size
      invariant dst[..] == Stored(before, 0, src[..len])
    {
      AtEnd(src, len);
      StoredAppend(before, 0, src[..len], At(src, len));
      dst[len] := At(src, len);
      if dst[len] == NUL {
        assert src[..len] == Take(src, size - 1);
        return;
      }
      assert src[..len] + [src[len]] == src[..len + 1];
      len := len + 1;
    }
    if size > 0 {
      StoredReplace(before, 0, src[..len], NUL);
      assert src[..len][..len - 1] == Take(src, size - 1);
      dst[size - 1] := NUL;
    }
    len := CountRest(src, len, len);
  }

  /** Appends within `size` bytes; a destination with no NUL in them is left alone. */
  method StrLCat(dst: array<char>, src: CString, size: nat) returns (len: nat)
    requires size <= dst.Length
    modifies dst
    ensures var d := TextOf(old(dst[..size]));
            && len == |d| + |src|
            && dst[..] == if |d| == size then old(dst[..])
                          else Stored(old(dst[..]), |d|, Take(src, size - 1 - |d|) + [NUL])
  {
    hide TextOf, Stored;
    ghost var before := dst[..];
    ghost var d := TextOf(dst[..size]);
    StoredNothing(before, |d|);
    len := StrNLen(dst, size);
    var i := 0;
    while len + 1 < size
      invariant i <= |src| && len == |d| + i
      invariant if |d| == size then i == 0 else len < size
      invariant dst.Length == |before| && dst[..] == Stored(before, |d|, src[..i])
    {
      AtEnd(src, i);
      StoredAppend(before, |d|, src[..i], At(src, i));
      dst[len] := At(src, i);
      if At(src, i) == NUL {
        assert dst[..] == dst[..][len := NUL];
        break;
      }
      assert src[..i] + [src[i]] == src[..i + 1];
      len := len + 1;
      i := i + 1;
    }
    if len < size {
      StoredAppend(before, |d|, src[..i], NUL);
      dst[len] := NUL;
      assert src[..i] == Take(src, size - 1 - |d|);
    }
    len := CountRest(src, i, len);
  }
}
