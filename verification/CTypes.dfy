// The C data model shared by every module: machine words of an explicit width,
// characters, and NUL-terminated strings.
module CTypes {
  const NUL: char := '\0'
  const EOF := -1

  /** The width of `long`, `size_t` and pointers: the one thing that differs between platforms. */
  datatype Width = W32 | W64

  const TWO32: int := 0x1_0000_0000
  const TWO64: int := 0x1_0000_0000_0000_0000

  /** One more than the largest `unsigned long`. */
  function Modulus(w: Width): nat {
    if w.W32? then TWO32 else TWO64
  }

  /** The two's complement reading of the word `v` of modulus `m`. */
  function ToSigned(v: nat, m: nat): int {
    if 2 * v < m then v else v - m
  }

  /** The value that `-v` leaves in an unsigned word of modulus `m`. */
  function Negated(v: nat, m: nat): nat
    requires m > 0
  {
    if v % m == 0 then 0 else m - v % m
  }

  /** The bytes before the terminating NUL of a C string. */
  type CString = s: string | NUL !in s witness ""

  /** Reads `s[i]` as C does, the terminator included. */
  function At(s: string, i: nat): char
    requires i <= |s|
  {
    if i < |s| then s[i] else NUL
  }

  lemma AtEnd(s: CString, i: nat)
    requires i <= |s|
    ensures At(s, i) == NUL <==> i == |s|
  {
    if i < |s| { assert s[i] in s; }
  }

  // ctype.h
  predicate IsSpace(c: char) {
    c == ' ' || 9 <= c as int < 14
  }

  /** The contents of a buffer or of memory after `text` has been stored at index `start`. */
  function Stored<T>(a: seq<T>, start: nat, text: seq<T>): (b: seq<T>)
    requires start + |text| <= |a|
    ensures |b| == |a|
  {
    a[..start] + text + a[start + |text|..]
  }

  /** Byte by byte: the text where it was stored, and what was there everywhere else. */
  lemma StoredAt<T>(a: seq<T>, start: nat, text: seq<T>, i: nat)
    requires start + |text| <= |a| && i < |a|
    ensures Stored(a, start, text)[i] == if start <= i < start + |text| then text[i - start] else a[i]
  {
  }

  lemma StoredNothing<T>(a: seq<T>, start: nat)
    requires start <= |a|
    ensures Stored(a, start, []) == a
  {
  }

  /** Storing one more character behind a stored text. */
  lemma StoredAppend<T>(a: seq<T>, start: nat, text: seq<T>, c: T)
    requires start + |text| < |a|
    ensures Stored(a, start, text)[start + |text| := c] == Stored(a, start, text + [c])
  {
  }

  /** Overwriting the last character of a stored text. */
  lemma StoredReplace<T>(a: seq<T>, start: nat, text: seq<T>, c: T)
    requires start + |text| <= |a| && text != []
    ensures Stored(a, start, text)[start + |text| - 1 := c] == Stored(a, start, text[..|text| - 1] + [c])
  {
  }
}
