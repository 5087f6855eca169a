// stdio.h: vsscanf. The scan is driven by the format; what it stores is kept in
// order, each word with the modulus of the integer type it was stored through.
module Scanf {
  import opened CTypes
  import opened NumberParse
  import opened StrTo

  /** One `*va_arg(args, T *) = value`: the modulus of T, and the bits that T then holds. */
  datatype Store = Store(modulus: nat, bits: nat)

  /** The result, what was stored, and whether errno was set to EILSEQ for an unknown pattern. */
  datatype Scanned = Scanned(matches: int, stores: seq<Store>, eilseq: bool)

  /** The length prefix of a pattern: up to two `l`. */
  function LongPrefix(f: CString): (l: nat)
    ensures l <= |f| && l <= 2
  {
    if At(f, 0) != 'l' then 0 else if At(f, 1) != 'l' then 1 else 2
  }

  function Destination(l: nat, w: Width): nat {
    if l == 0 then TWO32 else if l == 1 then Modulus(w) else TWO64
  }

  function SkipWhite(s: CString): CString {
    s[LeadingSpaces(s)..]
  }

  predicate IsPattern(c: char) {
    c == 'd' || c == 'u' || c == 'x' || c == 'X' || c == 'p'
  }

  /** One conversion: what is stored, and how many characters the number took. */
  function Convert(c: char, l: nat, s: CString, w: Width): (Store, nat) {
    if c == 'd' then
      var r := StrToL(W64, s, 10);
      (Store(Destination(l, w), r.0 % Destination(l, w)), r.1)
    else if c == 'p' then
      var r := StrToUL(w, s, 16);
      (Store(Modulus(w), r.0), r.1)
    else
      var r := StrToUL(W64, s, if c == 'u' then 10 else 16);
      (Store(Destination(l, w), r.0 % Destination(l, w)), r.1)
  }

  lemma ConvertEnd(c: char, l: nat, s: CString, w: Width)
    ensures Convert(c, l, s, w).1 <= |s|
  {
    var b := if c == 'd' || c == 'u' then 10 else 16;
    if c == 'd' {
      EndIsBehindDigits(s, b, -(TWO64 / 2), TWO64 / 2 - 1);
    } else {
      EndIsBehindDigits(s, b, 0, (if c == 'p' then Modulus(w) else TWO64) - 1);
    }
  }

  /** The reference: what scanning `s` by the format `f` adds to what has been matched already. */
  function Scan(s: CString, f: CString, done: Scanned, w: Width): Scanned
    decreases |f|
  {
    if f == "" then done
    else if f[0] == '%' then
      var l := LongPrefix(f[1..]);
      var c := At(f, 1 + l);
      if c == '%' then
        if At(s, 0) == '%' then Scan(s[1..], f[2 + l..], done, w) else done
      else if IsPattern(c) then
        ConvertEnd(c, l, s, w);
        var (store, end) := Convert(c, l, s, w);
        Scan(s[end..], f[2 + l..], Scanned(done.matches + 1, done.stores + [store], done.eilseq), w)
      else done.(eilseq := true)
    else if IsSpace(f[0]) then Scan(SkipWhite(s), SkipWhite(f), done, w)
    else if At(s, 0) == f[0] then Scan(s[1..], f[1..], done, w)
    else if done.matches == 0 then done.(matches := EOF)
    else done
  }

  // ---------- the strto* calls ----------

  method StrToLBody(w: Width, s: CString, base: int) returns (value: int, end: nat)
    ensures (value, end) == (StrToL(w, s, base).0, StrToL(w, s, base).1)
  {
    hide StrToX;
    var r := StrToXBody(s, base, -(Modulus(w) / 2), Modulus(w) / 2 - 1);
    value, end := ToSigned(r.value % Modulus(w), Modulus(w)), r.end;
  }

  method StrToULBody(w: Width, s: CString, base: int) returns (value: nat, end: nat)
    ensures (value, end) == (StrToUL(w, s, base).0, StrToUL(w, s, base).1)
  {
    hide StrToX;
    var r := StrToXBody(s, base, 0, Modulus(w) - 1);
    value, end := r.value % Modulus(w), r.end;
  }

  /** The number patterns of vsscanf: parse at `str`, store through a pointer of the pattern's type. */
  method ConvertBody(c: char, l: nat, s: CString, w: Width) returns (store: Store, end: nat)
    requires IsPattern(c)
    ensures (store, end) == Convert(c, l, s, w) && end <= |s|
  {
    hide StrToL, StrToUL;
    ConvertEnd(c, l, s, w);
    if c == 'd' {
      var ival;
      ival, end := StrToLBody(W64, s, 10);
      store := Store(Destination(l, w), ival % Destination(l, w));
    } else if c == 'u' || c == 'x' || c == 'X' {
      var base := if c == 'u' then 10 else 16;
      var uval;
      uval, end := StrToULBody(W64, s, base);
      store := Store(Destination(l, w), uval % Destination(l, w));
    } else {
      var value;
      value, end := StrToULBody(w, s, 16);
      store := Store(Modulus(w), value);
    }
  }

  lemma ScanStep(s: CString, f: CString, done: Scanned, w: Width)
    ensures f == "" ==> Scan(s, f, done, w) == done
    ensures f != "" && f[0] != '%' ==>
              Scan(s, f, done, w) ==
              if IsSpace(f[0]) then Scan(SkipWhite(s), SkipWhite(f), done, w)
              else if At(s, 0) == f[0] then Scan(s[1..], f[1..], done, w)
              else if done.matches == 0 then done.(matches := EOF)
              else done
  {
  }

  lemma PatternStep(s: CString, f: CString, done: Scanned, w: Width, l: nat)
    requires f != "" && f[0] == '%' && l == LongPrefix(f[1..])
    ensures var c := At(f, 1 + l);
            && (c == '%' || IsPattern(c) ==> |f| >= 2 + l)
            && Convert(c, l, s, w).1 <= |s|
            && Scan(s, f, done, w) ==
               if c == '%' then if At(s, 0) == '%' then Scan(s[1..], f[2 + l..], done, w) else done
               else if IsPattern(c) then
                 Scan(s[Convert(c, l, s, w).1..], f[2 + l..],
                      Scanned(done.matches + 1, done.stores + [Convert(c, l, s, w).0], done.eilseq), w)
               else done.(eilseq := true)
  {
    hide Convert;
    ConvertEnd(At(f, 1 + l), l, s, w);
  }

  /** The branch for a pattern at `format[j]`; `more` is false when the scan ends there. */
  method ScanPattern(str: CString, format: CString, i: nat, j: nat, r: Scanned, w: Width)
    returns (more: bool, i': nat, j': nat, r': Scanned)
    requires i <= |str| && j < |format| && format[j] == '%'
    ensures i' <= |str| && j < j' <= |format|
    ensures Scan(str[i..], format[j..], r, w) == if more then Scan(str[i'..], format[j'..], r', w) else r'
  {
    hide Convert, Scan;
    ghost var f, s := format[j..], str[i..];
    more, i', j', r' := true, i, j + 1, r;
    var lpref := 0;
    AtEnd(format, j');
    if At(format, j') == 'l' {
      lpref := 1;
      j' := j' + 1;
      AtEnd(format, j');
      if At(format, j') == 'l' {
        lpref := 2;
        j' := j' + 1;
      }
    }
    AtEnd(format, j');
    PatternStep(s, f, r, w, lpref);
    var c := At(format, j');
    if c == '%' {
      AtEnd(str, i);
      if '%' != At(str, i) {
        return false, i, j + 1, r;
      }
      i', j' := i' + 1, j' + 1;
      assert s[1..] == str[i'..] && f[2 + lpref..] == format[j'..];
      return;
    }
    if !IsPattern(c) {
      return false, i, j + 1, r.(eilseq := true);
    }
    var store, end := ConvertBody(c, lpref, str[i..], w);
    i', j' := i' + end, j' + 1;
    assert s[end..] == str[i'..] && f[2 + lpref..] == format[j'..];
    r' := Scanned(r.matches + 1, r.stores + [store], r.eilseq);
  }

  /** vsscanf */
  method VSScanf(str: CString, format: CString, w: Width) returns (r: Scanned)
    ensures r == Scan(str, format, Scanned(0, [], false), w)
  {
    hide Scan, LeadingSpaces;
    var i: nat, j: nat := 0, 0;
    r := Scanned(0, [], false);
    ghost var goal := Scan(str, format, r, w);
    assert str[0..] == str && format[0..] == format;
    while true
      invariant i <= |str| && j <= |format|
      invariant Scan(str[i..], format[j..], r, w) == goal
      decreases |format| - j
    {
      ghost var f, s := format[j..], str[i..];
      AtEnd(format, j);
      AtEnd(str, i);
      ScanStep(s, f, r, w);
      if At(format, j) == '%' {
        var more;
        more, i, j, r := ScanPattern(str, format, i, j, r, w);
        if !more {
          return;
        }
      } else if At(format, j) == NUL {
        return;
      } else if IsSpace(At(format, j)) {
        var m := SkipSpaces(format[j..]);
        var n := SkipSpaces(str[i..]);
        SpacesNext(format, j);
        j, i := j + m, i + n;
        assert f[m..] == format[j..] && s[n..] == str[i..];
      } else if At(format, j) == At(str, i) {
        i, j := i + 1, j + 1;
        assert f[1..] == format[j..] && s[1..] == str[i..];
      } else {
        if r.matches == 0 {
          r := r.(matches := EOF);
        }
        return;
      }
    }
  }
}
