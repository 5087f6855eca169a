// Division and powers by an arbitrary base, with the few laws about products
// that the number modules need. Everything here is stated so that no proof
// elsewhere has to reason about a product of two variables.
module Arith {
  /** `n / d`, by repeated subtraction. */
  function Quotient(n: nat, d: nat): nat
    requires d > 0
  {
    if n < d then 0 else 1 + Quotient(n - d, d)
  }

  /** `n % d`, by repeated subtraction. */
  function Remainder(n: nat, d: nat): (r: nat)
    requires d > 0
    ensures r < d
  {
    if n < d then n else Remainder(n - d, d)
  }

  lemma {:induction false} QuotientRemainder(n: nat, d: nat)
    requires d > 0
    ensures n == d * Quotient(n, d) + Remainder(n, d)
  {
    if n >= d {
      QuotientRemainder(n - d, d);
      assert d * Quotient(n, d) == d * Quotient(n - d, d) + d;
    }
  }

  function Pow(b: nat, e: nat): nat {
    if e == 0 then 1 else b * Pow(b, e - 1)
  }

  lemma MulLe(a: nat, x: nat, y: nat)
    requires x <= y
    ensures a * x <= a * y
  {
  }

  /** Division with remainder has one answer. */
  lemma DivisionUnique(d: nat, q: int, r: int, q': int, r': int)
    requires d > 0 && d * q + r == d * q' + r' && 0 <= r < d && 0 <= r' < d
    ensures q == q' && r == r'
  {
    if q < q' {
      assert d * q' == d * q + d * (q' - q);
      MulLe(d, 1, q' - q);
    } else if q > q' {
      assert d * q == d * q' + d * (q - q');
      MulLe(d, 1, q - q');
    }
  }

  lemma QuotientUnique(n: nat, d: nat, q: nat, r: nat)
    requires d > 0 && n == d * q + r && r < d
    ensures Quotient(n, d) == q && Remainder(n, d) == r
  {
    QuotientRemainder(n, d);
    DivisionUnique(d, q, r, Quotient(n, d), Remainder(n, d));
  }

  /** `Quotient` and `Remainder` are the built-in operators. */
  lemma QuotientIsDivision(n: nat, d: nat)
    requires d > 0
    ensures Quotient(n, d) == n / d && Remainder(n, d) == n % d
  {
    QuotientRemainder(n, d);
    DivisionUnique(d, n / d, n % d, Quotient(n, d), Remainder(n, d));
  }

  lemma {:induction false} PowPositive(b: nat, e: nat)
    requires b > 0
    ensures Pow(b, e) > 0
  {
    if e > 0 { PowPositive(b, e - 1); }
  }

  /** Removing `k + 1` digits is removing `k` and then one, and the digit removed is known. */
  lemma SplitStep(v: nat, base: nat, k: nat)
    requires base >= 2
    ensures Pow(base, k) > 0 && Pow(base, k + 1) > 0
    ensures var lim := Pow(base, k);
            var above := Quotient(v, Pow(base, k + 1));
            var rest := Remainder(v, Pow(base, k + 1));
            && Quotient(rest, lim) < base
            && Quotient(v, lim) == base * above + Quotient(rest, lim)
            && Remainder(v, lim) == Remainder(rest, lim)
  {
    PowPositive(base, k);
    PowPositive(base, k + 1);
    SplitProduct(v, base, Pow(base, k));
  }

  lemma SplitProduct(v: nat, base: nat, lim: nat)
    requires base > 0 && lim > 0 && base * lim > 0
    ensures var above := Quotient(v, base * lim);
            var rest := Remainder(v, base * lim);
            && Quotient(rest, lim) < base
            && Quotient(v, lim) == base * above + Quotient(rest, lim)
            && Remainder(v, lim) == Remainder(rest, lim)
  {
    var above, rest := Quotient(v, base * lim), Remainder(v, base * lim);
    var d, r := Quotient(rest, lim), Remainder(rest, lim);
    QuotientRemainder(v, base * lim);
    QuotientRemainder(rest, lim);
    Regroup(base, lim, above, d);
    QuotientUnique(v, lim, base * above + d, r);
    if d >= base { MulLe(lim, base, d); }
  }

  lemma Regroup(base: nat, lim: nat, above: nat, d: nat)
    ensures (base * lim) * above + lim * d == lim * (base * above + d)
  {
  }

  // ---------- shifts of unsigned words ----------

  function Shr(v: nat, n: nat): nat {
    PowPositive(2, n);
    Quotient(v, Pow(2, n))
  }

  function Shl(v: nat, n: nat, m: nat): nat
    requires m > 0
  {
    v * Pow(2, n) % m
  }

  lemma {:induction false} PowSum(b: nat, d: nat, e: nat)
    ensures Pow(b, d + e) == Pow(b, d) * Pow(b, e)
  {
    if d > 0 {
      PowSum(b, d - 1, e);
      assert Pow(b, d + e) == b * (Pow(b, d - 1) * Pow(b, e));
      assert b * (Pow(b, d - 1) * Pow(b, e)) == (b * Pow(b, d - 1)) * Pow(b, e);
    }
  }

  lemma {:induction false} Pow16(k: nat)
    ensures Pow(2, 4 * k) == Pow(16, k)
  {
    if k > 0 {
      Pow16(k - 1);
      PowSum(2, 4, 4 * k - 4);
      assert Pow(2, 4) == 16;
    }
  }

  lemma QuotientTwice(v: nat, d: nat, e: nat)
    requires d > 0 && e > 0
    ensures d * e > 0
    ensures Quotient(Quotient(v, d), e) == Quotient(v, d * e)
  {
    hide Quotient, Remainder;
    var q, r := Quotient(v, d), Remainder(v, d);
    var q', r' := Quotient(q, e), Remainder(q, e);
    QuotientRemainder(v, d);
    QuotientRemainder(q, e);
    TwiceProduct(d, e, q', r', r);
    QuotientUnique(v, d * e, q', d * r' + r);
  }

  lemma TwiceProduct(d: nat, e: nat, q: nat, s: nat, r: nat)
    requires s < e && r < d
    ensures d * (e * q + s) + r == (d * e) * q + (d * s + r)
    ensures d * s + r < d * e
  {
    assert d * (e * q + s) == d * (e * q) + d * s;
    assert d * (e * q) == (d * e) * q;
    MulLe(d, s + 1, e);
  }

  lemma ShrShr(v: nat, n: nat, k: nat)
    ensures Shr(Shr(v, n), k) == Shr(v, n + k)
  {
    PowPositive(2, n);
    PowPositive(2, k);
    PowSum(2, n, k);
    QuotientTwice(v, Pow(2, n), Pow(2, k));
  }
}
