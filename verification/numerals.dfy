/** Unsigned big-endian positional numerals.

    Everything in the address pipeline is a numeral read most-significant
    digit first: base58 characters, 32-bit accumulator words, output bytes and
    the bit groups of the bech32 regrouper.  This module defines the value of a
    numeral once and proves the facts the decoders rely on. */
module Numerals {

  /** An 8-bit unsigned value (`uint8_t`, or a `char` byte of a C string). */
  type byte = x: int | 0 <= x < 0x100

  /** A 32-bit unsigned value (`uint32_t`). */
  type uint32 = x: int | 0 <= x < 0x1_0000_0000

  function Pow(b: nat, e: nat): (r: nat)
    ensures b > 0 ==> r > 0
  {
    if e == 0 then 1 else b * Pow(b, e - 1)
  }

  /** Every digit of `ds` is below `base`. */
  predicate IsDigits(ds: seq<nat>, base: nat)
  {
    forall i :: 0 <= i < |ds| ==> ds[i] < base
  }

  /** The value of `ds` read as a big-endian numeral in base `base`. */
  function FromDigits(ds: seq<nat>, base: nat): nat
  {
    if |ds| == 0 then 0 else FromDigits(ds[..|ds| - 1], base) * base + ds[|ds| - 1]
  }

  /** The `k` low-order base-`base` digits of `n`, most significant first. */
  function ToDigits(n: nat, k: nat, base: nat): (r: seq<nat>)
    requires base > 1
    ensures |r| == k
    ensures IsDigits(r, base)
    decreases k
  {
    if k == 0 then [] else ToDigits(n / base, k - 1, base) + [n % base]
  }

  // ---------------------------------------------------------------------------
  // Division and remainder

  lemma DivModUnique(n: int, d: int, q: int, r: int)
    requires d > 0 && 0 <= r < d && n == q * d + r
    ensures n / d == q && n % d == r
  {
    var q0, r0 := n / d, n % d;
    assert n == q0 * d + r0;
    assert (q - q0) * d == r0 - r;
    if q > q0 {
      MulAtLeast(q - q0, d);
    } else if q < q0 {
      MulAtLeast(q0 - q, d);
    }
  }

  /** The quotient of naturals is a natural no larger than the dividend. */
  lemma DivNat(n: nat, d: nat)
    requires d > 0
    ensures 0 <= n / d <= n
  {
    var q, r := n / d, n % d;
    assert n == q * d + r;
    MulGe(q, d);
  }

  lemma MulGe(x: nat, d: nat)
    requires d > 0
    ensures x * d >= x
  {
    assert x * d == x * (d - 1) + x;
  }

  lemma MulAtLeast(x: int, d: int)
    requires x >= 1 && d > 0
    ensures x * d >= d
  {
  }

  /** Splitting off the lowest base-`b` digit of a division by `b * m`. */
  lemma ModSplit(n: nat, b: nat, m: nat)
    requires b > 0 && m > 0
    ensures n % (b * m) == ((n / b) % m) * b + n % b
    ensures n / (b * m) == (n / b) / m
  {
    var q, lo := n / b, n % b;
    var hi, mid := q / m, q % m;
    DigitBound(mid, lo, m, b);
    Nest(hi, m, mid, b, lo);
    DivModUnique(n, b * m, hi, mid * b + lo);
  }

  /** `(hi * m + mid) * b + lo`, regrouped around `b * m`. */
  lemma Nest(hi: int, m: int, mid: int, b: int, lo: int)
    ensures (hi * m + mid) * b + lo == hi * (b * m) + (mid * b + lo)
  {
  }

  /** `x * b + y < b * p` for digits `x < p` and `y < b`. */
  lemma DigitBound(x: nat, y: nat, p: nat, b: nat)
    requires x < p && y < b
    ensures x * b + y < b * p
  {
    assert x * b <= (p - 1) * b;
  }

  /** Reading the digits above the lowest `a` from a remainder. */
  lemma DivOfMod(n: nat, a: nat, c: nat)
    requires a > 0 && c > 0
    ensures (n % (a * c)) / a == (n / a) % c
    ensures (n % (a * c)) % a == n % a
  {
    ModSplit(n, a, c);
    DivModUnique(n % (a * c), a, (n / a) % c, n % a);
  }

  /** A remainder modulo a multiple keeps the remainder modulo the divisor. */
  lemma ModMod(n: nat, m: nat, k: nat)
    requires m > 0 && k > 0
    ensures (n % (m * k)) % m == n % m
  {
    DivOfMod(n, m, k);
  }

  /** Appending a digit to a truncated numeral truncates the longer numeral. */
  lemma ModShift(x: nat, m: nat, b: nat, w: nat)
    requires m > 0 && b > 0 && w < b
    ensures (x % m) * b + w == (x * b + w) % (m * b)
  {
    var rest := (x % m) * b + w;
    assert x == (x / m) * m + x % m;
    assert x * b + w == (x / m) * (m * b) + rest;
    assert rest <= (m - 1) * b + (b - 1) by {
      assert (x % m) * b <= (m - 1) * b;
    }
    assert (m - 1) * b + (b - 1) == m * b - 1;
    DivModUnique(x * b + w, m * b, x / m, rest);
  }

  // ---------------------------------------------------------------------------
  // Powers

  lemma {:induction false} PowPositive(b: nat, e: nat)
    requires b > 0
    ensures Pow(b, e) > 0
  {
    if e > 0 {
      PowPositive(b, e - 1);
    }
  }

  lemma {:induction false} PowAdd(b: nat, e1: nat, e2: nat)
    ensures Pow(b, e1 + e2) == Pow(b, e1) * Pow(b, e2)
  {
    if e1 > 0 {
      PowAdd(b, e1 - 1, e2);
      MulAssoc(b, Pow(b, e1 - 1), Pow(b, e2));
    }
  }

  lemma MulAssoc(x: int, y: int, z: int)
    ensures x * (y * z) == (x * y) * z
  {
  }

  lemma {:induction false} PowMul(b: nat, c: nat, k: nat)
    ensures Pow(Pow(b, c), k) == Pow(b, c * k)
  {
    if k > 0 {
      PowMul(b, c, k - 1);
      PowAdd(b, c, c * (k - 1));
      assert c + c * (k - 1) == c * k;
    }
  }

  // ---------------------------------------------------------------------------
  // Numerals

  /** Concatenating numerals shifts the first by the length of the second. */
  lemma {:induction false} FromDigitsAppend(a: seq<nat>, b: seq<nat>, base: nat)
    ensures FromDigits(a + b, base) == FromDigits(a, base) * Pow(base, |b|) + FromDigits(b, base)
    decreases |b|
  {
    if |b| == 0 {
      assert a + b == a;
    } else {
      var b' := b[..|b| - 1];
      var x := b[|b| - 1];
      assert (a + b)[..|a + b| - 1] == a + b';
      FromDigitsAppend(a, b', base);
      ShiftDigit(FromDigits(a, base), Pow(base, |b'|), FromDigits(b', base), base, x);
    }
  }

  /** Appending one digit in base `b` (Horner's rule). */
  lemma AppendDigit(ds: seq<nat>, d: nat, b: nat)
    ensures FromDigits(ds + [d], b) == FromDigits(ds, b) * b + d
  {
    assert (ds + [d])[..|ds|] == ds;
  }

  lemma ShiftDigit(fa: nat, p: nat, fb: nat, base: nat, x: nat)
    ensures (fa * p + fb) * base + x == fa * (base * p) + (fb * base + x)
  {
  }

  /** A numeral of `k` digits is below `base^k`. */
  lemma {:induction false} FromDigitsBound(ds: seq<nat>, base: nat)
    requires IsDigits(ds, base)
    ensures FromDigits(ds, base) < Pow(base, |ds|)
  {
    if |ds| > 0 {
      var init := ds[..|ds| - 1];
      FromDigitsBound(init, base);
      DigitBound(FromDigits(init, base), ds[|ds| - 1], Pow(base, |init|), base);
    }
  }

  lemma FromDigitsSingle(x: nat, base: nat)
    ensures FromDigits([x], base) == x
  {
    assert [x][..0] == [];
  }

  /** Leading zero digits contribute nothing. */
  lemma {:induction false} FromDigitsLeadingZeros(z: seq<nat>, ds: seq<nat>, base: nat)
    requires forall i :: 0 <= i < |z| ==> z[i] == 0
    ensures FromDigits(z + ds, base) == FromDigits(ds, base)
  {
    ZerosValue(z, base);
    FromDigitsAppend(z, ds, base);
  }

  lemma {:induction false} ZerosValue(z: seq<nat>, base: nat)
    requires forall i :: 0 <= i < |z| ==> z[i] == 0
    ensures FromDigits(z, base) == 0
  {
    if |z| > 0 {
      ZerosValue(z[..|z| - 1], base);
    }
  }

  /** `ToDigits` reads back as the value modulo `base^k`. */
  lemma {:induction false} ToDigitsValue(n: nat, k: nat, base: nat)
    requires base > 1
    ensures FromDigits(ToDigits(n, k, base), base) == n % Pow(base, k)
    decreases k
  {
    if k > 0 {
      var r := ToDigits(n, k, base);
      var hi := ToDigits(n / base, k - 1, base);
      assert r[..k - 1] == hi;
      ToDigitsValue(n / base, k - 1, base);
      var p := Pow(base, k - 1);
      assert FromDigits(r, base) == ((n / base) % p) * base + n % base;
      ModSplit(n, base, p);
      assert Pow(base, k) == base * p;
    }
  }

  /** A numeral of valid digits is the only one of its length with its value. */
  lemma {:induction false} ToDigitsUnique(ds: seq<nat>, base: nat)
    requires base > 1 && IsDigits(ds, base)
    ensures ToDigits(FromDigits(ds, base), |ds|, base) == ds
  {
    if |ds| > 0 {
      var init := ds[..|ds| - 1];
      var n := FromDigits(ds, base);
      DivModUnique(n, base, FromDigits(init, base), ds[|ds| - 1]);
      ToDigitsUnique(init, base);
      assert ds == init + [ds[|ds| - 1]];
    }
  }

  /** The low `a + b` digits are the `a` digits above the low `b`, then the low `b`. */
  lemma ToDigitsSplit(n: nat, a: nat, b: nat, base: nat)
    requires base > 1
    ensures ToDigits(n, a + b, base) == ToDigits(n / Pow(base, b), a, base) + ToDigits(n, b, base)
  {
    var pb, pa := Pow(base, b), Pow(base, a);
    DivNat(n, pb);
    var top := ToDigits(n / pb, a, base);
    var low := ToDigits(n, b, base);
    assert IsDigits(top + low, base);
    ToDigitsValue(n / pb, a, base);
    ToDigitsValue(n, b, base);
    FromDigitsAppend(top, low, base);
    ModSplit(n, pb, pa);
    PowAdd(base, b, a);
    assert FromDigits(top + low, base) == n % Pow(base, a + b);
    ToDigitsOfValue(top + low, base, n);
  }

  /** The three fields of a fixed-width numeral, read as numbers. */
  lemma ToDigitsFields(n: nat, hi: nat, mid: nat, lo: nat, base: nat)
    requires base > 1
    ensures FromDigits(ToDigits(n, hi + mid + lo, base)[..hi], base) == (n / Pow(base, mid + lo)) % Pow(base, hi)
    ensures FromDigits(ToDigits(n, hi + mid + lo, base)[hi..hi + mid], base) == (n / Pow(base, lo)) % Pow(base, mid)
    ensures FromDigits(ToDigits(n, hi + mid + lo, base)[hi + mid..], base) == n % Pow(base, lo)
  {
    var pl, pm := Pow(base, lo), Pow(base, mid);
    ToDigitsSplit(n, hi + mid, lo, base);
    ToDigitsSplit(n / pl, hi, mid, base);
    var top := ToDigits(n / pl / pm, hi, base);
    var middle := ToDigits(n / pl, mid, base);
    var bottom := ToDigits(n, lo, base);
    var all := ToDigits(n, hi + mid + lo, base);
    assert all == top + middle + bottom;
    assert all[..hi] == top;
    assert all[hi..hi + mid] == middle;
    assert all[hi + mid..] == bottom;
    ToDigitsValue(n / pl / pm, hi, base);
    ToDigitsValue(n / pl, mid, base);
    ToDigitsValue(n, lo, base);
    PowAdd(base, lo, mid);
    ModSplit(n, pl, pm);
    assert pl * pm == Pow(base, mid + lo);
  }

  /** The same three fields, with a single leading digit. */
  lemma DigitFields(r: seq<nat>, n: nat, mid: nat, lo: nat, base: nat)
    requires base > 1 && r == ToDigits(n, 1 + mid + lo, base)
    ensures |r| == 1 + mid + lo
    ensures r[0] == (n / Pow(base, mid + lo)) % base
    ensures FromDigits(r[1..1 + mid], base) == (n / Pow(base, lo)) % Pow(base, mid)
    ensures FromDigits(r[1 + mid..], base) == n % Pow(base, lo)
  {
    ToDigitsFields(n, 1, mid, lo, base);
    FromDigitsSingle(r[0], base);
    assert r[..1] == [r[0]];
  }

  /** Two valid numerals of one length with one value are equal. */
  lemma ToDigitsOfValue(ds: seq<nat>, base: nat, n: nat)
    requires base > 1 && IsDigits(ds, base)
    requires FromDigits(ds, base) == n % Pow(base, |ds|)
    ensures ds == ToDigits(n, |ds|, base)
  {
    ToDigitsUnique(ds, base);
    ToDigitsUnique(ToDigits(n, |ds|, base), base);
    ToDigitsValue(n, |ds|, base);
  }
}
