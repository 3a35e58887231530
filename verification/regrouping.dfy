/** `convert_bits`: regrouping 5-bit values into bytes.

    The function shifts each input into a 32-bit accumulator, five bits at a
    time, and emits a byte whenever eight or more bits are pending.  Bits
    left over at the end (fewer than eight) are dropped without looking at
    them.  The model follows the C arithmetic step by step (the shift wraps
    at 32 bits, the input is OR-ed in), and `ConvertSpec` proves that for
    5-bit inputs the result is the bitstream specification: the inputs'
    bits concatenated most significant first and cut into bytes. */
module Regrouping {
  import opened Numerals

  // ---------------------------------------------------------------------------
  // The C operations

  /** `val << 5` on a `uint32_t`: the bits shifted out at the top are lost. */
  function Shl5(val: uint32): (r: uint32)
    ensures r % 32 == 0
  {
    (val * 32) % 0x1_0000_0000
  }

  /** Bitwise OR of two naturals, one binary digit at a time. */
  function BitOr(a: nat, b: nat): nat
    decreases a + b
  {
    if a == 0 then b
    else if b == 0 then a
    else BitOr(a / 2, b / 2) * 2 + (if a % 2 == 1 || b % 2 == 1 then 1 else 0)
  }

  /** The OR of two `k`-bit numbers is a `k`-bit number. */
  lemma {:induction false} OrBound(a: nat, b: nat, k: nat)
    requires a < Pow(2, k) && b < Pow(2, k)
    ensures BitOr(a, b) < Pow(2, k)
  {
    if a != 0 && b != 0 {
      OrBound(a / 2, b / 2, k - 1);
    }
  }

  /** OR-ing a `k`-bit number into a value whose low `k` bits are clear is
      an addition: the shifted accumulator and the new input never overlap. */
  lemma {:induction false} OrAdd(a: nat, b: nat, k: nat)
    requires a % Pow(2, k) == 0 && b < Pow(2, k)
    ensures BitOr(a, b) == a + b
  {
    if a != 0 && b != 0 {
      var p := Pow(2, k - 1);
      var q := a / Pow(2, k);
      assert a == (q * p) * 2 by {
        assert a == q * Pow(2, k);
      }
      DivModUnique(a, 2, q * p, 0);
      DivModUnique(a / 2, p, q, 0);
      OrAdd(a / 2, b / 2, k - 1);
    }
  }

  /** The bytes `while (bits >= 8) { bits -= 8; out = (val >> bits) & 0xff; }`
      emits, in order. */
  function Drain(val: nat, bits: nat): (out: seq<byte>)
    ensures |out| == bits / 8
    decreases bits
  {
    if bits < 8 then [] else [(val / Pow(2, bits - 8)) % 0x100] + Drain(val, bits - 8)
  }

  /** The outer loop of `convert_bits` from accumulator `val` with `bits`
      bits pending: shift in the next input, then drain whole bytes. */
  function ConvertFrom(val: uint32, bits: nat, input: seq<byte>): seq<byte>
    decreases |input|
  {
    if |input| == 0 then []
    else
      var v := Accumulate(val, input[0]);
      Drain(v, bits + 5) + ConvertFrom(v, (bits + 5) % 8, input[1..])
  }

  /** `val = (val << 5) | *(in++)`. */
  function Accumulate(val: uint32, x: byte): uint32
  {
    Pow2Facts();
    OrBound(Shl5(val), x, 32);
    BitOr(Shl5(val), x)
  }

  /** `convert_bits(out, &outlen, in, inlen)` from 5 to 8 bits: the bytes it
      appends at `out[outlen]`.  Every input byte is accepted; only values
      below 32 are 5-bit groups. */
  function ConvertBits(input: seq<byte>): (out: seq<byte>)
    ensures |out| == 5 * |input| / 8
  {
    ConvertLength(0, 0, input);
    ConvertFrom(0, 0, input)
  }

  lemma Pow2Facts()
    ensures Pow(2, 5) == 32 && Pow(2, 8) == 0x100
    ensures Pow(2, 32) == 0x1_0000_0000
  {
    PowAdd(2, 8, 8);
    PowAdd(2, 16, 16);
  }

  /** `convert_bits` emits one byte for every eight bits it has seen,
      whatever the input values. */
  lemma {:induction false} ConvertLength(val: uint32, bits: nat, input: seq<byte>)
    requires bits < 8
    ensures |ConvertFrom(val, bits, input)| == (bits + 5 * |input|) / 8
    decreases |input|
  {
    if |input| > 0 {
      var v := Accumulate(val, input[0]);
      var b := bits + 5;
      ConvertLength(v, b % 8, input[1..]);
      var rest := 5 * (|input| - 1);
      DivModUnique(b + rest, 8, b / 8 + (b % 8 + rest) / 8, (b % 8 + rest) % 8);
      assert bits + 5 * |input| == b + rest;
    }
  }

  // ---------------------------------------------------------------------------
  // The bitstream specification

  /** The `w`-bit groups `xs` written out as one bit string, most significant
      bit of each group first. */
  function Bits(xs: seq<nat>, w: nat): (bs: seq<nat>)
    ensures |bs| == w * |xs|
    ensures IsDigits(bs, 2)
  {
    if |xs| == 0 then [] else ToDigits(xs[0], w, 2) + Bits(xs[1..], w)
  }

  /** The bit string `bs` cut into `w`-bit groups; bits left over at the
      end (fewer than `w`) are dropped. */
  function Group(bs: seq<nat>, w: nat): (r: seq<nat>)
    requires w > 0
    ensures |r| == |bs| / w
    ensures IsDigits(bs, 2) ==> IsDigits(r, Pow(2, w))
    decreases |bs|
  {
    if |bs| < w then []
    else
      var r := [FromDigits(bs[..w], 2)] + Group(bs[w..], w);
      DivSub(|bs|, w);
      HeadBound(bs, w);
      r
  }

  lemma HeadBound(bs: seq<nat>, w: nat)
    requires w <= |bs|
    ensures IsDigits(bs, 2) ==> FromDigits(bs[..w], 2) < Pow(2, w)
  {
    if IsDigits(bs, 2) {
      assert IsDigits(bs[..w], 2);
      FromDigitsBound(bs[..w], 2);
    }
  }

  /** Taking the first group off a string of at least `w` bits. */
  lemma GroupFirst(bs: seq<nat>, w: nat)
    requires 0 < w <= |bs|
    ensures Group(bs, w) == [FromDigits(bs[..w], 2)] + Group(bs[w..], w)
    ensures |bs[w..]| / w == |bs| / w - 1 && |bs[w..]| % w == |bs| % w
  {
    DivSub(|bs|, w);
  }

  /** Taking `w` off a count takes one off its quotient by `w`. */
  lemma DivSub(n: nat, w: nat)
    requires 0 < w <= n
    ensures (n - w) / w == n / w - 1 && (n - w) % w == n % w
  {
    var q, r := (n - w) / w, (n - w) % w;
    assert n == (q + 1) * w + r;
    DivModUnique(n, w, q + 1, r);
  }

  /** A string with a group in it, or a non-empty whole number of groups,
      has at least `w` bits. */
  lemma HasGroup(n: nat, w: nat)
    requires w > 0 && (n / w > 0 || (n > 0 && n % w == 0))
    ensures n >= w
  {
    if n < w {
      DivModUnique(n, w, 0, n);
    }
  }

  /** Group `m` is bits `[w*m, w*m + w)` of the string. */
  lemma GroupAt(bs: seq<nat>, w: nat, m: nat)
    requires w > 0 && m < |bs| / w
    ensures w * m + w <= |bs|
    ensures Group(bs, w)[m] == FromDigits(bs[w * m..w * m + w], 2)
  {
    GroupAtOffset(bs, w, m, w * m);
  }

  /** `GroupAt` with the offset `k = w * m` of group `m` named. */
  lemma {:induction false} GroupAtOffset(bs: seq<nat>, w: nat, m: nat, k: nat)
    requires w > 0 && m < |bs| / w && k == w * m
    ensures k + w <= |bs|
    ensures Group(bs, w)[m] == FromDigits(bs[k..k + w], 2)
    decreases m
  {
    HasGroup(|bs|, w);
    GroupFirst(bs, w);
    if m > 0 {
      MulSucc(w, m);
      GroupAtOffset(bs[w..], w, m - 1, k - w);
      SliceOfSlice(bs, w, k - w, k);
    } else {
      assert k == 0;
    }
  }

  lemma SliceOfSlice<T>(s: seq<T>, a: nat, i: nat, j: nat)
    requires a <= |s| && i <= j <= |s| - a
    ensures s[a..][i..j] == s[a + i..a + j]
  {
  }

  lemma MulSucc(w: nat, m: nat)
    requires m > 0
    ensures w * m == w * (m - 1) + w
  {
  }

  /** A whole number of groups followed by a short tail groups like the
      whole groups alone. */
  lemma {:induction false} GroupShortTail(a: seq<nat>, t: seq<nat>, w: nat)
    requires w > 0 && |a| % w == 0 && |t| < w
    ensures Group(a + t, w) == Group(a, w)
    decreases |a|
  {
    if |a| == 0 {
      assert a + t == t;
    } else {
      HasGroup(|a|, w);
      GroupFirst(a, w);
      GroupFirst(a + t, w);
      assert (a + t)[..w] == a[..w];
      assert (a + t)[w..] == a[w..] + t;
      GroupShortTail(a[w..], t, w);
    }
  }

  /** Grouping the bits of `w`-bit values gives the values back. */
  lemma {:induction false} GroupOfBits(xs: seq<nat>, w: nat)
    requires w > 0 && IsDigits(xs, Pow(2, w))
    ensures Group(Bits(xs, w), w) == xs
    decreases |xs|
  {
    if |xs| > 0 {
      var bs := Bits(xs, w);
      var head := ToDigits(xs[0], w, 2);
      GroupFirst(bs, w);
      assert bs[..w] == head;
      assert bs[w..] == Bits(xs[1..], w);
      ToDigitsValue(xs[0], w, 2);
      DivModUnique(xs[0], Pow(2, w), 0, xs[0]);
      GroupOfBits(xs[1..], w);
    }
  }

  /** Writing out the groups of a bit string gives the bit string back. */
  lemma {:induction false} BitsOfGroup(bs: seq<nat>, w: nat)
    requires w > 0 && IsDigits(bs, 2) && |bs| % w == 0
    ensures Bits(Group(bs, w), w) == bs
    decreases |bs|
  {
    if |bs| > 0 {
      HasGroup(|bs|, w);
      GroupFirst(bs, w);
      var g := Group(bs, w);
      assert g[0] == FromDigits(bs[..w], 2);
      assert g[1..] == Group(bs[w..], w);
      assert IsDigits(bs[..w], 2);
      ToDigitsUnique(bs[..w], 2);
      BitsOfGroup(bs[w..], w);
      assert bs == bs[..w] + bs[w..];
    }
  }

  // ---------------------------------------------------------------------------
  // The C loop meets the specification

  /** With the low `bits` bits of `val` spelling the pending bits `pending`,
      the rest of `convert_bits` emits the bytes of `pending` followed by the
      bits of the remaining 5-bit inputs. */
  lemma {:induction false} ConvertSpec(val: uint32, pending: seq<nat>, input: seq<byte>)
    requires |pending| < 8 && IsDigits(pending, 2)
    requires val % Pow(2, |pending|) == FromDigits(pending, 2)
    requires forall i :: 0 <= i < |input| ==> input[i] < 32
    ensures ConvertFrom(val, |pending|, input) == Group(pending + Bits(input, 5), 8)
    decreases |input|
  {
    if |input| == 0 {
      assert pending + Bits(input, 5) == pending;
    } else {
      var v, next, out := ConvertStep(val, pending, input);
      ConvertSpec(v, next, input[1..]);
    }
  }

  /** One pass of the outer loop: both sides emit the same bytes `out` and
      leave the same pending bits `next`, spelled by the low bits of the new
      accumulator `v`. */
  lemma ConvertStep(val: uint32, pending: seq<nat>, input: seq<byte>)
    returns (v: uint32, next: seq<nat>, out: seq<byte>)
    requires |pending| < 8 && IsDigits(pending, 2)
    requires val % Pow(2, |pending|) == FromDigits(pending, 2)
    requires 0 < |input| && input[0] < 32
    ensures |next| < 8 && IsDigits(next, 2)
    ensures v % Pow(2, |next|) == FromDigits(next, 2)
    ensures ConvertFrom(val, |pending|, input) == out + ConvertFrom(v, |next|, input[1..])
    ensures Group(pending + Bits(input, 5), 8) == out + Group(next + Bits(input[1..], 5), 8)
  {
    v := Accumulate(val, input[0]);
    var q := pending + ToDigits(input[0], 5, 2);
    ShiftIn(val, input[0], pending);
    ConvertUnfold(val, |pending|, input);
    BitsUnfold(pending, input);
    next, out := Pass(v, q, Bits(input[1..], 5));
  }

  /** What one pass leaves once the input's bits are appended: with eight
      or more bits pending the first eight are emitted, otherwise nothing. */
  lemma Pass(v: nat, q: seq<nat>, rest: seq<nat>) returns (next: seq<nat>, out: seq<byte>)
    requires 5 <= |q| < 13 && IsDigits(q, 2)
    requires v % Pow(2, |q|) == FromDigits(q, 2)
    ensures |next| < 8 && IsDigits(next, 2) && |next| == |q| % 8
    ensures v % Pow(2, |next|) == FromDigits(next, 2)
    ensures Drain(v, |q|) == out
    ensures Group(q + rest, 8) == out + Group(next + rest, 8)
  {
    if |q| >= 8 {
      DrainOne(v, q);
      GroupOne(q, rest);
      next, out := q[8..], [FromDigits(q[..8], 2)];
    } else {
      next, out := q, [];
    }
  }

  lemma BitsUnfold(pending: seq<nat>, input: seq<byte>)
    requires |input| > 0
    ensures pending + Bits(input, 5) == (pending + ToDigits(input[0], 5, 2)) + Bits(input[1..], 5)
  {
  }

  lemma ConvertUnfold(val: uint32, bits: nat, input: seq<byte>)
    requires |input| > 0
    ensures ConvertFrom(val, bits, input)
         == Drain(Accumulate(val, input[0]), bits + 5)
          + ConvertFrom(Accumulate(val, input[0]), (bits + 5) % 8, input[1..])
  {
  }

  /** The first byte-group of `q ++ rest`, when `q` has at least eight bits. */
  lemma GroupOne(q: seq<nat>, rest: seq<nat>)
    requires 8 <= |q|
    ensures Group(q + rest, 8) == [FromDigits(q[..8], 2)] + Group(q[8..] + rest, 8)
  {
    GroupFirst(q + rest, 8);
    assert (q + rest)[..8] == q[..8];
    assert (q + rest)[8..] == q[8..] + rest;
  }

  /** With 8 to 15 bits pending, the drain emits exactly the first eight of
      them and leaves the rest. */
  lemma DrainOne(v: nat, q: seq<nat>)
    requires 8 <= |q| < 16 && IsDigits(q, 2)
    requires v % Pow(2, |q|) == FromDigits(q, 2)
    ensures Drain(v, |q|) == [FromDigits(q[..8], 2)]
    ensures |q| % 8 == |q| - 8
    ensures |q| % 8 == |q[8..]|
    ensures v % Pow(2, |q[8..]|) == FromDigits(q[8..], 2)
  {
    SplitPending(v, q);
  }

  /** Shifting a 5-bit input into the accumulator appends its bits to the
      pending bits. */
  lemma ShiftIn(val: uint32, x: byte, pending: seq<nat>)
    requires |pending| < 8 && x < 32
    requires val % Pow(2, |pending|) == FromDigits(pending, 2)
    ensures Accumulate(val, x) % Pow(2, |pending| + 5) == FromDigits(pending + ToDigits(x, 5, 2), 2)
  {
    var low := val % 0x800_0000;
    AccumulateLow(val, x);
    LowBitsAfterShift(val, |pending|, x);
    AppendGroup(pending, x);
    ModOfEqual(Accumulate(val, x), low * 32 + x, Pow(2, |pending| + 5));
  }

  lemma ModOfEqual(a: nat, b: nat, m: nat)
    requires a == b && m > 0
    ensures a % m == b % m
  {
  }

  /** A 5-bit input lands in the five bits the shift cleared. */
  lemma AccumulateLow(val: uint32, x: byte)
    requires x < 32
    ensures Accumulate(val, x) == (val % 0x800_0000) * 32 + x
  {
    Pow2Facts();
    OrAdd(Shl5(val), x, 5);
    ModShift(val, 0x800_0000, 32, 0);
  }

  /** The low `bits + 5` bits after the shift are the old low `bits` bits
      followed by the new input. */
  lemma LowBitsAfterShift(val: nat, bits: nat, x: nat)
    requires bits < 8 && x < 32
    ensures ((val % 0x800_0000) * 32 + x) % Pow(2, bits + 5) == (val % Pow(2, bits)) * 32 + x
  {
    var pb := Pow(2, bits);
    var low := val % 0x800_0000;
    assert Pow(2, 5) == 32;
    PowAdd(2, bits, 5);
    ModShift(low, pb, 32, x);
    PowAdd(2, bits, 27 - bits);
    assert Pow(2, 27) == 0x800_0000 by {
      PowAdd(2, 8, 19);
      PowAdd(2, 8, 11);
      PowAdd(2, 8, 3);
    }
    ModMod(val, pb, Pow(2, 27 - bits));
  }

  /** Appending the five bits of `x` to a bit string. */
  lemma AppendGroup(pending: seq<nat>, x: nat)
    requires x < 32
    ensures FromDigits(pending + ToDigits(x, 5, 2), 2) == FromDigits(pending, 2) * 32 + x
  {
    Pow2Facts();
    FromDigitsAppend(pending, ToDigits(x, 5, 2), 2);
    ToDigitsValue(x, 5, 2);
    DivModUnique(x, 32, 0, x);
  }

  /** With `v` spelling `q` in its low `|q|` bits (8 to 12 of them), the byte
      `(v >> (|q| - 8)) & 0xff` is the first eight bits of `q`, and the bits
      below it spell the rest of `q`. */
  lemma SplitPending(v: nat, q: seq<nat>)
    requires 8 <= |q| && IsDigits(q, 2)
    requires v % Pow(2, |q|) == FromDigits(q, 2)
    ensures (v / Pow(2, |q| - 8)) % 0x100 == FromDigits(q[..8], 2)
    ensures v % Pow(2, |q| - 8) == FromDigits(q[8..], 2)
  {
    Pow2Facts();
    var lo := |q| - 8;
    var pl := Pow(2, lo);
    var hi, low := q[..8], q[8..];
    assert q == hi + low;
    FromDigitsAppend(hi, low, 2);
    assert IsDigits(hi, 2) && IsDigits(low, 2);
    FromDigitsBound(hi, 2);
    FromDigitsBound(low, 2);
    PowAdd(2, lo, 8);
    assert Pow(2, |q|) == pl * 0x100;
    DivOfMod(v, pl, 0x100);
    DivModUnique(FromDigits(q, 2), pl, FromDigits(hi, 2), FromDigits(low, 2));
  }

  /** `convert_bits` over 5-bit inputs is the bitstream regrouping. */
  lemma ConvertBitsGroups(input: seq<byte>)
    requires forall i :: 0 <= i < |input| ==> input[i] < 32
    ensures ConvertBits(input) == Group(Bits(input, 5), 8)
  {
    assert Pow(2, 0) == 1;
    ConvertSpec(0, [], input);
    assert [] + Bits(input, 5) == Bits(input, 5);
  }

  /** Byte `m` of `convert_bits` over 5-bit inputs is bits `[8m, 8m + 8)` of
      the inputs' bits; the last `5 * |input| % 8` bits are ignored. */
  lemma ConvertBitsStream(input: seq<byte>)
    requires forall i :: 0 <= i < |input| ==> input[i] < 32
    ensures forall m :: 0 <= m < |ConvertBits(input)| ==>
              8 * m + 8 <= 5 * |input| &&
              ConvertBits(input)[m] == FromDigits(Bits(input, 5)[8 * m..8 * m + 8], 2)
  {
    ConvertBitsGroups(input);
    forall m | 0 <= m < |ConvertBits(input)|
      ensures 8 * m + 8 <= 5 * |input|
      ensures ConvertBits(input)[m] == FromDigits(Bits(input, 5)[8 * m..8 * m + 8], 2)
    {
      GroupAt(Bits(input, 5), 8, m);
    }
  }

  // ---------------------------------------------------------------------------
  // The inverse: bytes to 5-bit groups

  /** The bits of the bytes `p`, padded with zero bits to a whole number
      of 5-bit groups. */
  function PaddedBits(p: seq<byte>): (bs: seq<nat>)
    ensures IsDigits(bs, 2)
    ensures |bs| % 5 == 0 && |bs| / 5 == (8 * |p| + 4) / 5
    ensures bs == Bits(p, 8) + seq(|bs| - 8 * |p|, _ => 0)
    ensures |bs| - 8 * |p| < 5
  {
    var n := 8 * |p|;
    var pad := (5 - n % 5) % 5;
    PadArith(n);
    Bits(p, 8) + seq(pad, _ => 0)
  }

  /** Padding `n` up to a multiple of 5 adds fewer than 5 and gives
      `ceil(n / 5)` groups. */
  lemma PadArith(n: nat)
    ensures (n + (5 - n % 5) % 5) % 5 == 0
    ensures (n + (5 - n % 5) % 5) / 5 == (n + 4) / 5
  {
    var q, r := n / 5, n % 5;
    if r == 0 {
      DivModUnique(n, 5, q, 0);
      DivModUnique(n + 4, 5, q, 4);
    } else {
      DivModUnique(n + (5 - r), 5, q + 1, 0);
      DivModUnique(n + 4, 5, q + 1, r - 1);
    }
  }

  /** BIP 173's `convertbits(data, 8, 5, pad=True)`: the 5-bit groups of the
      padded bits of `p`. */
  function ToFive(p: seq<byte>): (r: seq<byte>)
    ensures |r| == (8 * |p| + 4) / 5
    ensures forall i :: 0 <= i < |r| ==> r[i] < 32
    ensures r == Group(PaddedBits(p), 5)
  {
    Pow2Facts();
    var g := Group(PaddedBits(p), 5);
    seq(|g|, i requires 0 <= i < |g| => g[i] as byte)
  }

  /** Regrouping undoes the encoder's split: `convert_bits` of the 5-bit
      groups of any byte string is that byte string. */
  lemma ConvertToFive(p: seq<byte>)
    ensures ConvertBits(ToFive(p)) == p
  {
    var bs := PaddedBits(p);
    var five := ToFive(p);
    ConvertBitsGroups(five);
    BitsOfGroup(bs, 5);
    assert Bits(five, 5) == bs;
    var zeros: seq<nat> := seq(|bs| - 8 * |p|, _ => 0);
    DivModUnique(8 * |p|, 8, |p|, 0);
    GroupShortTail(Bits(p, 8), zeros, 8);
    assert Pow(2, 8) == 0x100 by {
      Pow2Facts();
    }
    GroupOfBits(p, 8);
  }
}
