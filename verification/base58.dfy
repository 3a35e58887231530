/** Base58 decoding as `b58tobin` performs it.

    The decoder reads a C string as a big-endian base-58 numeral, accumulates
    it in seven 32-bit words (224 bits) with a schoolbook multiply-by-58, and
    writes the low 200 bits as 25 big-endian bytes.  It never checks the
    base58check checksum, and it never rejects a string whose value needs more
    than 200 bits: the high bits are silently dropped. */
module Base58 {
  import opened Numerals
  import opened CStrings

  /** Bitcoin's base58 alphabet: digit `d` is written as `Alphabet[d]`
      ("123456789ABCDEFGHJKLMNPQRSTUVWXYZabcdefghijkmnopqrstuvwxyz"). */
  const Alphabet: seq<char> :=
    ['1', '2', '3', '4', '5', '6', '7', '8', '9', 'A'] +
    ['B', 'C', 'D', 'E', 'F', 'G', 'H', 'J', 'K', 'L'] +
    ['M', 'N', 'P', 'Q', 'R', 'S', 'T', 'U', 'V', 'W'] +
    ['X', 'Y', 'Z', 'a', 'b', 'c', 'd', 'e', 'f', 'g'] +
    ['h', 'i', 'j', 'k', 'm', 'n', 'o', 'p', 'q', 'r'] +
    ['s', 't', 'u', 'v', 'w', 'x', 'y', 'z']

  /** `b58tobin_tbl`: the digit of each character code below 123, or -1.
      Written in the source's rows of 16. */
  const Table: seq<int> :=
    [-1, -1, -1, -1, -1, -1, -1, -1, -1, -1, -1, -1, -1, -1, -1, -1] +
    [-1, -1, -1, -1, -1, -1, -1, -1, -1, -1, -1, -1, -1, -1, -1, -1] +
    [-1, -1, -1, -1, -1, -1, -1, -1, -1, -1, -1, -1, -1, -1, -1, -1] +
    [-1,  0,  1,  2,  3,  4,  5,  6,  7,  8, -1, -1, -1, -1, -1, -1] +
    [-1,  9, 10, 11, 12, 13, 14, 15, 16, -1, 17, 18, 19, 20, 21, -1] +
    [22, 23, 24, 25, 26, 27, 28, 29, 30, 31, 32, -1, -1, -1, -1, -1] +
    [-1, 33, 34, 35, 36, 37, 38, 39, 40, 41, 42, 43, -1, 44, 45, 46] +
    [47, 48, 49, 50, 51, 52, 53, 54, 55, 56, 57]

  /** The base of one accumulator word. */
  const WordBase: nat := 0x1_0000_0000

  // ---------------------------------------------------------------------------
  // The lookup table

  predicate TableEntryOk(b: nat)
  {
    b < |Table| ==> Table[b] == -1 || (0 <= Table[b] < |Alphabet| && Alphabet[Table[b]] as int == b)
  }

  predicate AlphabetEntryOk(d: nat)
  {
    d < |Alphabet| ==> Alphabet[d] as int < |Table| && Table[Alphabet[d] as int] == d
  }

  lemma TableRow0()
    ensures forall b :: 0 <= b < 16 ==> TableEntryOk(b)
  {
    forall b | 0 <= b < 16 ensures TableEntryOk(b) {
      assert b == 0 || b == 1 || b == 2 || b == 3 || b == 4 || b == 5 || b == 6 || b == 7 || b
        == 8 || b == 9 || b == 10 || b == 11 || b == 12 || b == 13 || b == 14 || b == 15;
    }
  }

  lemma TableRow1()
    ensures forall b :: 16 <= b < 32 ==> TableEntryOk(b)
  {
    forall b | 16 <= b < 32 ensures TableEntryOk(b) {
      assert b == 16 || b == 17 || b == 18 || b == 19 || b == 20 || b == 21 || b == 22 || b ==
        23 || b == 24 || b == 25 || b == 26 || b == 27 || b == 28 || b == 29 || b == 30 || b ==
        31;
    }
  }

  lemma TableRow2()
    ensures forall b :: 32 <= b < 48 ==> TableEntryOk(b)
  {
    forall b | 32 <= b < 48 ensures TableEntryOk(b) {
      assert b == 32 || b == 33 || b == 34 || b == 35 || b == 36 || b == 37 || b == 38 || b ==
        39 || b == 40 || b == 41 || b == 42 || b == 43 || b == 44 || b == 45 || b == 46 || b ==
        47;
    }
  }

  lemma TableRow3()
    ensures forall b :: 48 <= b < 64 ==> TableEntryOk(b)
  {
    forall b | 48 <= b < 64 ensures TableEntryOk(b) {
      assert b == 48 || b == 49 || b == 50 || b == 51 || b == 52 || b == 53 || b == 54 || b ==
        55 || b == 56 || b == 57 || b == 58 || b == 59 || b == 60 || b == 61 || b == 62 || b ==
        63;
    }
  }

  lemma TableRow4()
    ensures forall b :: 64 <= b < 80 ==> TableEntryOk(b)
  {
    forall b | 64 <= b < 80 ensures TableEntryOk(b) {
      assert b == 64 || b == 65 || b == 66 || b == 67 || b == 68 || b == 69 || b == 70 || b ==
        71 || b == 72 || b == 73 || b == 74 || b == 75 || b == 76 || b == 77 || b == 78 || b ==
        79;
    }
  }

  lemma TableRow5()
    ensures forall b :: 80 <= b < 96 ==> TableEntryOk(b)
  {
    forall b | 80 <= b < 96 ensures TableEntryOk(b) {
      assert b == 80 || b == 81 || b == 82 || b == 83 || b == 84 || b == 85 || b == 86 || b ==
        87 || b == 88 || b == 89 || b == 90 || b == 91 || b == 92 || b == 93 || b == 94 || b ==
        95;
    }
  }

  lemma TableRow6()
    ensures forall b :: 96 <= b < 112 ==> TableEntryOk(b)
  {
    forall b | 96 <= b < 112 ensures TableEntryOk(b) {
      assert b == 96 || b == 97 || b == 98 || b == 99 || b == 100 || b == 101 || b == 102 || b
        == 103 || b == 104 || b == 105 || b == 106 || b == 107 || b == 108 || b == 109 || b ==
        110 || b == 111;
    }
  }

  lemma TableRow7()
    ensures forall b :: 112 <= b < 123 ==> TableEntryOk(b)
  {
    forall b | 112 <= b < 123 ensures TableEntryOk(b) {
      assert b == 112 || b == 113 || b == 114 || b == 115 || b == 116 || b == 117 || b == 118 ||
        b == 119 || b == 120 || b == 121 || b == 122;
    }
  }

  lemma AlphabetRow0()
    ensures forall d :: 0 <= d < 8 ==> AlphabetEntryOk(d)
  {
    forall d | 0 <= d < 8 ensures AlphabetEntryOk(d) {
      assert d == 0 || d == 1 || d == 2 || d == 3 || d == 4 || d == 5 || d == 6 || d == 7;
    }
  }

  lemma AlphabetRow1()
    ensures forall d :: 8 <= d < 16 ==> AlphabetEntryOk(d)
  {
    forall d | 8 <= d < 16 ensures AlphabetEntryOk(d) {
      assert d == 8 || d == 9 || d == 10 || d == 11 || d == 12 || d == 13 || d == 14 || d == 15;
    }
  }

  lemma AlphabetRow2()
    ensures forall d :: 16 <= d < 24 ==> AlphabetEntryOk(d)
  {
    forall d | 16 <= d < 24 ensures AlphabetEntryOk(d) {
      assert d == 16 || d == 17 || d == 18 || d == 19 || d == 20 || d == 21 || d == 22 || d ==
        23;
    }
  }

  lemma AlphabetRow3()
    ensures forall d :: 24 <= d < 32 ==> AlphabetEntryOk(d)
  {
    forall d | 24 <= d < 32 ensures AlphabetEntryOk(d) {
      assert d == 24 || d == 25 || d == 26 || d == 27 || d == 28 || d == 29 || d == 30 || d ==
        31;
    }
  }

  lemma AlphabetRow4()
    ensures forall d :: 32 <= d < 40 ==> AlphabetEntryOk(d)
  {
    forall d | 32 <= d < 40 ensures AlphabetEntryOk(d) {
      assert d == 32 || d == 33 || d == 34 || d == 35 || d == 36 || d == 37 || d == 38 || d ==
        39;
    }
  }

  lemma AlphabetRow5()
    ensures forall d :: 40 <= d < 48 ==> AlphabetEntryOk(d)
  {
    forall d | 40 <= d < 48 ensures AlphabetEntryOk(d) {
      assert d == 40 || d == 41 || d == 42 || d == 43 || d == 44 || d == 45 || d == 46 || d ==
        47;
    }
  }

  lemma AlphabetRow6()
    ensures forall d :: 48 <= d < 56 ==> AlphabetEntryOk(d)
  {
    forall d | 48 <= d < 56 ensures AlphabetEntryOk(d) {
      assert d == 48 || d == 49 || d == 50 || d == 51 || d == 52 || d == 53 || d == 54 || d ==
        55;
    }
  }

  lemma AlphabetRow7()
    ensures forall d :: 56 <= d < 58 ==> AlphabetEntryOk(d)
  {
    forall d | 56 <= d < 58 ensures AlphabetEntryOk(d) {
      assert d == 56 || d == 57;
    }
  }

  /** The table is exactly the inverse of the alphabet: each of the 58
      alphabet characters maps to its own digit, and every other code below
      123 (among them '0', 'I', 'O' and 'l') maps to -1. */
  lemma TableInvertsAlphabet()
    ensures |Table| == 123 && |Alphabet| == 58
    ensures forall d :: 0 <= d < 58 ==> Alphabet[d] as int < 123 && Table[Alphabet[d] as int] == d
    ensures forall b :: 0 <= b < 123 ==>
              Table[b] == -1 || (0 <= Table[b] < 58 && Alphabet[Table[b]] as int == b)
    ensures Table['0' as int] == -1 && Table['I' as int] == -1
    ensures Table['O' as int] == -1 && Table['l' as int] == -1
  {
    TableRow0(); TableRow1(); TableRow2(); TableRow3();
    TableRow4(); TableRow5(); TableRow6(); TableRow7();
    AlphabetRow0(); AlphabetRow1(); AlphabetRow2(); AlphabetRow3();
    AlphabetRow4(); AlphabetRow5(); AlphabetRow6(); AlphabetRow7();
    forall b | 0 <= b < 123
      ensures Table[b] == -1 || (0 <= Table[b] < 58 && Alphabet[Table[b]] as int == b)
    {
      assert TableEntryOk(b);
    }
    forall d | 0 <= d < 58 ensures Alphabet[d] as int < 123 && Table[Alphabet[d] as int] == d {
      assert AlphabetEntryOk(d);
    }
  }

  // ---------------------------------------------------------------------------
  // The numeral a C string spells

  /** Every byte before the terminator indexes the table; the source reads
      past its end for any other byte. */
  predicate Decodable(s: seq<byte>)
  {
    forall i :: 0 <= i < StrLen(s) ==> s[i] < |Table|
  }

  /** The value `c = b58tobin_tbl[c]` leaves in the `uint32_t` `c`: the
      digit, or 2^32 - 1 for the -1 sentinel. */
  function Digit(b: byte): uint32
    requires b < |Table|
  {
    Table[b] % WordBase
  }

  function Digits(s: seq<byte>): (ds: seq<nat>)
    requires forall i :: 0 <= i < |s| ==> s[i] < |Table|
    ensures |ds| == |s|
  {
    seq(|s|, i requires 0 <= i < |s| => Digit(s[i]))
  }

  /** The number the C string in `s` spells in base 58. */
  function Value(s: seq<byte>): nat
    requires Decodable(s)
  {
    FromDigits(Digits(CStr(s)), 58)
  }

  /** The 25 bytes `b58tobin` writes for `s`. */
  function Decode(s: seq<byte>): (r: seq<nat>)
    requires Decodable(s)
    ensures |r| == 25 && IsDigits(r, 0x100)
    ensures FromDigits(r, 0x100) == Value(s) % Pow(0x100, 25)
  {
    ToDigitsValue(Value(s), 25, 0x100);
    ToDigits(Value(s), 25, 0x100)
  }

  // ---------------------------------------------------------------------------
  // The accumulator

  /** One step of the inner loop: `t = bin32[j] * 58 + c`, the new word is
      the low 32 bits of `t` and the carry is `t` masked with 0x3f00000000 and
      shifted down by 32.  The carry never exceeds 58, so the six-bit mask
      loses nothing and the step is exact. */
  function MulAdd58(w: uint32, c: uint32): (r: (uint32, uint32))
    ensures r.1 <= 58
    ensures r.0 + r.1 * WordBase == w * 58 + c
  {
    var t := w * 58 + c;
    (t % WordBase, (t / WordBase) % 0x40)
  }

  /** The inner loop's invariant survives one more word: with `n` the words
      already rewritten, `s` their old values and `c` the pending carry,
      rewriting word `x` as `lo` with carry `carry` extends both by one. */
  lemma InnerStep(base: nat, x: nat, lo: nat, carry: nat, c: nat, n: seq<nat>, s: seq<nat>, d: nat)
    requires |n| == |s|
    requires FromDigits(n, base) + c * Pow(base, |n|) == 58 * FromDigits(s, base) + d
    requires lo + carry * base == x * 58 + c
    ensures FromDigits([lo] + n, base) + carry * Pow(base, |n| + 1)
         == 58 * FromDigits([x] + s, base) + d
  {
    var p := Pow(base, |n|);
    FromDigitsAppend([lo], n, base);
    FromDigitsAppend([x], s, base);
    FromDigitsSingle(lo, base);
    FromDigitsSingle(x, base);
    assert FromDigits([lo] + n, base) == lo * p + FromDigits(n, base);
    assert FromDigits([x] + s, base) == x * p + FromDigits(s, base);
    assert Pow(base, |n| + 1) == base * p;
    InnerArith(lo, carry, base, p, FromDigits(n, base), c, x, FromDigits(s, base), d);
  }

  lemma InnerArith(lo: nat, carry: nat, base: nat, p: nat, fn: nat, c: nat, x: nat, fs: nat, d: nat)
    requires fn + c * p == 58 * fs + d
    requires lo + carry * base == x * 58 + c
    ensures lo * p + fn + carry * (base * p) == 58 * (x * p + fs) + d
  {
    calc {
      lo * p + fn + carry * (base * p);
      (lo + carry * base) * p + fn;
      (x * 58 + c) * p + fn;
      58 * (x * p) + (fn + c * p);
    }
  }

  /** After all seven words the accumulator holds `58 * w + d` modulo 2^224:
      the carry out of the top word is the only thing lost. */
  lemma DropCarry(w: nat, d: nat, after: seq<nat>, carry: nat)
    requires IsDigits(after, WordBase) && |after| == 7
    requires FromDigits(after, WordBase) + carry * Pow(WordBase, 7) == 58 * w + d
    ensures FromDigits(after, WordBase) == (w * 58 + d) % Pow(WordBase, 7)
  {
    FromDigitsBound(after, WordBase);
    DivModUnique(w * 58 + d, Pow(WordBase, 7), carry, FromDigits(after, WordBase));
  }

  /** Reducing before a multiply-add is the same as reducing after it. */
  lemma ModMulAdd(v: nat, d: nat, m: nat)
    requires m > 0
    ensures ((v % m) * 58 + d) % m == (v * 58 + d) % m
  {
    var low := (v % m) * 58 + d;
    assert v == (v / m) * m + v % m;
    assert v * 58 + d == (58 * (v / m) + low / m) * m + low % m;
    DivModUnique(v * 58 + d, m, 58 * (v / m) + low / m, low % m);
  }

  lemma WordIsFourBytes()
    ensures Pow(0x100, 4) == WordBase
  {
  }

  /** Emitting one more big-endian word keeps the bytes equal to the words
      read so far, truncated to the bytes written. */
  lemma EmitStep(bin: seq<nat>, words: seq<nat>, w: uint32)
    requires FromDigits(bin, 0x100) == FromDigits(words, WordBase) % Pow(0x100, |bin|)
    ensures FromDigits(bin + ToDigits(w, 4, 0x100), 0x100)
         == FromDigits(words + [w], WordBase) % Pow(0x100, |bin| + 4)
  {
    WordIsFourBytes();
    EmitWord(bin, words, w, WordBase, 4);
  }

  lemma EmitWord(bin: seq<nat>, words: seq<nat>, w: nat, wb: nat, k: nat)
    requires wb == Pow(0x100, k) && w < wb
    requires FromDigits(bin, 0x100) == FromDigits(words, wb) % Pow(0x100, |bin|)
    ensures FromDigits(bin + ToDigits(w, k, 0x100), 0x100)
         == FromDigits(words + [w], wb) % Pow(0x100, |bin| + k)
  {
    var p := Pow(0x100, |bin|);
    var x := FromDigits(words, wb);
    AppendWord(bin, w, wb, k);
    AppendDigit(words, w, wb);
    PowAdd(0x100, |bin|, k);
    ModShift(x, p, wb, w);
  }

  /** Appending the `k` big-endian bytes of `w` shifts the number up by one
      word of `k` bytes. */
  lemma AppendWord(bin: seq<nat>, w: nat, wb: nat, k: nat)
    requires wb == Pow(0x100, k) && w < wb
    ensures FromDigits(bin + ToDigits(w, k, 0x100), 0x100) == FromDigits(bin, 0x100) * wb + w
  {
    FromDigitsAppend(bin, ToDigits(w, k, 0x100), 0x100);
    ToDigitsValue(w, k, 0x100);
    DivModUnique(w, wb, 0, w);
  }

  /** 200 bits of a 224-bit remainder are the 200-bit remainder. */
  lemma Truncate224To200(v: nat)
    ensures (v % Pow(WordBase, 7)) % Pow(0x100, 25) == v % Pow(0x100, 25)
  {
    assert Pow(0x100, 4) == WordBase;
    PowMul(0x100, 4, 7);
    PowAdd(0x100, 25, 3);
    ModMod(v, Pow(0x100, 25), Pow(0x100, 3));
  }

  /** The inner loop of `b58tobin`: multiply the seven-word accumulator by
      58 and add the digit `c`, least significant word first, carrying
      between words.  The carry out of the top word is dropped. */
  method MulAddWords(bin32: seq<uint32>, c: uint32) returns (r: seq<uint32>)
    requires |bin32| == 7
    ensures |r| == 7
    ensures FromDigits(r, WordBase) == (FromDigits(bin32, WordBase) * 58 + c) % Pow(WordBase, 7)
  {
    r := bin32;
    var carry: uint32 := c;
    var j := 6;
    assert r[7..] == [] && bin32[7..] == [];
    while j >= 0
      invariant -1 <= j <= 6
      invariant |r| == 7
      invariant r[..j + 1] == bin32[..j + 1]
      invariant CarryInvariant(r, bin32, j + 1, carry, c)
    {
      var step := MulAdd58(r[j], carry);
      WordStep(r, bin32, j, carry, c, step.0, step.1);
      r := r[j := step.0];
      carry := step.1;
      j := j - 1;
    }
    assert r[0..] == r && bin32[0..] == bin32;
    DropCarry(FromDigits(bin32, WordBase), c, r, carry);
  }

  /** The words of `r` from `j` on, plus the pending carry above them, are
      58 times the same words of `s` plus the digit `c`. */
  predicate CarryInvariant(r: seq<nat>, s: seq<nat>, j: nat, carry: nat, c: nat)
    requires j <= |r| == |s|
  {
    FromDigits(r[j..], WordBase) + carry * Pow(WordBase, |r| - j) == 58 * FromDigits(s[j..], WordBase) + c
  }

  /** Rewriting word `j` with the low half of `s[j] * 58 + carry` moves the
      invariant down one word. */
  lemma WordStep(r: seq<nat>, s: seq<nat>, j: nat, carry: nat, c: nat, lo: nat, hi: nat)
    requires j < |r| == |s| && r[j] == s[j]
    requires CarryInvariant(r, s, j + 1, carry, c)
    requires lo + hi * WordBase == s[j] * 58 + carry
    ensures CarryInvariant(r[j := lo], s, j, hi, c)
  {
    var r' := r[j := lo];
    assert r'[j..] == [lo] + r[j + 1..];
    assert s[j..] == [s[j]] + s[j + 1..];
    InnerStep(WordBase, s[j], lo, hi, carry, r[j + 1..], s[j + 1..], c);
  }

  /** The output stage of `b58tobin`: the low byte of word 0, then words
      1..6 each stored big-endian (`htobe32`). */
  method EmitBytes(bin32: seq<uint32>) returns (bin: seq<byte>)
    requires |bin32| == 7
    ensures |bin| == 25
    ensures FromDigits(bin, 0x100) == FromDigits(bin32, WordBase) % Pow(0x100, 25)
  {
    bin := [bin32[0] % 0x100];
    FromDigitsSingle(bin32[0] % 0x100, 0x100);
    FromDigitsSingle(bin32[0], WordBase);
    assert bin32[..1] == [bin32[0]];
    var k := 1;
    while k < 7
      invariant 1 <= k <= 7
      invariant |bin| == 4 * k - 3
      invariant FromDigits(bin, 0x100) == FromDigits(bin32[..k], WordBase) % Pow(0x100, |bin|)
    {
      EmitStep(bin, bin32[..k], bin32[k]);
      assert bin32[..k + 1] == bin32[..k] + [bin32[k]];
      bin := bin + ToDigits(bin32[k], 4, 0x100);
      k := k + 1;
    }
    assert bin32[..7] == bin32;
  }

  /** `b58tobin`: decode the C string `b58` into 25 bytes.  The seven-word
      accumulator holds the value read so far modulo 2^224; the bytes written
      are the low 200 bits of it. */
  method B58ToBin(b58: seq<byte>) returns (bin: seq<byte>)
    requires Decodable(b58)
    ensures |bin| == 25
    ensures FromDigits(bin, 0x100) == Value(b58) % Pow(0x100, 25)
    ensures bin == Decode(b58)
  {
    var bin32 := ReadDigits(b58);
    bin := EmitBytes(bin32);
    Finish(bin, bin32, Value(b58));
  }

  /** The outer loop of `b58tobin`: feed every character's digit into the
      seven-word accumulator, which ends up holding the value modulo 2^224. */
  method ReadDigits(b58: seq<byte>) returns (bin32: seq<uint32>)
    requires Decodable(b58)
    ensures |bin32| == 7
    ensures FromDigits(bin32, WordBase) == Value(b58) % Pow(WordBase, 7)
  {
    bin32 := [0, 0, 0, 0, 0, 0, 0];
    var len := StrLen(b58);
    ghost var ds := Digits(CStr(b58));
    ZerosValue(bin32, WordBase);
    var i := 0;
    while i < len
      invariant 0 <= i <= len
      invariant |bin32| == 7
      invariant FromDigits(bin32, WordBase) == FromDigits(ds[..i], 58) % Pow(WordBase, 7)
    {
      var c: uint32 := Digit(b58[i]);
      ghost var before := bin32;
      DigitAt(b58, i);
      bin32 := MulAddWords(bin32, c);
      PrefixStep(ds, i, before, bin32, c);
      i := i + 1;
    }
    assert ds[..len] == ds;
  }

  /** The digit at position `i` of the C string is the table value of the
      byte there. */
  lemma DigitAt(s: seq<byte>, i: nat)
    requires Decodable(s) && i < StrLen(s)
    ensures Digits(CStr(s))[i] == Digit(s[i])
  {
  }

  /** Reading one more digit of the numeral keeps the accumulator equal to
      the prefix read so far, modulo 2^224. */
  lemma PrefixStep(ds: seq<nat>, i: nat, before: seq<nat>, after: seq<nat>, c: nat)
    requires i < |ds| && c == ds[i]
    requires FromDigits(before, WordBase) == FromDigits(ds[..i], 58) % Pow(WordBase, 7)
    requires FromDigits(after, WordBase) == (FromDigits(before, WordBase) * 58 + c) % Pow(WordBase, 7)
    ensures FromDigits(after, WordBase) == FromDigits(ds[..i + 1], 58) % Pow(WordBase, 7)
  {
    assert ds[..i + 1][..i] == ds[..i];
    ModMulAdd(FromDigits(ds[..i], 58), ds[i], Pow(WordBase, 7));
  }

  /** The 25 bytes emitted from an accumulator holding `v` modulo 2^224 are
      the 25 low bytes of `v`. */
  lemma Finish(bin: seq<nat>, bin32: seq<nat>, v: nat)
    requires |bin| == 25 && IsDigits(bin, 0x100)
    requires FromDigits(bin32, WordBase) == v % Pow(WordBase, 7)
    requires FromDigits(bin, 0x100) == FromDigits(bin32, WordBase) % Pow(0x100, 25)
    ensures FromDigits(bin, 0x100) == v % Pow(0x100, 25)
    ensures bin == ToDigits(v, 25, 0x100)
  {
    Truncate224To200(v);
    ToDigitsOfValue(bin, 0x100, v);
  }

  // ---------------------------------------------------------------------------
  // What decoding means

  /** Where the fields of a legacy address sit in the decoded value: the
      version byte, the 20-byte hash, then the 4 checksum bytes. */
  lemma DecodedFields(s: seq<byte>)
    requires Decodable(s)
    ensures var r, v := Decode(s), Value(s);
      && r[0] == (v / Pow(0x100, 24)) % 0x100
      && FromDigits(r[1..21], 0x100) == (v / Pow(0x100, 4)) % Pow(0x100, 20)
      && FromDigits(r[21..], 0x100) == v % Pow(0x100, 4)
  {
    DigitFields(Decode(s), Value(s), 20, 4, 0x100);
  }

  /** Leading '1' characters are zero digits: they do not change the value. */
  lemma LeadingOnes(k: nat, s: seq<byte>)
    requires Decodable(s)
    ensures Decodable(seq(k, _ => '1' as byte) + s)
    ensures Value(seq(k, _ => '1' as byte) + s) == Value(s)
  {
    var ones: seq<byte> := seq(k, _ => '1' as byte);
    StrLenAfterPrefix(ones, s);
    var t := ones + s;
    forall i | 0 <= i < StrLen(t) ensures t[i] < |Table| {
      if i >= k {
        assert t[i] == s[i - k];
      }
    }
    assert CStr(t) == ones + CStr(s);
    OnesDigits(ones, CStr(s));
    FromDigitsLeadingZeros(seq(k, _ => 0), Digits(CStr(s)), 58);
  }

  /** The digits of `ones + body` are zeros followed by the digits of `body`. */
  lemma OnesDigits(ones: seq<byte>, body: seq<byte>)
    requires forall i :: 0 <= i < |ones| ==> ones[i] == '1' as byte
    requires forall i :: 0 <= i < |body| ==> body[i] < |Table|
    ensures Digits(ones + body) == seq(|ones|, _ => 0) + Digits(body)
  {
    var k := |ones|;
    assert Table[0x31] == 0;
    var want: seq<nat> := seq(k, _ => 0) + Digits(body);
    var dt := Digits(ones + body);
    forall i | 0 <= i < |dt| ensures dt[i] == want[i] {
      if i >= k {
        assert (ones + body)[i] == body[i - k];
      }
    }
  }

  /** The fewest base-58 digits that spell `n` (none for zero). */
  function Numeral(n: nat): (ds: seq<nat>)
    ensures IsDigits(ds, 58)
    ensures FromDigits(ds, 58) == n
  {
    if n == 0 then [] else
      var ds := Numeral(n / 58) + [n % 58];
      assert ds[..|ds| - 1] == Numeral(n / 58);
      ds
  }

  /** The number of leading zero bytes of `p`. */
  function LeadingZeros(p: seq<byte>): (z: nat)
    ensures z <= |p|
    ensures forall i :: 0 <= i < z ==> p[i] == 0
    ensures z < |p| ==> p[z] != 0
  {
    if |p| == 0 || p[0] != 0 then 0 else 1 + LeadingZeros(p[1..])
  }

  /** The alphabet characters that spell the digits `ds`. */
  function Spell(ds: seq<nat>): (s: seq<byte>)
    requires IsDigits(ds, 58)
    ensures |s| == |ds|
    ensures forall i :: 0 <= i < |s| ==> 0 < s[i] < |Table| && Table[s[i]] == ds[i]
  {
    TableInvertsAlphabet();
    seq(|ds|, i requires 0 <= i < |ds| => Alphabet[ds[i]] as byte)
  }

  /** Base58 text of a byte string as Bitcoin writes it: one '1' for each
      leading zero byte, then the digits of the value.  The decoder does not
      contain an encoder; this is the reference its results are stated
      against. */
  function Encode(p: seq<byte>): (s: seq<byte>)
  {
    seq(LeadingZeros(p), _ => '1' as byte) + Spell(Numeral(FromDigits(p, 0x100)))
  }

  /** The digits of the base58 text of `p`: zeros for the leading '1's, then
      the numeral of its value. */
  lemma EncodeDigits(p: seq<byte>)
    ensures Decodable(Encode(p))
    ensures CStr(Encode(p)) == Encode(p)
    ensures Digits(Encode(p)) == seq(LeadingZeros(p), _ => 0) + Numeral(FromDigits(p, 0x100))
  {
    var ds := Numeral(FromDigits(p, 0x100));
    var ones: seq<byte> := seq(LeadingZeros(p), _ => '1' as byte);
    var text := Spell(ds);
    var s := ones + text;
    assert forall i :: 0 <= i < |s| ==> s[i] != 0 && s[i] < |Table|;
    WholeCStr(s);
    SpellDigits(ds);
    OnesDigits(ones, text);
  }

  /** Spelled digits read back as the same digits. */
  lemma SpellDigits(ds: seq<nat>)
    requires IsDigits(ds, 58)
    ensures Digits(Spell(ds)) == ds
  {
    var text := Spell(ds);
    forall i | 0 <= i < |ds| ensures Digits(text)[i] == ds[i] {
      DivModUnique(ds[i], WordBase, 0, ds[i]);
    }
  }

  /** Decoding the base58 text of any 25-byte payload gives the payload back. */
  lemma DecodeEncode(p: seq<byte>)
    requires |p| == 25
    ensures Decodable(Encode(p))
    ensures Decode(Encode(p)) == p
  {
    var v := FromDigits(p, 0x100);
    EncodeDigits(p);
    FromDigitsLeadingZeros(seq(LeadingZeros(p), _ => 0), Numeral(v), 58);
    assert Value(Encode(p)) == v;
    FromDigitsBound(p, 0x100);
    ToDigitsUnique(p, 0x100);
  }
}
