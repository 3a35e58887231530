/** Framing of a bech32 address as `bech32_decode` performs it.

    A bech32 string is a human-readable part, the separator '1', and a data
    part of 5-bit values written in a 32-character set, the last six of which
    are a checksum (the "Bech32" section of BIP 173).  The decoder finds the
    last '1', maps every later character through `charset_rev` and keeps all
    but the last six values.  It verifies neither the checksum nor the
    characters: a character outside the set becomes the byte 0xFF. */
module Bech32 {
  import opened Numerals
  import opened CStrings

  /** The bech32 character set: value `v` is written as `Charset[v]`
      ("qpzry9x8gf2tvdw0s3jn54khce6mua7l"). */
  const Charset: seq<char> :=
    ['q', 'p', 'z', 'r', 'y', '9', 'x', '8'] +
    ['g', 'f', '2', 't', 'v', 'd', 'w', '0'] +
    ['s', '3', 'j', 'n', '5', '4', 'k', 'h'] +
    ['c', 'e', '6', 'm', 'u', 'a', '7', 'l']

  /** `charset_rev`: the value of each 7-bit character code, or -1.  Written
      in the source's rows of 16. */
  const CharsetRev: seq<int> :=
    [-1, -1, -1, -1, -1, -1, -1, -1, -1, -1, -1, -1, -1, -1, -1, -1] +
    [-1, -1, -1, -1, -1, -1, -1, -1, -1, -1, -1, -1, -1, -1, -1, -1] +
    [-1, -1, -1, -1, -1, -1, -1, -1, -1, -1, -1, -1, -1, -1, -1, -1] +
    [15, -1, 10, 17, 21, 20, 26, 30,  7,  5, -1, -1, -1, -1, -1, -1] +
    [-1, 29, -1, 24, 13, 25,  9,  8, 23, -1, 18, 22, 31, 27, 19, -1] +
    [ 1,  0,  3, 16, 11, 28, 12, 14,  6,  4,  2, -1, -1, -1, -1, -1] +
    [-1, 29, -1, 24, 13, 25,  9,  8, 23, -1, 18, 22, 31, 27, 19, -1] +
    [ 1,  0,  3, 16, 11, 28, 12, 14,  6,  4,  2, -1, -1, -1, -1, -1]

  /** The separator between the human-readable part and the data, '1'. */
  const Separator: byte := '1' as int

  /** ASCII upper case. */
  function Upper(c: char): (u: char)
    ensures 'a' <= c <= 'z' ==> 'A' <= u <= 'Z' && u as int == c as int - 32
    ensures !('a' <= c <= 'z') ==> u == c
  {
    if 'a' <= c <= 'z' then (c as int - 32) as char else c
  }

  /** Byte `b` writes value `v`, in lower or upper case. */
  predicate Writes(b: nat, v: nat)
  {
    v < |Charset| && (b == Charset[v] as int || b == Upper(Charset[v]) as int)
  }

  // ---------------------------------------------------------------------------
  // The lookup table

  predicate RevEntryOk(b: nat)
  {
    b < |CharsetRev| ==> CharsetRev[b] == -1 || (0 <= CharsetRev[b] && Writes(b, CharsetRev[b]))
  }

  predicate CharsetEntryOk(v: nat)
  {
    v < |Charset| ==>
      && Charset[v] as int < |CharsetRev| && Upper(Charset[v]) as int < |CharsetRev|
      && CharsetRev[Charset[v] as int] == v && CharsetRev[Upper(Charset[v]) as int] == v
      && Charset[v] != '1' && !('A' <= Charset[v] <= 'Z')
  }

  lemma CharsetRevRow0()
    ensures forall b :: 0 <= b < 16 ==> RevEntryOk(b)
  {
    forall b | 0 <= b < 16 ensures RevEntryOk(b) {
      assert b == 0 || b == 1 || b == 2 || b == 3 || b == 4 || b == 5 || b == 6 || b == 7 || b
        == 8 || b == 9 || b == 10 || b == 11 || b == 12 || b == 13 || b == 14 || b == 15;
    }
  }

  lemma CharsetRevRow1()
    ensures forall b :: 16 <= b < 32 ==> RevEntryOk(b)
  {
    forall b | 16 <= b < 32 ensures RevEntryOk(b) {
      assert b == 16 || b == 17 || b == 18 || b == 19 || b == 20 || b == 21 || b == 22 || b ==
        23 || b == 24 || b == 25 || b == 26 || b == 27 || b == 28 || b == 29 || b == 30 || b ==
        31;
    }
  }

  lemma CharsetRevRow2()
    ensures forall b :: 32 <= b < 48 ==> RevEntryOk(b)
  {
    forall b | 32 <= b < 48 ensures RevEntryOk(b) {
      assert b == 32 || b == 33 || b == 34 || b == 35 || b == 36 || b == 37 || b == 38 || b ==
        39 || b == 40 || b == 41 || b == 42 || b == 43 || b == 44 || b == 45 || b == 46 || b ==
        47;
    }
  }

  lemma CharsetRevRow3()
    ensures forall b :: 48 <= b < 64 ==> RevEntryOk(b)
  {
    forall b | 48 <= b < 64 ensures RevEntryOk(b) {
      assert b == 48 || b == 49 || b == 50 || b == 51 || b == 52 || b == 53 || b == 54 || b ==
        55 || b == 56 || b == 57 || b == 58 || b == 59 || b == 60 || b == 61 || b == 62 || b ==
        63;
    }
  }

  lemma CharsetRevRow4()
    ensures forall b :: 64 <= b < 80 ==> RevEntryOk(b)
  {
    forall b | 64 <= b < 80 ensures RevEntryOk(b) {
      assert b == 64 || b == 65 || b == 66 || b == 67 || b == 68 || b == 69 || b == 70 || b ==
        71 || b == 72 || b == 73 || b == 74 || b == 75 || b == 76 || b == 77 || b == 78 || b ==
        79;
    }
  }

  lemma CharsetRevRow5()
    ensures forall b :: 80 <= b < 96 ==> RevEntryOk(b)
  {
    forall b | 80 <= b < 96 ensures RevEntryOk(b) {
      assert b == 80 || b == 81 || b == 82 || b == 83 || b == 84 || b == 85 || b == 86 || b ==
        87 || b == 88 || b == 89 || b == 90 || b == 91 || b == 92 || b == 93 || b == 94 || b ==
        95;
    }
  }

  lemma CharsetRevRow6()
    ensures forall b :: 96 <= b < 112 ==> RevEntryOk(b)
  {
    forall b | 96 <= b < 112 ensures RevEntryOk(b) {
      assert b == 96 || b == 97 || b == 98 || b == 99 || b == 100 || b == 101 || b == 102 || b
        == 103 || b == 104 || b == 105 || b == 106 || b == 107 || b == 108 || b == 109 || b ==
        110 || b == 111;
    }
  }

  lemma CharsetRevRow7()
    ensures forall b :: 112 <= b < 128 ==> RevEntryOk(b)
  {
    forall b | 112 <= b < 128 ensures RevEntryOk(b) {
      assert b == 112 || b == 113 || b == 114 || b == 115 || b == 116 || b == 117 || b == 118 ||
        b == 119 || b == 120 || b == 121 || b == 122 || b == 123 || b == 124 || b == 125 || b ==
        126 || b == 127;
    }
  }

  lemma CharsetRow0()
    ensures forall v :: 0 <= v < 4 ==> CharsetEntryOk(v)
  {
    forall v | 0 <= v < 4 ensures CharsetEntryOk(v) {
      if v == 0 {
        assert Charset[0] == 'q'; assert CharsetRev[113] == 0; assert CharsetRev[81] == 0; assert CharsetEntryOk(0);
      } else if v == 1 {
        assert Charset[1] == 'p'; assert CharsetRev[112] == 1; assert CharsetRev[80] == 1; assert CharsetEntryOk(1);
      } else if v == 2 {
        assert Charset[2] == 'z'; assert CharsetRev[122] == 2; assert CharsetRev[90] == 2; assert CharsetEntryOk(2);
      } else {
        assert v == 3; assert Charset[3] == 'r'; assert CharsetRev[114] == 3; assert CharsetRev[82] == 3; assert CharsetEntryOk(3);
      }
    }
  }

  lemma CharsetRow1()
    ensures forall v :: 4 <= v < 8 ==> CharsetEntryOk(v)
  {
    forall v | 4 <= v < 8 ensures CharsetEntryOk(v) {
      if v == 4 {
        assert Charset[4] == 'y'; assert CharsetRev[121] == 4; assert CharsetRev[89] == 4; assert CharsetEntryOk(4);
      } else if v == 5 {
        assert Charset[5] == '9'; assert CharsetRev[57] == 5; assert CharsetEntryOk(5);
      } else if v == 6 {
        assert Charset[6] == 'x'; assert CharsetRev[120] == 6; assert CharsetRev[88] == 6; assert CharsetEntryOk(6);
      } else {
        assert v == 7; assert Charset[7] == '8'; assert CharsetRev[56] == 7; assert CharsetEntryOk(7);
      }
    }
  }

  lemma CharsetRow2()
    ensures forall v :: 8 <= v < 12 ==> CharsetEntryOk(v)
  {
    forall v | 8 <= v < 12 ensures CharsetEntryOk(v) {
      if v == 8 {
        assert Charset[8] == 'g'; assert CharsetRev[103] == 8; assert CharsetRev[71] == 8; assert CharsetEntryOk(8);
      } else if v == 9 {
        assert Charset[9] == 'f'; assert CharsetRev[102] == 9; assert CharsetRev[70] == 9; assert CharsetEntryOk(9);
      } else if v == 10 {
        assert Charset[10] == '2'; assert CharsetRev[50] == 10; assert CharsetEntryOk(10);
      } else {
        assert v == 11; assert Charset[11] == 't'; assert CharsetRev[116] == 11; assert CharsetRev[84] == 11; assert CharsetEntryOk(11);
      }
    }
  }

  lemma CharsetRow3()
    ensures forall v :: 12 <= v < 16 ==> CharsetEntryOk(v)
  {
    forall v | 12 <= v < 16 ensures CharsetEntryOk(v) {
      if v == 12 {
        assert Charset[12] == 'v'; assert CharsetRev[118] == 12; assert CharsetRev[86] == 12; assert CharsetEntryOk(12);
      } else if v == 13 {
        assert Charset[13] == 'd'; assert CharsetRev[100] == 13; assert CharsetRev[68] == 13; assert CharsetEntryOk(13);
      } else if v == 14 {
        assert Charset[14] == 'w'; assert CharsetRev[119] == 14; assert CharsetRev[87] == 14; assert CharsetEntryOk(14);
      } else {
        assert v == 15; assert Charset[15] == '0'; assert CharsetRev[48] == 15; assert CharsetEntryOk(15);
      }
    }
  }

  lemma CharsetRow4()
    ensures forall v :: 16 <= v < 20 ==> CharsetEntryOk(v)
  {
    forall v | 16 <= v < 20 ensures CharsetEntryOk(v) {
      if v == 16 {
        assert Charset[16] == 's'; assert CharsetRev[115] == 16; assert CharsetRev[83] == 16; assert CharsetEntryOk(16);
      } else if v == 17 {
        assert Charset[17] == '3'; assert CharsetRev[51] == 17; assert CharsetEntryOk(17);
      } else if v == 18 {
        assert Charset[18] == 'j'; assert CharsetRev[106] == 18; assert CharsetRev[74] == 18; assert CharsetEntryOk(18);
      } else {
        assert v == 19; assert Charset[19] == 'n'; assert CharsetRev[110] == 19; assert CharsetRev[78] == 19; assert CharsetEntryOk(19);
      }
    }
  }

  lemma CharsetRow5()
    ensures forall v :: 20 <= v < 24 ==> CharsetEntryOk(v)
  {
    forall v | 20 <= v < 24 ensures CharsetEntryOk(v) {
      if v == 20 {
        assert Charset[20] == '5'; assert CharsetRev[53] == 20; assert CharsetEntryOk(20);
      } else if v == 21 {
        assert Charset[21] == '4'; assert CharsetRev[52] == 21; assert CharsetEntryOk(21);
      } else if v == 22 {
        assert Charset[22] == 'k'; assert CharsetRev[107] == 22; assert CharsetRev[75] == 22; assert CharsetEntryOk(22);
      } else {
        assert v == 23; assert Charset[23] == 'h'; assert CharsetRev[104] == 23; assert CharsetRev[72] == 23; assert CharsetEntryOk(23);
      }
    }
  }

  lemma CharsetRow6()
    ensures forall v :: 24 <= v < 28 ==> CharsetEntryOk(v)
  {
    forall v | 24 <= v < 28 ensures CharsetEntryOk(v) {
      if v == 24 {
        assert Charset[24] == 'c'; assert CharsetRev[99] == 24; assert CharsetRev[67] == 24; assert CharsetEntryOk(24);
      } else if v == 25 {
        assert Charset[25] == 'e'; assert CharsetRev[101] == 25; assert CharsetRev[69] == 25; assert CharsetEntryOk(25);
      } else if v == 26 {
        assert Charset[26] == '6'; assert CharsetRev[54] == 26; assert CharsetEntryOk(26);
      } else {
        assert v == 27; assert Charset[27] == 'm'; assert CharsetRev[109] == 27; assert CharsetRev[77] == 27; assert CharsetEntryOk(27);
      }
    }
  }

  lemma CharsetRow7()
    ensures forall v :: 28 <= v < 32 ==> CharsetEntryOk(v)
  {
    forall v | 28 <= v < 32 ensures CharsetEntryOk(v) {
      if v == 28 {
        assert Charset[28] == 'u'; assert CharsetRev[117] == 28; assert CharsetRev[85] == 28; assert CharsetEntryOk(28);
      } else if v == 29 {
        assert Charset[29] == 'a'; assert CharsetRev[97] == 29; assert CharsetRev[65] == 29; assert CharsetEntryOk(29);
      } else if v == 30 {
        assert Charset[30] == '7'; assert CharsetRev[55] == 30; assert CharsetEntryOk(30);
      } else {
        assert v == 31; assert Charset[31] == 'l'; assert CharsetRev[108] == 31; assert CharsetRev[76] == 31; assert CharsetEntryOk(31);
      }
    }
  }

  /** `charset_rev` is exactly the inverse of the character set in either
      case: each of the 32 characters, lower or upper case, maps to its own
      value, and every other code below 128 maps to -1. */
  lemma CharsetRevInvertsCharset()
    ensures |CharsetRev| == 128 && |Charset| == 32
    ensures forall v :: 0 <= v < 32 ==> Charset[v] as int < 128 && CharsetRev[Charset[v] as int] == v
    ensures forall v :: 0 <= v < 32 ==> Upper(Charset[v]) as int < 128 && CharsetRev[Upper(Charset[v]) as int] == v
    ensures forall b :: 0 <= b < 128 ==> (CharsetRev[b] == -1 || (0 <= CharsetRev[b] && Writes(b, CharsetRev[b])))
    ensures forall v :: 0 <= v < 32 ==> Charset[v] != '1' && !('A' <= Charset[v] <= 'Z')
  {
    CharsetRevRow0(); CharsetRevRow1(); CharsetRevRow2(); CharsetRevRow3();
    CharsetRevRow4(); CharsetRevRow5(); CharsetRevRow6(); CharsetRevRow7();
    CharsetRow0(); CharsetRow1(); CharsetRow2(); CharsetRow3();
    CharsetRow4(); CharsetRow5(); CharsetRow6(); CharsetRow7();
    forall b | 0 <= b < 128
      ensures CharsetRev[b] == -1 || (0 <= CharsetRev[b] && Writes(b, CharsetRev[b]))
    {
      assert RevEntryOk(b);
    }
    forall v | 0 <= v < 32
      ensures Charset[v] as int < 128 && Upper(Charset[v]) as int < 128
      ensures CharsetRev[Charset[v] as int] == v
      ensures CharsetRev[Upper(Charset[v]) as int] == v
      ensures Charset[v] != '1' && !('A' <= Charset[v] <= 'Z')
    {
      assert CharsetEntryOk(v);
    }
  }

  /** A code below 128 has a value exactly when it writes one, and then it
      writes no other: the non-sentinel entries are 0..31, each once in lower
      and once in upper case. */
  lemma CharsetRevExact(b: nat, v: nat)
    requires b < 128
    ensures CharsetRev[b] == v <==> Writes(b, v)
  {
    CharsetRevInvertsCharset();
    if Writes(b, v) {
      assert CharsetRev[b] == v;
    }
  }

  /** Upper- and lower-case letters have the same entry. */
  lemma CaseInsensitive(c: char)
    requires 'a' <= c <= 'z'
    ensures CharsetRev[Upper(c) as int] == CharsetRev[c as int]
  {
    CharsetRevInvertsCharset();
    var lo, up := c as int, Upper(c) as int;
    if CharsetRev[lo] != -1 {
      var v := CharsetRev[lo];
      assert Charset[v] as int == lo;
      CharsetRevExact(up, v);
    } else if CharsetRev[up] != -1 {
      var v := CharsetRev[up];
      assert Upper(Charset[v]) as int == up;
      CharsetRevExact(lo, v);
    }
  }

  // ---------------------------------------------------------------------------
  // The decoder

  /** The value of an input byte: its `charset_rev` entry, or 0xFF for the
      -1 sentinel and for any byte with the high bit set. */
  function DataValue(b: byte): (v: byte)
    ensures v < 32 || v == 0xFF
  {
    RevEntry(b);
    if b >= 0x80 || CharsetRev[b] == -1 then 0xFF else CharsetRev[b]
  }

  /** One entry of `charset_rev`: the sentinel or a 5-bit value. */
  lemma RevEntry(b: byte)
    ensures b < 0x80 ==> -1 <= CharsetRev[b] < 32
  {
    CharsetRevInvertsCharset();
  }

  /** What the loop body of `bech32_decode` stores: the entry (-1 for a
      high-bit byte) converted to `uint8_t`. */
  lemma StoredValue(b: byte)
    ensures (if b >= 0x80 then -1 else CharsetRev[b]) % 0x100 == DataValue(b)
  {
    RevEntry(b);
    StoredByte(if b >= 0x80 then -1 else CharsetRev[b]);
  }

  /** An entry of the reverse table converted to `uint8_t`. */
  lemma StoredByte(x: int)
    requires -1 <= x < 32
    ensures x % 0x100 == if x == -1 then 0xFF else x
  {
  }

  /** A byte decodes to a 5-bit value exactly when it writes that value. */
  lemma DataValueExact(b: byte, v: nat)
    requires v < 32
    ensures DataValue(b) == v <==> Writes(b, v)
  {
    CharsetRevInvertsCharset();
    if b < 0x80 {
      CharsetRevExact(b, v);
    }
  }

  /** The scan from the end of the string for the separator: starting `n`
      characters from the end, the number of characters after the last '1'
      (all of them when there is none). */
  function TrailFrom(s: seq<byte>, n: nat): (t: nat)
    requires n <= |s|
    ensures n <= t <= |s|
    ensures forall i :: |s| - t <= i < |s| - n ==> s[i] != Separator
    ensures t == |s| || s[|s| - 1 - t] == Separator
    decreases |s| - n
  {
    if n < |s| && s[|s| - 1 - n] != Separator then TrailFrom(s, n + 1) else n
  }

  /** The number of characters of the C string `s` after its last '1'. */
  function TrailLen(s: seq<byte>): (t: nat)
    ensures t <= StrLen(s)
    ensures forall i :: StrLen(s) - t <= i < StrLen(s) ==> s[i] != Separator
    ensures t == StrLen(s) || s[StrLen(s) - 1 - t] == Separator
  {
    assert forall i :: 0 <= i < StrLen(s) ==> CStr(s)[i] == s[i];
    TrailFrom(CStr(s), 0)
  }

  /** The byte values of a run of characters. */
  function Values(bs: seq<byte>): (r: seq<byte>)
    ensures |r| == |bs|
    ensures forall k :: 0 <= k < |bs| ==> r[k] == DataValue(bs[k])
  {
    seq(|bs|, k requires 0 <= k < |bs| => DataValue(bs[k]))
  }

  /** Where the data part of the C string `s` starts: after the last '1'. */
  function DataStart(s: seq<byte>): nat
  {
    StrLen(s) - TrailLen(s)
  }

  /** The values `bech32_decode` reports: one per character after the last
      '1', dropping the six checksum characters. */
  function DataPart(s: seq<byte>): (r: seq<byte>)
    ensures |r| == if TrailLen(s) < 6 then 0 else TrailLen(s) - 6
    ensures forall k :: 0 <= k < |r| ==> r[k] == DataValue(s[DataStart(s) + k])
  {
    var start := DataStart(s);
    Values(s[start..if TrailLen(s) < 6 then start else StrLen(s) - 6])
  }

  /** `bech32_decode`: frame the data part of `input` into the buffer
      `data`.  `dataLen` is the number of characters after the last '1',
      less six; that many values are written, and the rest of the buffer
      (where the checksum would go) is left as it was. */
  method Bech32Decode(data: seq<byte>, input: seq<byte>) returns (out: seq<byte>, dataLen: int)
    requires TrailLen(input) - 6 <= |data|
    ensures |out| == |data|
    ensures dataLen == TrailLen(input) - 6
    ensures out[..|DataPart(input)|] == DataPart(input)
    ensures out[|DataPart(input)|..] == data[|DataPart(input)|..]
  {
    var inputLen := StrLen(input);
    dataLen := ScanTrail(input);
    var hrpLen := inputLen - (1 + dataLen);
    dataLen := dataLen - 6;
    out := StoreValues(data, input, hrpLen + 1, inputLen);
    Overwritten(out, data, input, hrpLen + 1, inputLen);
  }

  /** A buffer that holds the values of the characters from `first` on,
      less the last six, at the front and the old contents after them holds
      the data part. */
  lemma Overwritten(out: seq<byte>, data: seq<byte>, input: seq<byte>, first: nat, inputLen: nat)
    requires inputLen == StrLen(input) && first == DataStart(input)
    requires inputLen - first - 6 <= |data| == |out|
    requires forall k :: 0 <= k < inputLen - first - 6 ==> out[k] == DataValue(input[first + k])
    requires forall k :: 0 <= k < |data| && k >= inputLen - first - 6 ==> out[k] == data[k]
    ensures out[..|DataPart(input)|] == DataPart(input)
    ensures out[|DataPart(input)|..] == data[|DataPart(input)|..]
  {
    PartAgrees(out, data, input, first, inputLen);
    PrefixThen(out, data, DataPart(input));
  }

  /** The stored values are the data part, and everything after it is the
      old contents. */
  lemma PartAgrees(out: seq<byte>, data: seq<byte>, input: seq<byte>, first: nat, inputLen: nat)
    requires inputLen == StrLen(input) && first == DataStart(input)
    requires inputLen - first - 6 <= |data| == |out|
    requires forall k :: 0 <= k < inputLen - first - 6 ==> out[k] == DataValue(input[first + k])
    requires forall k :: 0 <= k < |data| && k >= inputLen - first - 6 ==> out[k] == data[k]
    ensures |DataPart(input)| <= |out|
    ensures forall k :: 0 <= k < |DataPart(input)| ==> out[k] == DataPart(input)[k]
    ensures forall k :: |DataPart(input)| <= k < |data| ==> out[k] == data[k]
  {
    var p := DataPart(input);
    var n := if inputLen - first < 6 then 0 else inputLen - first - 6;
    assert |p| == n;
    Agree(out, input, first, n, p);
  }

  /** Two runs of `n` values of the same characters agree. */
  lemma Agree(out: seq<byte>, input: seq<byte>, first: nat, n: nat, p: seq<byte>)
    requires |p| == n <= |out| && first + n <= |input|
    requires forall k :: 0 <= k < n ==> p[k] == DataValue(input[first + k])
    requires forall k :: 0 <= k < n ==> out[k] == DataValue(input[first + k])
    ensures forall k :: 0 <= k < n ==> out[k] == p[k]
  {
  }

  /** A buffer that agrees with `p` below `|p|` and with `data` from there
      on is `p` followed by the rest of `data`. */
  lemma PrefixThen(out: seq<byte>, data: seq<byte>, p: seq<byte>)
    requires |p| <= |out| == |data|
    requires forall k :: 0 <= k < |p| ==> out[k] == p[k]
    requires forall k :: |p| <= k < |data| ==> out[k] == data[k]
    ensures out[..|p|] == p && out[|p|..] == data[|p|..]
  {
  }

  /** The second loop of `bech32_decode`: map every character from `first`
      to the end of the string, storing all but the last six values. */
  method StoreValues(data: seq<byte>, input: seq<byte>, first: nat, inputLen: nat) returns (out: seq<byte>)
    requires first <= inputLen <= |input|
    requires inputLen - first - 6 <= |data|
    ensures |out| == |data|
    ensures forall k :: 0 <= k < inputLen - first - 6 ==> out[k] == DataValue(input[first + k])
    ensures forall k :: 0 <= k < |data| && k >= inputLen - first - 6 ==> out[k] == data[k]
  {
    out := data;
    var i := first;
    while i < inputLen
      invariant first <= i <= inputLen
      invariant |out| == |data|
      invariant forall k :: 0 <= k < i - first && k < inputLen - first - 6 ==> out[k] == DataValue(input[first + k])
      invariant forall k :: 0 <= k < |data| && (k >= i - first || k >= inputLen - first - 6) ==> out[k] == data[k]
    {
      var v: int := if input[i] >= 0x80 then -1 else CharsetRev[input[i]];
      StoredValue(input[i]);
      if i + 6 < inputLen {
        out := out[i - first := v % 0x100];
      }
      i := i + 1;
    }
  }

  /** The first loop of `bech32_decode`: count characters from the end of
      the string up to the last '1'. */
  method ScanTrail(input: seq<byte>) returns (n: int)
    ensures n == TrailLen(input)
  {
    var inputLen := StrLen(input);
    ghost var s := CStr(input);
    n := 0;
    while n < inputLen && input[(inputLen - 1) - n] != Separator
      invariant 0 <= n <= inputLen
      invariant TrailFrom(s, n) == TrailLen(input)
    {
      assert s[|s| - 1 - n] == input[(inputLen - 1) - n];
      n := n + 1;
    }
    assert n < inputLen ==> s[|s| - 1 - n] == input[(inputLen - 1) - n];
  }

  // ---------------------------------------------------------------------------
  // The encoder the decoder inverts

  /** The characters of a sequence of 5-bit values, in lower case. */
  function Spell(vs: seq<nat>): (s: seq<byte>)
    requires forall k :: 0 <= k < |vs| ==> vs[k] < 32
    ensures |s| == |vs|
    ensures forall k :: 0 <= k < |vs| ==> Writes(s[k], vs[k])
  {
    CharsetRevInvertsCharset();
    seq(|vs|, k requires 0 <= k < |vs| => Charset[vs[k]] as int)
  }

  /** A bech32 string: human-readable part, separator, data values and a
      six-value checksum.  The checksum is taken as given: the decoder never
      reads it. */
  function Frame(hrp: seq<byte>, data: seq<nat>, checksum: seq<nat>): seq<byte>
    requires forall k :: 0 <= k < |data| ==> data[k] < 32
    requires |checksum| == 6 && forall k :: 0 <= k < 6 ==> checksum[k] < 32
  {
    hrp + [Separator] + Spell(data + checksum)
  }

  /** The spelled values contain neither NUL nor '1', and each character
      reads back as its value. */
  lemma SpellReads(vs: seq<nat>)
    requires forall k :: 0 <= k < |vs| ==> vs[k] < 32
    ensures 0 !in Spell(vs)
    ensures forall k :: 0 <= k < |vs| ==> Spell(vs)[k] != Separator
    ensures forall k :: 0 <= k < |vs| ==> DataValue(Spell(vs)[k]) == vs[k]
  {
    CharsetRevInvertsCharset();
    var s := Spell(vs);
    forall k | 0 <= k < |vs| ensures s[k] != 0 && s[k] != Separator && DataValue(s[k]) == vs[k] {
      CharsetRevExact(s[k], vs[k]);
    }
  }

  /** In a NUL-free string whose last '1' is at `m`, the scan finds the
      characters after `m`. */
  lemma TrailAt(s: seq<byte>, m: nat)
    requires 0 !in s && m < |s| && s[m] == Separator
    requires forall i :: m < i < |s| ==> s[i] != Separator
    ensures TrailLen(s) == |s| - 1 - m
  {
    WholeCStr(s);
  }

  /** After a NUL-free human-readable part and the separator, a tail free
      of NUL and '1' is exactly what the scan finds after the last '1'. */
  lemma TrailOfSeparated(hrp: seq<byte>, tail: seq<byte>)
    requires 0 !in hrp && 0 !in tail
    requires forall k :: 0 <= k < |tail| ==> tail[k] != Separator
    ensures StrLen(hrp + [Separator] + tail) == |hrp| + 1 + |tail|
    ensures TrailLen(hrp + [Separator] + tail) == |tail|
    ensures DataStart(hrp + [Separator] + tail) == |hrp| + 1
    ensures (hrp + [Separator] + tail)[|hrp| + 1..|hrp| + 1 + |tail|] == tail
  {
    var s := hrp + [Separator] + tail;
    forall i | |hrp| < i < |s| ensures s[i] == tail[i - |hrp| - 1] {
    }
    assert 0 !in s;
    WholeCStr(s);
    TrailAt(s, |hrp|);
  }

  /** Reading spelled values back gives the values. */
  lemma ReadSpell(vs: seq<nat>)
    requires forall k :: 0 <= k < |vs| ==> vs[k] < 32
    ensures Values(Spell(vs)) == vs
  {
    SpellReads(vs);
  }

  /** Spelling is character by character. */
  lemma SpellPrefix(a: seq<nat>, b: seq<nat>)
    requires forall k :: 0 <= k < |a| ==> a[k] < 32
    requires forall k :: 0 <= k < |b| ==> b[k] < 32
    ensures Spell(a + b)[..|a|] == Spell(a)
  {
  }

  /** Decoding a framed string gives back exactly its data values, whatever
      the human-readable part (even one containing '1'). */
  lemma DecodeFrame(hrp: seq<byte>, data: seq<nat>, checksum: seq<nat>)
    requires 0 !in hrp
    requires forall k :: 0 <= k < |data| ==> data[k] < 32
    requires |checksum| == 6 && forall k :: 0 <= k < 6 ==> checksum[k] < 32
    ensures TrailLen(Frame(hrp, data, checksum)) == |data| + 6
    ensures DataPart(Frame(hrp, data, checksum)) == data
  {
    var tail := Spell(data + checksum);
    SpellReads(data + checksum);
    TrailOfSeparated(hrp, tail);
    SpellPrefix(data, checksum);
    ReadPart(hrp + [Separator] + tail, tail, data);
  }

  /** A string whose characters after the last '1' start with the spelling
      of `vs`, followed by six more, decodes to `vs`. */
  lemma ReadPart(s: seq<byte>, tail: seq<byte>, vs: seq<nat>)
    requires forall k :: 0 <= k < |vs| ==> vs[k] < 32
    requires TrailLen(s) == |vs| + 6 && |vs| <= |tail| && DataStart(s) + |tail| <= |s|
    requires s[DataStart(s)..DataStart(s) + |tail|] == tail && tail[..|vs|] == Spell(vs)
    ensures DataPart(s) == vs
  {
    var start := DataStart(s);
    assert s[start..start + |vs|] == tail[..|vs|];
    ReadSpell(vs);
  }
}
