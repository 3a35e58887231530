# Address to output script, in Dafny

A model of the address decoding in `cryptocurrencyaddr.cc`, with its
properties proved. The function `address_to_txn` turns a cryptocurrency
address into the output script that pays to it:

- A legacy base58 address becomes a pay-to-public-key-hash (P2PKH) script.
  With the script flag set, it becomes a pay-to-script-hash (P2SH) script
  instead.
- A bech32 address, selected by the segwit flag, becomes a witness-program
  script as defined in BIP 141.

The code validates nothing:

- The base58 checksum is never checked.
- The bech32 checksum is never checked.
- Characters outside the alphabets are not rejected.

The model keeps this behaviour. An unknown bech32 character decodes to the
byte 0xFF, and an unknown base58 character decodes to the digit 2^32 - 1.
Only the inputs on which the C code would read out of bounds, or run its
loop without end, are excluded by preconditions.

BIP 141 allows witness versions 0 to 16 only, but the code does not check
the version. It writes `version + 0x50` for any non-zero first value:

- 17..31 give the bytes 0x61..0x6F, which are not version opcodes;
- the 0xFF of an unknown character gives 0x4F, which is OP_1NEGATE.

The model follows the code. `Script.VersionOpInverse` states exactly which
versions come out as OP_0..OP_16.

Modules, in dependency order:

| file | module | models |
|---|---|---|
| `numerals.dfy` | `Numerals` | digit strings in a base, `FromDigits` (big-endian value), `ToDigits`, and the arithmetic the proofs need |
| `cstrings.dfy` | `CStrings` | `strlen` on a NUL-terminated buffer |
| `base58.dfy` | `Base58` | `b58tobin_tbl` and `b58tobin`: the seven-word multiply-by-58 accumulator and the 25-byte big-endian output |
| `bech32.dfy` | `Bech32` | `charset_rev` and `bech32_decode`: the scan for the last '1' and the mapping of the data part |
| `regrouping.dfy` | `Regrouping` | `convert_bits`, step by step on a wrapping 32-bit accumulator, proved equal to a bitstream specification |
| `script.dfy` | `Script` | `address_to_pubkeytxn`, `address_to_scripttxn`, `segaddress_to_txn` and `address_to_txn` |

Each operation has a partner to check it against:

- `Base58.Encode` is Bitcoin's base58 encoder, and decoding its output gives
  the payload back.
- `Bech32.Frame` builds a bech32 string from a human-readable part, data
  values and a checksum, and `bech32_decode` recovers the data values.
- `Regrouping.ToFive` is BIP 173's `convertbits(…, 8, 5, pad)`.
  `convert_bits` undoes it.
- `Script.Parse` recognises output scripts and inverts `Script.Serialize`.

The two decoders join up with the templates in `Script.LegacyRoundTrip` and
`Script.SegwitRoundTrip`.

## Model

| member | source | states |
|---|---|---|
| CStrings.StrLen | cryptocurrencyaddr.cc:81 | `strlen`: the length is the number of bytes before the first NUL, and the byte there is NUL. It is the whole buffer when the buffer has no NUL |
| Base58.TableInvertsAlphabet | cryptocurrencyaddr.cc:114-123 | `b58tobin_tbl` has 123 entries. Each of the 58 alphabet characters maps to its own digit, so the digits 0..57 each appear once. Every other code, including '0', 'I', 'O' and 'l', maps to -1 |
| Base58.MulAdd58 | cryptocurrencyaddr.cc:139-141 | one inner step: the carry `(t & 0x3f00000000) >> 32` is at most 58, so the mask loses nothing. The new word plus the carry times 2^32 is exactly `bin32[j] * 58 + c` |
| Base58.MulAddWords | cryptocurrencyaddr.cc:138-142 | the inner loop over words 6..0 leaves the accumulator at (old value * 58 + c) mod 2^224. The carry out of word 0 is dropped |
| Base58.ReadDigits | cryptocurrencyaddr.cc:133-143 | starting from zero, the outer loop leaves the seven words holding the base-58 value of the whole string mod 2^224 |
| Base58.EmitBytes | cryptocurrencyaddr.cc:144-148 | the low byte of word 0, then words 1..6 each stored big-endian: 25 bytes whose big-endian value is the accumulator mod 2^200 |
| Base58.Truncate224To200 | cryptocurrencyaddr.cc:144-148 | keeping the low 200 of 224 bits is taking the value mod 2^200 |
| Base58.B58ToBin | cryptocurrencyaddr.cc:127-149 | `b58tobin` writes 25 bytes. Read big-endian, they are the value of the digit string mod 2^200. They are the 25 low bytes of that value |
| Base58.Decode | cryptocurrencyaddr.cc:127-149 | the decoded payload has 25 bytes, and its big-endian value is the string's value mod 2^200 |
| Base58.DecodedFields | cryptocurrencyaddr.cc:144-148 | the fields of the payload: byte 0 is bits 192..199 of the value, bytes 1..20 are bits 32..191, and bytes 21..24 are bits 0..31 |
| Base58.LeadingOnes | cryptocurrencyaddr.cc:135-142 | leading '1' characters are zero digits: prefixing any number of them leaves the value unchanged |
| Base58.EncodeDigits | cryptocurrencyaddr.cc:135-137 | the base58 text of a payload is NUL-free and inside the table. Its digits are one zero per leading zero byte, then the base-58 numeral of the value |
| Base58.DecodeEncode | cryptocurrencyaddr.cc:127-149 | decoding the base58 text of any 25-byte payload gives that payload back |
| Bech32.CharsetRevInvertsCharset | cryptocurrencyaddr.cc:66-75 | `charset_rev` has 128 entries. Each of the 32 characters maps to its value in lower and in upper case, and every other entry is -1. The character set contains neither '1' nor an upper-case letter |
| Bech32.CharsetRevExact | cryptocurrencyaddr.cc:66-75 | an entry below 128 equals `v` if and only if the code writes `v`, in either case. So the non-sentinel entries are exactly 0..31, each once per case |
| Bech32.CaseInsensitive | cryptocurrencyaddr.cc:66-75 | an upper-case letter has the same entry as its lower-case letter |
| Bech32.DataValue | cryptocurrencyaddr.cc:89 | the value of an input byte is a 5-bit value, or 0xFF for the sentinel and for a byte with the high bit set |
| Bech32.StoredValue | cryptocurrencyaddr.cc:89-92 | the `int` `v` stored into a `uint8_t` is the byte's value, with -1 becoming 0xFF |
| Bech32.DataValueExact | cryptocurrencyaddr.cc:89 | a byte decodes to the 5-bit value `v` if and only if it writes `v` in the character set |
| Bech32.TrailFrom | cryptocurrencyaddr.cc:84-85 | the scan resumed `n` characters from the end stops at the last '1' before them, or at the start of the string. Every character it passes is not '1' |
| Bech32.TrailLen | cryptocurrencyaddr.cc:83-85 | the count of characters after the last '1' of the C string. None of them is '1', and the character before them is '1' unless they are the whole string |
| Bech32.ScanTrail | cryptocurrencyaddr.cc:81-85 | the backward scan of `bech32_decode` computes that count |
| Bech32.StoreValues | cryptocurrencyaddr.cc:88-93 | the storing loop writes the value of every character from `hrp_len + 1` on, except the last six, and leaves the rest of `data` as it was |
| Bech32.DataPart | cryptocurrencyaddr.cc:86-93 | the values decoded: one per character after the last '1', less the six checksum characters, each the value of its character |
| Bech32.Bech32Decode | cryptocurrencyaddr.cc:79-94 | `bech32_decode` sets `data_len` to the characters after the last '1' less six. `data` starts with exactly the decoded values, and the rest of the buffer is untouched |
| Bech32.SpellReads | cryptocurrencyaddr.cc:66-75 | the characters of 5-bit values contain neither NUL nor '1', and each reads back as its value |
| Bech32.TrailOfSeparated | cryptocurrencyaddr.cc:83-86 | after a NUL-free prefix and a '1', a tail free of NUL and '1' is exactly what the scan finds, even when the prefix holds '1's |
| Bech32.DecodeFrame | cryptocurrencyaddr.cc:79-94 | for any human-readable part, data values and checksum, decoding the bech32 string finds `|data| + 6` trailing characters and gives the data values back |
| Regrouping.Shl5 | cryptocurrencyaddr.cc:104 | `val << 5` on a `uint32_t` leaves the low five bits clear, so the input can be OR-ed in |
| Regrouping.AccumulateLow | cryptocurrencyaddr.cc:104 | `(val << 5) \| x` for a 5-bit `x` is the low 27 bits of `val` times 32, plus `x`. The top five bits are lost |
| Regrouping.ShiftIn | cryptocurrencyaddr.cc:104-105 | when the low `bits` bits of `val` spell the pending bits, the low `bits + 5` bits after the shift spell them followed by the five bits of the input |
| Regrouping.SplitPending | cryptocurrencyaddr.cc:106-108 | with 8 or more bits pending, `(val >> (bits - 8)) & 0xff` is the first eight of them, and the bits below spell the rest |
| Regrouping.Drain | cryptocurrencyaddr.cc:106-109 | the inner loop emits one byte for every whole eight pending bits |
| Regrouping.OrAdd | cryptocurrencyaddr.cc:104 | OR-ing a `k`-bit input into an accumulator whose low `k` bits are clear is an addition |
| Regrouping.OrBound | cryptocurrencyaddr.cc:104 | the OR of two `k`-bit numbers is a `k`-bit number, so `val` stays a `uint32_t` |
| Regrouping.ConvertLength | cryptocurrencyaddr.cc:103-110 | the loops emit one byte per eight bits seen, whatever the input values |
| Regrouping.ConvertBits | cryptocurrencyaddr.cc:96-111 | `convert_bits` appends floor(5 * inlen / 8) bytes |
| Regrouping.ConvertSpec | cryptocurrencyaddr.cc:103-110 | with `val` holding the pending bits, the rest of the loop emits the pending bits followed by the inputs' bits, cut into bytes |
| Regrouping.ConvertBitsGroups | cryptocurrencyaddr.cc:96-111 | for 5-bit inputs, the output is the MSB-first bitstream of the inputs cut into 8-bit groups, with a short tail dropped |
| Regrouping.ConvertBitsStream | cryptocurrencyaddr.cc:96-111 | output byte `m` is bits [8m, 8m+8) of the inputs' concatenated bits, and those bits exist |
| Regrouping.ConvertToFive | cryptocurrencyaddr.cc:96-111 | `convert_bits` undoes BIP 173's padded split of any byte string into 5-bit groups |
| Script.Serialize | cryptocurrencyaddr.cc:151-191 | a P2PKH script has 25 bytes, a P2SH script has 23 bytes, and a witness script has 2 plus the program's length |
| Script.VersionOpInverse | cryptocurrencyaddr.cc:184-187 | for the bytes the decoder stores, the version byte is an OP_0..OP_16 opcode if and only if the version is at most 16. For 1..16 it is 0x50 + n, and it reads back as the version |
| Script.ParseSerialize | cryptocurrencyaddr.cc:151-191 | every standard output is recognised from its bytes as itself |
| Script.SerializeParse | cryptocurrencyaddr.cc:151-191 | whatever is recognised is exactly the bytes of the output it is recognised as |
| Script.LegacyHash | cryptocurrencyaddr.cc:159 | the 20 bytes copied from `b58bin[1]` are bits 32..191 of the address's value. Neither the version byte nor the four checksum bytes is among them |
| Script.AddressToPubkeyTxn | cryptocurrencyaddr.cc:151-163 | returns 25 and writes `76 a9 14`, the 20-byte hash, then `88 ac` |
| Script.AddressToScriptTxn | cryptocurrencyaddr.cc:165-175 | returns 23 and writes `a9 14`, the 20-byte hash, then `87` |
| Script.LegacyRoundTrip | cryptocurrencyaddr.cc:151-175 | for the base58 text of any 25-byte payload, the hash in the script is bytes 1..20 of the payload |
| Script.WitnessOf | cryptocurrencyaddr.cc:183-189 | the witness version is the first decoded value. The program has floor(5 * (data_len - 1) / 8) bytes |
| Script.SegAddressToTxn | cryptocurrencyaddr.cc:177-191 | returns the program length plus 2 and writes the version byte, the program length, then `convert_bits` of the remaining values |
| Script.SegwitRoundTrip | cryptocurrencyaddr.cc:177-191 | for a bech32 string whose data part is a version and the 5-bit groups of a program, the script carries exactly that version and program, whatever the human-readable part and checksum |
| Script.AddressToTxn | cryptocurrencyaddr.cc:194-201 | the segwit flag gives the witness script whatever the script flag is. Otherwise the script flag gives the 23-byte P2SH script, and no flag gives the 25-byte P2PKH script. The result fits the 255-byte output buffer |

## Left out

- Node/V8 glue: the compatibility macros (cryptocurrencyaddr.cc:12-64), the argument marshalling of `addressToScript`, its "fewer than 3 arguments" exception, the copy into a `Buffer`, and module registration (cryptocurrencyaddr.cc:203-228). These are host-runtime plumbing. The model starts from the `char *` the glue passes in, as a `seq<byte>`.
- Buffers as memory: every output is the sequence of bytes the function writes from index 0. The caller's 255-byte array and the bytes past the returned length are not modelled. `Script.AddressToTxn` proves the result is shorter than 256 bytes.
- `htobe32` comes from a platform header that is not part of this model. It is modelled as the big-endian split of a word into four bytes.
- The 64-bit `t` in `b58tobin` is an unbounded integer. The masks are written out, and `Base58.MulAdd58` shows that `t` fits in 64 bits.
- Behaviour the C language leaves undefined is excluded by preconditions rather than modelled:
  - `Base58.Decodable`: a base58 byte must be below 123. The code indexes the 123-entry table with the byte.
  - `Script.SegDecodable`: there must be 7 to 90 characters after the last '1'. With fewer than 7, `data[0]` is never written and the `convert_bits` count is negative. With more than 90, the 84-byte `data` array overflows.
- `Script.SegAddressToTxn`: the `data` array is uninitialised in C. The model starts it as zeros. Only entries the decoder has written are ever read, which `Bech32.Bech32Decode` states.
- Regrouping.ConvertBitsGroups: the bitstream statement is proved only for inputs below 32. The 0xFF stored for an unknown character is still run through the faithful step-by-step model `Regrouping.ConvertBits`, but no bitstream property is stated for it.
- Checksums: neither the base58check double-SHA-256 nor the bech32 polymod checksum is modelled, because the code verifies neither. The same goes for BIP 141 version and program-length checks and for BIP 350 (bech32m).
- The bech32 human-readable part is not checked or returned by the code, so the model ignores it. `Bech32.DecodeFrame` accepts any NUL-free one.
