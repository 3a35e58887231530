/** Output scripts for addresses.

    `address_to_pubkeytxn` and `address_to_scripttxn` decode a base58
    address and wrap the 20-byte hash in the pay-to-public-key-hash or
    pay-to-script-hash template; `segaddress_to_txn` decodes a bech32
    address into a witness program (BIP 141); `address_to_txn` picks one of
    the three.  The scripts are described by the `Output` datatype, and
    `Parse` reads them back: it is the partner against which the byte
    layouts are proved. */
module Script {
  import opened Numerals
  import Base58
  import Bech32
  import Regrouping

  // ---------------------------------------------------------------------------
  // Opcodes

  const Op0: byte := 0x00
  const Push20: byte := 0x14
  const Op1: byte := 0x51
  const Op16: byte := 0x60
  const OpDup: byte := 0x76
  const OpEqual: byte := 0x87
  const OpEqualVerify: byte := 0x88
  const OpHash160: byte := 0xa9
  const OpCheckSig: byte := 0xac

  // ---------------------------------------------------------------------------
  // Output scripts

  datatype Option<T> = None | Some(value: T)

  /** The three kinds of output the addresses stand for. */
  datatype Output =
    | PubkeyHash(hash: seq<byte>)
    | ScriptHash(hash: seq<byte>)
    | Witness(version: byte, program: seq<byte>)

  /** What the byte layouts can hold: 20-byte hashes, and a program whose
      length fits the one length byte. */
  predicate Valid(o: Output)
  {
    match o
    case PubkeyHash(h) => |h| == 20
    case ScriptHash(h) => |h| == 20
    case Witness(_, p) => |p| < 0x100
  }

  /** The outputs BIP 141 defines: version 0 to 16 and a program of 2 to 40
      bytes. */
  predicate Standard(o: Output)
  {
    Valid(o) && (o.Witness? ==> o.version <= 16 && 2 <= |o.program| <= 40)
  }

  /** The version byte `segaddress_to_txn` writes: the witness version
      itself for 0, otherwise the version plus 0x50 in a `char`. */
  function VersionOp(v: byte): byte
  {
    if v == 0 then 0 else (v + 0x50) % 0x100
  }

  /** OP_0 and OP_1 .. OP_16, the opcodes that push a witness version. */
  predicate IsVersionOp(b: byte)
  {
    b == Op0 || Op1 <= b <= Op16
  }

  function VersionOf(b: byte): (v: byte)
    requires IsVersionOp(b)
    ensures v <= 16
  {
    if b == Op0 then 0 else b - 0x50
  }

  /** The bytes of an output script. */
  function Serialize(o: Output): (s: seq<byte>)
    requires Valid(o)
    ensures o.PubkeyHash? ==> |s| == 25
    ensures o.ScriptHash? ==> |s| == 23
    ensures o.Witness? ==> |s| == 2 + |o.program|
  {
    match o
    case PubkeyHash(h) => [OpDup, OpHash160, Push20] + h + [OpEqualVerify, OpCheckSig]
    case ScriptHash(h) => [OpHash160, Push20] + h + [OpEqual]
    case Witness(v, p) => [VersionOp(v), |p|] + p
  }

  /** Recognise an output script. */
  function Parse(s: seq<byte>): (o: Option<Output>)
    ensures o.Some? ==> Standard(o.value)
  {
    if |s| == 25 && s[0] == OpDup && s[1] == OpHash160 && s[2] == Push20
       && s[23] == OpEqualVerify && s[24] == OpCheckSig then
      Some(PubkeyHash(s[3..23]))
    else if |s| == 23 && s[0] == OpHash160 && s[1] == Push20 && s[22] == OpEqual then
      Some(ScriptHash(s[2..22]))
    else if 4 <= |s| <= 42 && IsVersionOp(s[0]) && s[1] == |s| - 2 then
      Some(Witness(VersionOf(s[0]), s[2..]))
    else
      None
  }

  /** The version byte is OP_n exactly for the versions 0 to 16; for those
      it is 0x50 + n (n > 0), and reading it back gives n.  This is for
      the bytes the bech32 decoder stores: 5-bit values and the 0xFF of an
      unknown character (0xFF gives 0x4F, OP_1NEGATE). */
  lemma VersionOpInverse(v: byte)
    requires v < 32 || v == 0xFF
    ensures IsVersionOp(VersionOp(v)) <==> v <= 16
    ensures 0 < v <= 16 ==> VersionOp(v) == 0x50 + v
    ensures v <= 16 ==> VersionOf(VersionOp(v)) == v
  {
  }

  /** Every standard output is recognised from its bytes. */
  lemma ParseSerialize(o: Output)
    requires Standard(o)
    ensures Parse(Serialize(o)) == Some(o)
  {
    var s := Serialize(o);
    match o
    case PubkeyHash(h) =>
      assert s[3..23] == h;
    case ScriptHash(h) =>
      assert s[2..22] == h;
    case Witness(v, p) =>
      VersionOpInverse(v);
      assert s[2..] == p;
  }

  /** Whatever is recognised is exactly the bytes of what it is recognised
      as. */
  lemma SerializeParse(s: seq<byte>)
    requires Parse(s).Some?
    ensures Serialize(Parse(s).value) == s
  {
    var o := Parse(s).value;
    match o
    case PubkeyHash(h) =>
      assert s == [s[0], s[1], s[2]] + h + [s[23], s[24]];
    case ScriptHash(h) =>
      assert s == [s[0], s[1]] + h + [s[22]];
    case Witness(v, p) =>
      assert VersionOp(VersionOf(s[0])) == s[0];
      assert s == [s[0], s[1]] + p;
  }

  // ---------------------------------------------------------------------------
  // Legacy addresses

  /** Bytes 1 to 20 of the decoded address: the hash between the version
      byte and the four checksum bytes, that is bits 32 to 191 of the
      number the address spells. */
  function LegacyHash(addr: seq<byte>): (h: seq<byte>)
    requires Base58.Decodable(addr)
    ensures |h| == 20
    ensures FromDigits(h, 0x100) == (Base58.Value(addr) / Pow(0x100, 4)) % Pow(0x100, 20)
  {
    Base58.DecodedFields(addr);
    HashField(Base58.Decode(addr))
  }

  /** Bytes 1 to 20 of 25 decoded bytes. */
  function HashField(r: seq<nat>): (h: seq<byte>)
    requires |r| == 25 && IsDigits(r, 0x100)
    ensures h == r[1..21]
  {
    seq(20, i requires 0 <= i < 20 => r[1 + i])
  }

  /** `address_to_pubkeytxn`: the 25-byte P2PKH script for `addr`. */
  method AddressToPubkeyTxn(addr: seq<byte>) returns (pkh: seq<byte>, len: int)
    requires Base58.Decodable(addr)
    ensures len == |pkh| == 25
    ensures pkh == Serialize(PubkeyHash(LegacyHash(addr)))
  {
    var b58bin := Base58.B58ToBin(addr);
    pkh := [OpDup, OpHash160, Push20] + b58bin[1..21] + [OpEqualVerify, OpCheckSig];
    assert b58bin[1..21] == LegacyHash(addr);
    len := 25;
  }

  /** `address_to_scripttxn`: the 23-byte P2SH script for `addr`. */
  method AddressToScriptTxn(addr: seq<byte>) returns (psh: seq<byte>, len: int)
    requires Base58.Decodable(addr)
    ensures len == |psh| == 23
    ensures psh == Serialize(ScriptHash(LegacyHash(addr)))
  {
    var b58bin := Base58.B58ToBin(addr);
    psh := [OpHash160, Push20] + b58bin[1..21] + [OpEqual];
    assert b58bin[1..21] == LegacyHash(addr);
    len := 23;
  }

  /** A 25-byte payload written in base58 comes back as its bytes 1 to 20:
      the version byte and the checksum play no part in the script. */
  lemma LegacyRoundTrip(payload: seq<byte>)
    requires |payload| == 25
    ensures Base58.Decodable(Base58.Encode(payload))
    ensures LegacyHash(Base58.Encode(payload)) == payload[1..21]
  {
    Base58.DecodeEncode(payload);
  }

  // ---------------------------------------------------------------------------
  // Segwit addresses

  /** The data part `segaddress_to_txn` can take: at least the version
      value, and no more than the 84 bytes of its `data` array. */
  predicate SegDecodable(addr: seq<byte>)
  {
    7 <= Bech32.TrailLen(addr) <= 90
  }

  /** The witness output of a bech32 address: the first value of the data
      part is the version, the rest regrouped into bytes is the program. */
  function WitnessOf(addr: seq<byte>): (o: Output)
    requires SegDecodable(addr)
    ensures o.Witness? && Valid(o)
    ensures |o.program| == 5 * (Bech32.TrailLen(addr) - 7) / 8
    ensures o.version == Bech32.DataPart(addr)[0]
  {
    var part := Bech32.DataPart(addr);
    Witness(part[0], Regrouping.ConvertBits(part[1..]))
  }

  /** `segaddress_to_txn`: the witness script for `addr`.  The `data`
      array starts as zeros; nothing past the decoded values is read. */
  method SegAddressToTxn(addr: seq<byte>) returns (p2h: seq<byte>, len: int)
    requires SegDecodable(addr)
    ensures len == |p2h| == 2 + 5 * (Bech32.TrailLen(addr) - 7) / 8
    ensures p2h == Serialize(WitnessOf(addr))
  {
    var data: seq<byte> := seq(84, _ => 0);
    var dataLen;
    data, dataLen := Bech32.Bech32Decode(data, addr);
    var version: byte := data[0];
    if version != 0 {
      version := (version + 0x50) % 0x100;
    }
    var witdata := Regrouping.ConvertBits(data[1..dataLen]);
    p2h := [version, |witdata|] + witdata;
    len := |witdata| + 2;
    ghost var part := Bech32.DataPart(addr);
    assert data[1..dataLen] == part[1..];
  }

  /** A bech32 string whose data part is a version and the 5-bit groups of
      a program decodes to exactly that version and program, whatever the
      human-readable part and checksum. */
  lemma SegwitRoundTrip(hrp: seq<byte>, version: byte, program: seq<byte>, checksum: seq<nat>)
    requires 0 !in hrp && version < 32
    requires |Regrouping.ToFive(program)| <= 83
    requires |checksum| == 6 && forall k :: 0 <= k < 6 ==> checksum[k] < 32
    ensures SegDecodable(Bech32.Frame(hrp, [version] + Regrouping.ToFive(program), checksum))
    ensures WitnessOf(Bech32.Frame(hrp, [version] + Regrouping.ToFive(program), checksum))
            == Witness(version, program)
  {
    var five := Regrouping.ToFive(program);
    var data: seq<nat> := [version] + five;
    Bech32.DecodeFrame(hrp, data, checksum);
    assert data[1..] == five;
    Regrouping.ConvertToFive(program);
  }

  // ---------------------------------------------------------------------------
  // Dispatch

  /** What `address_to_txn` needs of the address for the kind it is told. */
  predicate Convertible(addr: seq<byte>, segwit: bool)
  {
    if segwit then SegDecodable(addr) else Base58.Decodable(addr)
  }

  /** `address_to_txn`: the segwit flag wins; otherwise the script flag
      chooses P2SH over P2PKH. */
  method AddressToTxn(addr: seq<byte>, script: bool, segwit: bool) returns (p2h: seq<byte>, len: int)
    requires Convertible(addr, segwit)
    ensures len == |p2h| < 0x100
    ensures segwit ==> p2h == Serialize(WitnessOf(addr))
    ensures !segwit && script ==> len == 23 && p2h == Serialize(ScriptHash(LegacyHash(addr)))
    ensures !segwit && !script ==> len == 25 && p2h == Serialize(PubkeyHash(LegacyHash(addr)))
  {
    if segwit {
      p2h, len := SegAddressToTxn(addr);
      return;
    }
    if script {
      p2h, len := AddressToScriptTxn(addr);
      return;
    }
    p2h, len := AddressToPubkeyTxn(addr);
  }
}
