/** The eleven protocol data units. Fields the constructors fix (type, zero bytes, length) are not stored. */
module Pdus {
  import opened Words
  import opened Roas

  type Bytes = seq<uint8>
  type Bytes4 = b: Bytes | |b| == 4 witness [0, 0, 0, 0]
  type Bytes16 = b: Bytes | |b| == 16 witness seq(16, i => 0)
  type Bytes20 = b: Bytes | |b| == 20 witness seq(20, i => 0)

  const WITHDRAW: uint8 := 0
  const ANNOUNCE: uint8 := 1

  const CORRUPT_DATA: uint16 := 0
  const INVALID_REQUEST: uint16 := 3
  const UNSUPPORTED_VERSION: uint16 := 4
  const UNKNOWN_WITHDRAWAL: uint16 := 6
  const DUPLICATE: uint16 := 7
  const UNEXPECTED_VERSION: uint16 := 8

  datatype Pdu =
    | SerialNotify(version: uint8, session: uint16, serial: uint32)
    | SerialQuery(version: uint8, session: uint16, serial: uint32)
    | ResetQuery(version: uint8)
    | CacheResponse(version: uint8, session: uint16)
    | Ipv4Prefix(version: uint8, flags: uint8, minLen: uint8, maxLen: uint8, prefix4: Bytes4, asn: uint32)
    | Ipv6Prefix(version: uint8, flags: uint8, minLen: uint8, maxLen: uint8, prefix6: Bytes16, asn: uint32)
    | EndOfData(version: uint8, session: uint16, serial: uint32, refresh: uint32, retry: uint32, expire: uint32)
    | CacheReset(version: uint8)
    | RouterKey(version: uint8, session: uint16, ski: Bytes20, asn: uint32, spki: Bytes)
    | ErrorReport(version: uint8, code: uint16, pdu: Bytes, text: Bytes)
    | Aspa(version: uint8, flags: uint8, customer: uint32, providers: seq<uint32>)

  // ---------------------------------------------------------------- prefixes as they go on the wire

  /** The PDU `sendDiffs` and `sendAllData` write for a ROA. */
  function RoaPdu(version: uint8, flags: uint8, k: RoaKey): Pdu {
    var bits := k.prefix.bits % 0x100;
    match k.prefix.addr
    case V4(n) => Ipv4Prefix(version, flags, bits, k.maxMask, Be32(n), k.asn)
    case V6(hi, lo) => Ipv6Prefix(version, flags, bits, k.maxMask, Be64(hi) + Be64(lo), k.asn)
    case NoAddr => Ipv6Prefix(version, flags, bits, k.maxMask, Be64(0) + Be64(0), k.asn)
  }

  /** The key a router reads from a prefix PDU, if it is a well-formed one. */
  function PduKey(p: Pdu): Option<RoaKey> {
    match p
    case Ipv4Prefix(_, _, bits, max, b, asn) =>
      if bits <= 32 then Some(RoaKey(RawPrefix(V4(U32(b)), bits), asn, max)) else None
    case Ipv6Prefix(_, _, bits, max, b, asn) =>
      if bits <= 128 then Some(RoaKey(RawPrefix(V6(U64(b[..8]), U64(b[8..])), bits), asn, max)) else None
    case _ => None
  }

  /** A router reads back the key the cache meant. */
  lemma RoaPduRoundTrip(version: uint8, flags: uint8, k: RoaKey)
    requires ValidKey(k)
    ensures PduKey(RoaPdu(version, flags, k)) == Some(k)
  {
    hide Be32, U32, Be64, U64;
    match k.prefix.addr {
      case V4(n) => Be32RoundTrip(n, Be32(n));
      case V6(hi, lo) => HalvesRoundTrip(hi, lo);
    }
  }

  lemma HalvesRoundTrip(hi: uint64, lo: uint64)
    ensures var b := Be64(hi) + Be64(lo); U64(b[..8]) == hi && U64(b[8..]) == lo
  {
    hide Be64, U64;
    var b := Be64(hi) + Be64(lo);
    assert b[..8] == Be64(hi) && b[8..] == Be64(lo);
    Be64RoundTrip(hi);
    Be64RoundTrip(lo);
  }
}
