/** The wire format: what each PDU encodes to, what a buffer decodes to, and that the two agree. */
module Codec {
  import opened Words
  import opened Pdus

  const MIN_PDU: nat := 8
  const MAX_PDU: nat := 65535

  // ---------------------------------------------------------------- encoding

  function TypeCode(p: Pdu): uint8 {
    match p
    case SerialNotify(_, _, _) => 0
    case SerialQuery(_, _, _) => 1
    case ResetQuery(_) => 2
    case CacheResponse(_, _) => 3
    case Ipv4Prefix(_, _, _, _, _, _) => 4
    case Ipv6Prefix(_, _, _, _, _, _) => 6
    case EndOfData(_, _, _, _, _, _) => 7
    case CacheReset(_) => 8
    case RouterKey(_, _, _, _, _) => 9
    case ErrorReport(_, _, _, _) => 10
    case Aspa(_, _, _, _) => 11
  }

  /** Bytes 2 and 3: session, error code, flags or zero. */
  function Middle(p: Pdu): Bytes {
    match p
    case SerialNotify(_, s, _) => Be16(s)
    case SerialQuery(_, s, _) => Be16(s)
    case ResetQuery(_) => [0, 0]
    case CacheResponse(_, s) => Be16(s)
    case Ipv4Prefix(_, _, _, _, _, _) => [0, 0]
    case Ipv6Prefix(_, _, _, _, _, _) => [0, 0]
    case EndOfData(_, s, _, _, _, _) => Be16(s)
    case CacheReset(_) => [0, 0]
    case RouterKey(_, s, _, _, _) => Be16(s)
    case ErrorReport(_, code, _, _) => Be16(code)
    case Aspa(_, flags, _, _) => [flags, 0]
  }

  function Be32s(xs: seq<uint32>): Bytes {
    if xs == [] then [] else Be32s(xs[..|xs| - 1]) + Be32(xs[|xs| - 1])
  }

  /** An Error Report writes as many bytes as its 32-bit length fields say. */
  function Clip(b: Bytes): Bytes {
    b[..Wrap32(|b|)]
  }

  /** `p` as its length fields let it be written: only an Error Report over 4 GiB differs. */
  function Clipped(p: Pdu): Pdu {
    match p
    case ErrorReport(v, code, pdu, text) => ErrorReport(v, code, Clip(pdu), Clip(text))
    case _ => p
  }

  /** Everything after the eight header bytes. */
  function Body(p: Pdu): Bytes {
    match p
    case SerialNotify(_, _, serial) => Be32(serial)
    case SerialQuery(_, _, serial) => Be32(serial)
    case ResetQuery(_) => []
    case CacheResponse(_, _) => []
    case Ipv4Prefix(_, flags, min, max, prefix, asn) => [flags, min, max, 0] + prefix + Be32(asn)
    case Ipv6Prefix(_, flags, min, max, prefix, asn) => [flags, min, max, 0] + prefix + Be32(asn)
    case EndOfData(_, _, serial, refresh, retry, expire) => Be32(serial) + Be32(refresh) + Be32(retry) + Be32(expire)
    case CacheReset(_) => []
    case RouterKey(_, _, ski, asn, spki) => ski + Be32(asn) + spki
    case ErrorReport(_, _, pdu, text) => Be32(|Clip(pdu)|) + Clip(pdu) + Be32(|Clip(text)|) + Clip(text)
    case Aspa(_, _, customer, providers) => Be32(customer) + Be32s(providers)
  }

  function Head(version: uint8, ptype: uint8, middle: Bytes, length: uint32): Bytes {
    [version, ptype] + middle + Be32(length)
  }

  /** The bytes of `Write`; the length field is the low 32 bits of the size. */
  function Encode(p: Pdu): Bytes {
    Head(p.version, TypeCode(p), Middle(p), Wrap32(MIN_PDU + |Body(p)|)) + Body(p)
  }

  lemma {:induction false} Be32sLength(xs: seq<uint32>)
    ensures |Be32s(xs)| == 4 * |xs|
  {
    hide Be16, U16, Be32, U32;
    if xs != [] {
      Be32sLength(xs[..|xs| - 1]);
    }
  }

  /** The size of every PDU. */
  lemma BodyLength(p: Pdu)
    ensures MIN_PDU + |Body(p)| ==
      match p
      case SerialNotify(_, _, _) => 12
      case SerialQuery(_, _, _) => 12
      case ResetQuery(_) => 8
      case CacheResponse(_, _) => 8
      case Ipv4Prefix(_, _, _, _, _, _) => 20
      case Ipv6Prefix(_, _, _, _, _, _) => 32
      case EndOfData(_, _, _, _, _, _) => 24
      case CacheReset(_) => 8
      case RouterKey(_, _, _, _, spki) => 32 + |spki|
      case ErrorReport(_, _, pdu, text) => 16 + |Clip(pdu)| + |Clip(text)|
      case Aspa(_, _, _, providers) => 12 + 4 * |providers|
  {
    hide Be16, U16, Be32, U32;
    if p.Aspa? {
      Be32sLength(p.providers);
    }
  }

  /** The header announces exactly the bytes written, whenever they fit 32 bits. */
  lemma EncodedLength(p: Pdu)
    ensures |Encode(p)| == MIN_PDU + |Body(p)|
    ensures |Encode(p)| < TWO_32 ==> U32(Encode(p)[4..8]) == |Encode(p)|
  {
    hide Be16, U16, Be32, U32;
    StatedLength(p.version, TypeCode(p), Middle(p), Body(p));
  }

  lemma StatedLength(version: uint8, ptype: uint8, middle: Bytes, body: Bytes)
    requires |middle| == 2
    ensures var data := Head(version, ptype, middle, Wrap32(MIN_PDU + |body|)) + body;
      |data| == MIN_PDU + |body| && (|data| < TWO_32 ==> U32(data[4..8]) == |data|)
  {
    hide Be16, U16, Be32, U32;
    HeadFields(version, ptype, middle, Wrap32(MIN_PDU + |body|), body);
  }

  lemma HeadFields(version: uint8, ptype: uint8, middle: Bytes, length: uint32, body: Bytes)
    requires |middle| == 2
    ensures var data := Head(version, ptype, middle, length) + body;
      && |data| == MIN_PDU + |body|
      && data[0] == version && data[1] == ptype && data[2..4] == middle
      && data[4..8] == Be32(length) && U32(data[4..8]) == length
      && data[8..] == body
  {
    hide Be16, U16, Be32, U32;
    var data := Head(version, ptype, middle, length) + body;
    assert data[4..8] == Be32(length);
    Be32RoundTrip(length, Be32(length));
  }

  // ---------------------------------------------------------------- decoding

  /** The provider list of an ASPA body. */
  function Words32(b: Bytes): seq<uint32>
    requires |b| % 4 == 0
  {
    if b == [] then [] else Words32(b[..|b| - 4]) + [U32(b[|b| - 4..])]
  }

  /**
   * The Error Report branch of `decipherPDU`, on a buffer whose header states its size. The offsets are computed in
   * 32 bits, as in the code; that no slice is out of range is part of the function being well defined.
   */
  function DecipherErrorReport(data: Bytes): Option<Pdu>
    requires MIN_PDU <= |data| < TWO_32 - 16
  {
    if |data| < 12 then None
    else
      var pduLen: int := U32(data[8..12]);
      if pduLen > |data| || Wrap32(12 + pduLen + 4) > |data| then None
      else
        assert Wrap32(12 + pduLen) == 12 + pduLen && Wrap32(12 + pduLen + 4) == 16 + pduLen;
        var textAt := Wrap32(12 + pduLen);
        var textLen: int := U32(data[textAt..Wrap32(12 + pduLen + 4)]);
        var total := Wrap32(12 + pduLen + 4 + textLen);
        if total != |data| || textLen > |data| || total > |data| then None
        else Some(ErrorReport(data[0], U16(data[2..4]), data[12..textAt], data[textAt + 4..total]))
  }

  function DecipherAspa(data: Bytes): Option<Pdu>
    requires MIN_PDU <= |data|
  {
    if |data| < 12 || (|data| - 12) % 4 != 0 then None
    else Some(Aspa(data[0], data[2], U32(data[8..12]), Words32(data[12..])))
  }

  /** The two prefix branches. */
  function DecipherPrefix(data: Bytes): Option<Pdu>
    requires MIN_PDU <= |data|
  {
    if data[1] == 4 then
      if |data| < 20 then None
      else Some(Ipv4Prefix(data[0], data[8], data[9], data[10], data[12..16], U32(data[16..20])))
    else
      if |data| < 32 then None
      else Some(Ipv6Prefix(data[0], data[8], data[9], data[10], data[12..28], U32(data[28..32])))
  }

  function DecipherEndOfData(data: Bytes): Option<Pdu>
    requires MIN_PDU <= |data|
  {
    if |data| < 24 then None
    else Some(EndOfData(data[0], U16(data[2..4]), U32(data[8..12]), U32(data[12..16]), U32(data[16..20]), U32(data[20..24])))
  }

  /** `decipherPDU`. */
  function Decipher(data: Bytes): Option<Pdu>
    requires |data| < TWO_32 - 16
  {
    if |data| < MIN_PDU || |data| != U32(data[4..8]) then None
    else match data[1]
      case 0 => if |data| < 12 then None else Some(SerialNotify(data[0], U16(data[2..4]), U32(data[8..12])))
      case 1 => if |data| < 12 then None else Some(SerialQuery(data[0], U16(data[2..4]), U32(data[8..12])))
      case 2 => Some(ResetQuery(data[0]))
      case 3 => Some(CacheResponse(data[0], U16(data[2..4])))
      case 4 => DecipherPrefix(data)
      case 6 => DecipherPrefix(data)
      case 7 => DecipherEndOfData(data)
      case 8 => Some(CacheReset(data[0]))
      case 9 =>
        if |data| < 32 then None
        else Some(RouterKey(data[0], U16(data[2..4]), data[8..28], U32(data[28..32]), data[32..]))
      case 10 => DecipherErrorReport(data)
      case 11 => DecipherAspa(data)
      case _ => None
  }

  /** The two length fields of an Error Report fit and add up to the buffer, over the integers. */
  predicate LengthsAddUp(data: Bytes) {
    |data| >= 16 &&
    var pduLen: int := U32(data[8..12]);
    16 + pduLen <= |data| && 16 + pduLen + U32(data[12 + pduLen..16 + pduLen]) == |data|
  }

  /** An Error Report is accepted exactly when its two lengths add up; 32-bit wrap-around never lets another in. */
  lemma ErrorReportAcceptedIff(data: Bytes)
    requires MIN_PDU <= |data| < TWO_32 - 16
    ensures DecipherErrorReport(data).Some? <==> LengthsAddUp(data)
    ensures data[1] == 10 && U32(data[4..8]) == |data| ==> Decipher(data) == DecipherErrorReport(data)
  {
    hide Be16, U16, Be32, U32;
    if |data| >= 12 {
      var pduLen: int := U32(data[8..12]);
      if pduLen <= |data| {
        assert Wrap32(12 + pduLen) == 12 + pduLen && Wrap32(12 + pduLen + 4) == 16 + pduLen;
        if 16 + pduLen <= |data| {
          TextLengthFits(data, pduLen);
        }
      }
    }
  }

  lemma TextLengthFits(data: Bytes, pduLen: nat)
    requires 16 + pduLen <= |data| < TWO_32 - 16
    ensures var textLen: int := U32(data[12 + pduLen..16 + pduLen]);
      Wrap32(12 + pduLen + 4 + textLen) == |data| <==> 16 + pduLen + textLen == |data|
  {
    hide Be16, U16, Be32, U32;
    SumWraps(16 + pduLen, U32(data[12 + pduLen..16 + pduLen]), |data|);
  }

  /** A 32-bit sum of an in-range offset and any 32-bit length never wraps onto the buffer size. */
  lemma SumWraps(offset: nat, length: uint32, size: nat)
    requires offset <= size < TWO_32
    ensures Wrap32(offset + length) == size <==> offset + length == size
  {
  }

  // ---------------------------------------------------------------- round trips

  /** What `data` being the encoding of a PDU means for the decoder. */
  ghost predicate Laid(data: Bytes, p: Pdu) {
    LaidOut(data, p.version, TypeCode(p), Middle(p), Body(p))
  }

  ghost predicate LaidOut(data: Bytes, version: uint8, ptype: uint8, middle: Bytes, body: Bytes) {
    && |data| == MIN_PDU + |body| < TWO_32 - 16
    && data[0] == version && data[1] == ptype && data[2..4] == middle
    && U32(data[4..8]) == |data|
    && data[8..] == body
  }

  lemma EncodeIsLaid(p: Pdu)
    requires |Encode(p)| < TWO_32 - 16
    ensures Laid(Encode(p), p)
  {
    hide Be16, U16, Be32, U32;
    HeadIsLaidOut(p.version, TypeCode(p), Middle(p), Body(p));
  }

  lemma HeadIsLaidOut(version: uint8, ptype: uint8, middle: Bytes, body: Bytes)
    requires |middle| == 2
    ensures var data := Head(version, ptype, middle, Wrap32(MIN_PDU + |body|)) + body;
      |data| < TWO_32 - 16 ==> LaidOut(data, version, ptype, middle, body)
  {
    hide Be16, U16, Be32, U32;
    HeadFields(version, ptype, middle, Wrap32(MIN_PDU + |body|), body);
  }

  lemma BodySlice(data: Bytes, body: Bytes, i: nat, j: nat)
    requires 8 <= i <= j <= |data| && data[8..] == body
    ensures data[i..j] == body[i - 8..j - 8]
  {
  }

  lemma ShortRoundTrip(data: Bytes, p: Pdu)
    requires Laid(data, p)
    requires p.SerialNotify? || p.SerialQuery? || p.ResetQuery? || p.CacheResponse? || p.CacheReset?
    ensures Decipher(data) == Some(p)
  {
    hide Be16, U16, Be32, U32;
    match p {
      case SerialNotify(_, s, n) =>
        BodySlice(data, Body(p), 8, 12);
        assert Body(p)[0..4] == Be32(n);
        Be16RoundTrip(s, Be16(s));
        Be32RoundTrip(n, Be32(n));
      case SerialQuery(_, s, n) =>
        BodySlice(data, Body(p), 8, 12);
        assert Body(p)[0..4] == Be32(n);
        Be16RoundTrip(s, Be16(s));
        Be32RoundTrip(n, Be32(n));
      case CacheResponse(_, s) => Be16RoundTrip(s, Be16(s));
      case ResetQuery(_) =>
      case CacheReset(_) =>
    }
  }

  lemma PrefixRoundTrip(data: Bytes, p: Pdu)
    requires Laid(data, p) && (p.Ipv4Prefix? || p.Ipv6Prefix?)
    ensures DecipherPrefix(data) == Some(p)
  {
    hide Be16, U16, Be32, U32;
    var n := if p.Ipv4Prefix? then 4 else 16;
    var body := Body(p);
    BodySlice(data, body, 8, 12);
    assert data[8] == data[8..12][0] && data[9] == data[8..12][1] && data[10] == data[8..12][2];
    BodySlice(data, body, 12, 12 + n);
    BodySlice(data, body, 12 + n, 16 + n);
    assert body[0..4] == [p.flags, p.minLen, p.maxLen, 0];
    assert body[4..4 + n] == if p.Ipv4Prefix? then p.prefix4 else p.prefix6;
    assert body[4 + n..8 + n] == Be32(p.asn);
    Be32RoundTrip(p.asn, Be32(p.asn));
  }

  lemma EndOfDataRoundTrip(data: Bytes, p: Pdu)
    requires Laid(data, p) && p.EndOfData?
    ensures DecipherEndOfData(data) == Some(p)
  {
    hide Be16, U16, Be32, U32;
    var body := Body(p);
    BodySlice(data, body, 8, 12);
    BodySlice(data, body, 12, 16);
    BodySlice(data, body, 16, 20);
    BodySlice(data, body, 20, 24);
    assert body[0..4] == Be32(p.serial) && body[4..8] == Be32(p.refresh);
    assert body[8..12] == Be32(p.retry) && body[12..16] == Be32(p.expire);
    Be16RoundTrip(p.session, Be16(p.session));
    Be32RoundTrip(p.serial, Be32(p.serial));
    Be32RoundTrip(p.refresh, Be32(p.refresh));
    Be32RoundTrip(p.retry, Be32(p.retry));
    Be32RoundTrip(p.expire, Be32(p.expire));
  }

  lemma RouterKeyRoundTrip(data: Bytes, p: Pdu)
    requires Laid(data, p) && p.RouterKey?
    ensures Decipher(data) == Some(p)
  {
    hide Be16, U16, Be32, U32;
    var body := Body(p);
    BodySlice(data, body, 8, 28);
    BodySlice(data, body, 28, 32);
    BodySlice(data, body, 32, |data|);
    assert body[0..20] == p.ski && body[20..24] == Be32(p.asn) && body[24..|body|] == p.spki;
    assert data[32..] == data[32..|data|];
    Be16RoundTrip(p.session, Be16(p.session));
    Be32RoundTrip(p.asn, Be32(p.asn));
  }

  lemma ErrorReportRoundTrip(data: Bytes, p: Pdu)
    requires Laid(data, p) && p.ErrorReport? && Clipped(p) == p
    ensures DecipherErrorReport(data) == Some(p)
  {
    hide Be16, U16, Be32, U32;
    var body := Body(p);
    var m, n := |p.pdu|, |p.text|;
    BodySlice(data, body, 8, 12);
    BodySlice(data, body, 12, 12 + m);
    BodySlice(data, body, 12 + m, 16 + m);
    BodySlice(data, body, 16 + m, 16 + m + n);
    assert body[0..4] == Be32(m) && body[4..4 + m] == p.pdu;
    assert body[4 + m..8 + m] == Be32(n) && body[8 + m..8 + m + n] == p.text;
    Be16RoundTrip(p.code, Be16(p.code));
    Be32RoundTrip(m, Be32(m));
    Be32RoundTrip(n, Be32(n));
    ErrorReportFields(data, m, n);
  }

  lemma ErrorReportFields(data: Bytes, m: nat, n: nat)
    requires |data| == 16 + m + n < TWO_32 - 16
    requires U32(data[8..12]) == m && U32(data[12 + m..16 + m]) == n
    ensures DecipherErrorReport(data) ==
              Some(ErrorReport(data[0], U16(data[2..4]), data[12..12 + m], data[16 + m..16 + m + n]))
  {
    hide Be16, U16, Be32, U32;
    assert Wrap32(12 + m) == 12 + m && Wrap32(12 + m + 4) == 16 + m && Wrap32(12 + m + 4 + n) == 16 + m + n;
  }

  lemma AspaRoundTrip(data: Bytes, p: Pdu)
    requires Laid(data, p) && p.Aspa?
    ensures DecipherAspa(data) == Some(p)
  {
    hide Be16, U16, Be32, U32, Be32s, Words32;
    ProvidersRoundTrip(p.providers);
    assert data[2] == data[2..4][0];
    AspaFields(data, p.customer, Be32s(p.providers));
  }

  lemma AspaFields(data: Bytes, customer: uint32, rest: Bytes)
    requires MIN_PDU <= |data| && data[8..] == Be32(customer) + rest && |rest| % 4 == 0
    ensures DecipherAspa(data) == Some(Pdu.Aspa(data[0], data[2], customer, Words32(rest)))
  {
    hide Words32;
    hide Be16, U16, Be32, U32;
    AfterTwelve(data, Be32(customer), rest);
    Be32RoundTrip(customer, Be32(customer));
  }

  lemma AfterTwelve(data: Bytes, four: Bytes, rest: Bytes)
    requires MIN_PDU <= |data| && |four| == 4 && data[8..] == four + rest
    ensures |data| == 12 + |rest| && data[8..12] == four && data[12..] == rest
  {
    assert data[8..12] == data[8..][..4];
    assert data[12..] == data[8..][4..];
  }

  lemma {:induction false} ProvidersRoundTrip(xs: seq<uint32>)
    ensures |Be32s(xs)| % 4 == 0
    ensures Words32(Be32s(xs)) == xs
  {
    hide Be16, U16, Be32, U32;
    Be32sLength(xs);
    if xs != [] {
      var front, x := xs[..|xs| - 1], xs[|xs| - 1];
      ProvidersRoundTrip(front);
      Words32Append(Be32s(front), Be32(x));
      Be32RoundTrip(x, Be32(x));
    }
  }

  lemma Words32Append(b: Bytes, four: Bytes)
    requires |b| % 4 == 0 && |four| == 4
    ensures Words32(b + four) == Words32(b) + [U32(four)]
  {
    hide U32;
    var c := b + four;
    assert c[..|c| - 4] == b && c[|c| - 4..] == four;
  }

  /**
   * Decoding the bytes of any PDU that fits the protocol's size limit gives that PDU back, as far as its length
   * fields let it be written. The decoder itself takes sizes far beyond that limit.
   */
  lemma RoundTrip(p: Pdu)
    requires |Encode(p)| < TWO_32 - 16
    ensures Decipher(Encode(p)) == Some(Clipped(p))
  {
    hide Be16, U16, Be32, U32;
    ClippingIsInvisible(p);
    ClippedRoundTrip(Clipped(p));
  }

  lemma ClipTwice(b: Bytes)
    ensures Clip(Clip(b)) == Clip(b)
  {
    assert Wrap32(|Clip(b)|) == |Clip(b)|;
  }

  lemma ClippingIsInvisible(p: Pdu)
    ensures Encode(Clipped(p)) == Encode(p) && Clipped(Clipped(p)) == Clipped(p)
  {
    hide Be16, U16, Be32, U32;
    if p.ErrorReport? {
      ClipTwice(p.pdu);
      ClipTwice(p.text);
      assert Body(Clipped(p)) == Body(p);
    }
  }

  /** Which branch of the decoder a buffer with the right length goes to. */
  lemma Branches(data: Bytes)
    requires MIN_PDU <= |data| < TWO_32 - 16 && |data| == U32(data[4..8])
    ensures data[1] == 4 || data[1] == 6 ==> Decipher(data) == DecipherPrefix(data)
    ensures data[1] == 7 ==> Decipher(data) == DecipherEndOfData(data)
    ensures data[1] == 10 ==> Decipher(data) == DecipherErrorReport(data)
    ensures data[1] == 11 ==> Decipher(data) == DecipherAspa(data)
  {
    hide Be16, U16, Be32, U32;
  }

  lemma ClippedRoundTrip(p: Pdu)
    requires |Encode(p)| < TWO_32 - 16 && Clipped(p) == p
    ensures Decipher(Encode(p)) == Some(p)
  {
    hide Be16, U16, Be32, U32;
    EncodeIsLaid(p);
    LaidRoundTrip(Encode(p), p);
  }

  lemma LaidRoundTrip(data: Bytes, p: Pdu)
    requires Laid(data, p) && Clipped(p) == p
    ensures Decipher(data) == Some(p)
  {
    hide Be16, U16, Be32, U32;
    Branches(data);
    if p.Ipv4Prefix? || p.Ipv6Prefix? {
      PrefixRoundTrip(data, p);
    } else if p.EndOfData? {
      EndOfDataRoundTrip(data, p);
    } else if p.RouterKey? {
      RouterKeyRoundTrip(data, p);
    } else if p.ErrorReport? {
      ErrorReportRoundTrip(data, p);
    } else if p.Aspa? {
      AspaRoundTrip(data, p);
    } else {
      ShortRoundTrip(data, p);
    }
  }

  // ---------------------------------------------------------------- decoding first

  /** The header bytes the decoder ignores are zero. */
  predicate MiddleZero(data: Bytes)
    requires |data| >= MIN_PDU
  {
    match data[1]
    case 2 => data[2..4] == [0, 0]
    case 4 => data[2..4] == [0, 0]
    case 6 => data[2..4] == [0, 0]
    case 8 => data[2..4] == [0, 0]
    case 11 => data[3] == 0
    case _ => true
  }

  /** So is the byte of a prefix PDU that the decoder ignores. */
  predicate PrefixZero(data: Bytes)
    requires |data| >= MIN_PDU
  {
    data[1] == 4 || data[1] == 6 ==> |data| >= 12 && data[11] == 0
  }

  lemma SameBytesIff(data: Bytes, version: uint8, ptype: uint8, middle: Bytes, body: Bytes)
    requires MIN_PDU <= |data| < TWO_32 && U32(data[4..8]) == |data| && |middle| == 2
    requires data[0] == version && data[1] == ptype
    ensures Head(version, ptype, middle, Wrap32(MIN_PDU + |body|)) + body == data <==>
              MIN_PDU + |body| == |data| && middle == data[2..4] && body == data[8..]
  {
    hide Be16, U16, Be32, U32;
    HeadFields(version, ptype, middle, Wrap32(MIN_PDU + |body|), body);
    if MIN_PDU + |body| == |data| && middle == data[2..4] && body == data[8..] {
      HeadOf(data);
    }
  }

  lemma HeadOf(data: Bytes)
    requires MIN_PDU <= |data|
    ensures data == Head(data[0], data[1], data[2..4], U32(data[4..8])) + data[8..]
  {
    hide Be16, U16, Be32, U32;
    Be32RoundTrip(0, data[4..8]);
    assert data[..8] == [data[0], data[1]] + data[2..4] + data[4..8];
  }

  lemma Cut(data: Bytes, i: nat, j: nat, k: nat)
    requires i <= j <= k <= |data|
    ensures data[i..k] == data[i..j] + data[j..k]
    ensures k == |data| ==> data[i..] == data[i..k] && data[j..] == data[j..k]
    ensures i == 0 && k == |data| ==> data == data[i..k]
  {
  }

  lemma MiddleIff(data: Bytes, p: Pdu)
    requires |data| < TWO_32 - 16 && Decipher(data) == Some(p)
    ensures p.version == data[0] && TypeCode(p) == data[1]
    ensures Middle(p) == data[2..4] <==> MiddleZero(data)
  {
    hide Be16, U16, Be32, U32;
    Be16RoundTrip(0, data[2..4]);
    assert data[2..4] == [data[2], data[3]];
  }

  /** The decoded body is the buffer's, up to the ignored byte of a prefix and bytes beyond the canonical size. */
  lemma BodyIff(data: Bytes, p: Pdu)
    requires |data| < TWO_32 - 16 && Decipher(data) == Some(p)
    ensures MIN_PDU + |Body(p)| <= |data|
    ensures MIN_PDU + |Body(p)| == |data| ==>
      (Body(p) == data[8..] <==> PrefixZero(data))
    ensures Clipped(p) == p
  {
    hide Be16, U16, Be32, U32;
    match data[1] {
      case 4 => PrefixBody(data, p);
      case 6 => PrefixBody(data, p);
      case 7 => EndOfDataBody(data, p);
      case 9 => RouterKeyBody(data, p);
      case 10 => ErrorReportBody(data, p);
      case 11 => AspaBody(data, p);
      case 0 => SerialBody(data);
      case 1 => SerialBody(data);
      case _ =>
    }
  }

  lemma SerialBody(data: Bytes)
    requires |data| >= 12
    ensures Be32(U32(data[8..12])) == data[8..12]
    ensures |data| == 12 ==> data[8..] == data[8..12]
  {
    hide Be16, U16, Be32, U32;
    Be32RoundTrip(0, data[8..12]);
  }

  lemma RouterKeyBody(data: Bytes, p: Pdu)
    requires |data| >= 32 && p.RouterKey?
    requires p.ski == data[8..28] && p.asn == U32(data[28..32]) && p.spki == data[32..]
    ensures Body(p) == data[8..]
  {
    hide Be16, U16, Be32, U32;
    Be32RoundTrip(0, data[28..32]);
    Cut(data, 8, 28, |data|);
    Cut(data, 28, 32, |data|);
  }

  lemma AspaBody(data: Bytes, p: Pdu)
    requires MIN_PDU <= |data| && DecipherAspa(data) == Some(p)
    ensures Body(p) == data[8..]
  {
    hide Be16, U16, Be32, U32;
    Be32RoundTrip(0, data[8..12]);
    ProvidersBody(data[12..]);
    Cut(data, 8, 12, |data|);
  }

  lemma PrefixBody(data: Bytes, p: Pdu)
    requires MIN_PDU <= |data| && (data[1] == 4 || data[1] == 6) && DecipherPrefix(data) == Some(p)
    ensures var n := if data[1] == 4 then 4 else 16;
      && MIN_PDU + |Body(p)| == 16 + n <= |data|
      && (|data| == 16 + n ==> (Body(p) == data[8..] <==> data[11] == 0))
  {
    hide Be16, U16, Be32, U32;
    var n := if data[1] == 4 then 4 else 16;
    Be32RoundTrip(0, data[12 + n..16 + n]);
    if |data| == 16 + n {
      Cut(data, 8, 12, |data|);
      Cut(data, 12, 12 + n, |data|);
      assert data[8..12] == [data[8], data[9], data[10], data[11]];
      assert Body(p)[3] == 0 && data[8..][3] == data[11];
    }
  }

  lemma EndOfDataBody(data: Bytes, p: Pdu)
    requires MIN_PDU <= |data| && DecipherEndOfData(data) == Some(p)
    ensures MIN_PDU + |Body(p)| == 24 <= |data|
    ensures |data| == 24 ==> Body(p) == data[8..]
  {
    hide Be16, U16, Be32, U32;
    Be32RoundTrip(0, data[8..12]);
    Be32RoundTrip(0, data[12..16]);
    Be32RoundTrip(0, data[16..20]);
    Be32RoundTrip(0, data[20..24]);
    assert Body(p) == data[8..12] + data[12..16] + data[16..20] + data[20..24];
    if |data| == 24 {
      assert data[8..] == data[8..12] + data[12..16] + data[16..20] + data[20..24];
    }
  }

  lemma ErrorReportBody(data: Bytes, p: Pdu)
    requires MIN_PDU <= |data| < TWO_32 - 16 && DecipherErrorReport(data) == Some(p)
    ensures Body(p) == data[8..] && Clipped(p) == p
  {
    hide Be16, U16, Be32, U32;
    ErrorReportAcceptedIff(data);
    var m: int := U32(data[8..12]);
    var n: int := U32(data[12 + m..16 + m]);
    ErrorReportFields(data, m, n);
    ErrorReportParts(data, m, n, p);
  }

  lemma ErrorReportParts(data: Bytes, m: nat, n: nat, p: Pdu)
    requires |data| == 16 + m + n < TWO_32 && p.ErrorReport?
    requires U32(data[8..12]) == m && U32(data[12 + m..16 + m]) == n
    requires p.pdu == data[12..12 + m] && p.text == data[16 + m..16 + m + n]
    ensures Body(p) == data[8..] && Clipped(p) == p
  {
    hide Be16, U16, Be32, U32;
    Be32RoundTrip(0, data[8..12]);
    Be32RoundTrip(0, data[12 + m..16 + m]);
    assert Clip(p.pdu) == p.pdu && Clip(p.text) == p.text;
    FourParts(data, m);
  }

  lemma FourParts(data: Bytes, m: nat)
    requires 16 + m <= |data|
    ensures data[8..] == data[8..12] + data[12..12 + m] + data[12 + m..16 + m] + data[16 + m..]
    ensures data[16 + m..] == data[16 + m..|data|]
  {
    Cut(data, 8, 12, |data|);
    Cut(data, 12, 12 + m, |data|);
    Cut(data, 12 + m, 16 + m, |data|);
    Reassociate(data[8..12], data[12..12 + m], data[12 + m..16 + m], data[16 + m..]);
  }

  lemma Reassociate(a: Bytes, b: Bytes, c: Bytes, d: Bytes)
    ensures a + b + c + d == a + (b + (c + d))
  {
  }

  lemma Be32sAppend(xs: seq<uint32>, x: uint32)
    ensures Be32s(xs + [x]) == Be32s(xs) + Be32(x)
  {
    hide Be16, U16, Be32, U32;
    assert (xs + [x])[..|xs|] == xs;
  }

  lemma {:induction false} ProvidersBody(b: Bytes)
    requires |b| % 4 == 0
    ensures Be32s(Words32(b)) == b
  {
    hide Be16, U16, Be32, U32;
    if b != [] {
      var front, last := b[..|b| - 4], b[|b| - 4..];
      ProvidersBody(front);
      Be32RoundTrip(0, last);
      Be32sAppend(Words32(front), U32(last));
      assert b == front + last;
    }
  }

  /** For every accepted buffer, re-encoding never grows it, and decoding again gives the same PDU. */
  lemma DecodeEncodeDecode(data: Bytes)
    requires |data| <= MAX_PDU && Decipher(data).Some?
    ensures var p := Decipher(data).value;
      |Encode(p)| <= |data| && Decipher(Encode(p)) == Some(p)
  {
    hide Be16, U16, Be32, U32;
    var p := Decipher(data).value;
    BodyIff(data, p);
    EncodedLength(p);
    ClippedRoundTrip(p);
  }

  /** An accepted buffer comes back unchanged exactly when it had the canonical size and zero ignored bytes. */
  lemma ReencodesIff(data: Bytes)
    requires |data| <= MAX_PDU && Decipher(data).Some?
    ensures var p := Decipher(data).value;
      Encode(p) == data <==> MIN_PDU + |Body(p)| == |data| && MiddleZero(data) && PrefixZero(data)
  {
    hide Be16, U16, Be32, U32;
    var p := Decipher(data).value;
    BodyIff(data, p);
    MiddleIff(data, p);
    SameBytesIff(data, p.version, TypeCode(p), Middle(p), Body(p));
  }
}
