/** The wire format byte by byte, in numbers, and that the decoder and the encoder follow it. */
module Layout {
  import opened Words
  import opened Roas
  import opened Pdus
  import opened Codec
  import Streams

  /** Two bytes, the most significant first. */
  function Number16(data: Bytes, i: nat): nat
    requires i + 2 <= |data|
  {
    data[i] as int * 0x100 + data[i + 1]
  }

  /** Four bytes, the most significant first. */
  function Number32(data: Bytes, i: nat): nat
    requires i + 4 <= |data|
  {
    data[i] as int * 0x100_0000 + data[i + 1] as int * 0x1_0000 + data[i + 2] as int * 0x100 + data[i + 3]
  }

  /** `data` is a PDU of the standard that says what `p` says; bytes the standard leaves unused are not looked at. */
  ghost predicate Spells(data: Bytes, p: Pdu) {
    && |data| >= 8 && data[0] == p.version && Number32(data, 4) == |data|
    && match p
       case SerialNotify(_, session, serial) =>
         data[1] == 0 && |data| >= 12 && session == Number16(data, 2) && serial == Number32(data, 8)
       case SerialQuery(_, session, serial) =>
         data[1] == 1 && |data| >= 12 && session == Number16(data, 2) && serial == Number32(data, 8)
       case ResetQuery(_) =>
         data[1] == 2
       case CacheResponse(_, session) =>
         data[1] == 3 && session == Number16(data, 2)
       case Ipv4Prefix(_, flags, minLen, maxLen, prefix, asn) =>
         && data[1] == 4 && |data| >= 20 && flags == data[8] && minLen == data[9] && maxLen == data[10]
         && prefix == data[12..16] && asn == Number32(data, 16)
       case Ipv6Prefix(_, flags, minLen, maxLen, prefix, asn) =>
         && data[1] == 6 && |data| >= 32 && flags == data[8] && minLen == data[9] && maxLen == data[10]
         && prefix == data[12..28] && asn == Number32(data, 28)
       case EndOfData(_, session, serial, refresh, retry, expire) =>
         && data[1] == 7 && |data| >= 24 && session == Number16(data, 2) && serial == Number32(data, 8)
         && refresh == Number32(data, 12) && retry == Number32(data, 16) && expire == Number32(data, 20)
       case CacheReset(_) =>
         data[1] == 8
       case RouterKey(_, session, ski, asn, spki) =>
         && data[1] == 9 && |data| >= 32 && session == Number16(data, 2)
         && ski == data[8..28] && asn == Number32(data, 28) && spki == data[32..]
       case ErrorReport(_, code, pdu, text) =>
         && data[1] == 10 && |data| == 16 + |pdu| + |text| && code == Number16(data, 2)
         && Number32(data, 8) == |pdu| && data[12..12 + |pdu|] == pdu
         && Number32(data, 12 + |pdu|) == |text| && data[16 + |pdu|..] == text
       case Aspa(_, flags, customer, providers) =>
         && data[1] == 11 && |data| == 12 + 4 * |providers| && flags == data[2] && customer == Number32(data, 8)
         && forall i | 0 <= i < |providers| :: providers[i] == Number32(data, 12 + 4 * i)
  }

  lemma Sliced(data: Bytes, i: nat)
    ensures i + 2 <= |data| ==> U16(data[i..i + 2]) == Number16(data, i)
    ensures i + 4 <= |data| ==> U32(data[i..i + 4]) == Number32(data, i)
  {
  }

  /** The decoder accepts a buffer as `p` exactly when the buffer spells `p`. */
  lemma DecodesIff(data: Bytes, p: Pdu)
    requires |data| < TWO_32 - 16
    ensures Decipher(data) == Some(p) <==> Spells(data, p)
  {
    hide U16, U32, Number16, Number32, DecipherPrefix, DecipherEndOfData, DecipherErrorReport, DecipherAspa;
    Sliced(data, 2);
    Sliced(data, 4);
    Sliced(data, 8);
    Sliced(data, 28);
    if |data| >= 8 && Number32(data, 4) == |data| {
      PrefixIff(data, p);
      EndOfDataIff(data, p);
      ErrorReportIff(data, p);
      AspaIff(data, p);
    }
  }

  lemma PrefixIff(data: Bytes, p: Pdu)
    requires |data| >= 8 && Number32(data, 4) == |data|
    ensures data[1] == 4 || data[1] == 6 ==>
      (DecipherPrefix(data) == Some(p) <==> (p.Ipv4Prefix? || p.Ipv6Prefix?) && Spells(data, p))
  {
    hide U16, U32, Number16, Number32;
    Sliced(data, 16);
    Sliced(data, 28);
  }

  lemma EndOfDataIff(data: Bytes, p: Pdu)
    requires |data| >= 8 && Number32(data, 4) == |data|
    ensures data[1] == 7 ==> (DecipherEndOfData(data) == Some(p) <==> p.EndOfData? && Spells(data, p))
  {
    hide U16, U32, Number16, Number32;
    Sliced(data, 2);
    Sliced(data, 8);
    Sliced(data, 12);
    Sliced(data, 16);
    Sliced(data, 20);
  }

  lemma ErrorReportIff(data: Bytes, p: Pdu)
    requires 8 <= |data| < TWO_32 - 16 && Number32(data, 4) == |data|
    ensures data[1] == 10 ==> (DecipherErrorReport(data) == Some(p) <==> p.ErrorReport? && Spells(data, p))
  {
    hide U16, U32, Number16, Number32, DecipherErrorReport;
    Sliced(data, 2);
    Sliced(data, 8);
    ErrorReportAcceptedIff(data);
    if LengthsAddUp(data) {
      var m: int := U32(data[8..12]);
      var n: int := U32(data[12 + m..16 + m]);
      Sliced(data, 12 + m);
      ErrorReportFields(data, m, n);
      assert data[16 + m..] == data[16 + m..16 + m + n];
    }
    if p.ErrorReport? && Spells(data, p) {
      Sliced(data, 12 + |p.pdu|);
    }
  }

  lemma AspaIff(data: Bytes, p: Pdu)
    requires |data| >= 8 && Number32(data, 4) == |data|
    ensures data[1] == 11 ==> (DecipherAspa(data) == Some(p) <==> p.Aspa? && Spells(data, p))
  {
    hide U16, U32, Number16, Number32, Words32;
    Sliced(data, 8);
    if |data| >= 12 && (|data| - 12) % 4 == 0 {
      var ws := Words32(data[12..]);
      WordCount(data[12..]);
      forall i | 0 <= i < |ws| ensures ws[i] == Number32(data, 12 + 4 * i) {
        WordAt(data[12..], i);
        Shifted(data, 12, 4 * i);
      }
      if p.Aspa? && Spells(data, p) {
        assert |p.providers| == |ws|;
        assert p.providers == ws;
      }
    }
  }

  lemma Shifted(data: Bytes, at: nat, i: nat)
    requires at + i + 4 <= |data|
    ensures Number32(data[at..], i) == Number32(data, at + i)
  {
  }

  lemma {:induction false} WordCount(b: Bytes)
    requires |b| % 4 == 0
    ensures |Words32(b)| == |b| / 4
  {
    hide U32;
    if b != [] {
      WordCount(b[..|b| - 4]);
    }
  }

  lemma {:induction false} WordAt(b: Bytes, i: nat)
    requires |b| % 4 == 0 && i < |b| / 4
    ensures i < |Words32(b)| && Words32(b)[i] == Number32(b, 4 * i)
  {
    hide U32, Number32;
    WordCount(b);
    var front := b[..|b| - 4];
    WordCount(front);
    if i < |front| / 4 {
      WordAt(front, i);
      FrontNumber(b, |b| - 4, 4 * i);
    } else {
      assert b[|b| - 4..] == b[4 * i..4 * i + 4];
      Sliced(b, 4 * i);
    }
  }

  lemma FrontNumber(b: Bytes, n: nat, i: nat)
    requires i + 4 <= n <= |b|
    ensures Number32(b[..n], i) == Number32(b, i)
  {
  }

  /** Bytes 2, 3 and 11 where the standard has zero. */
  ghost predicate ZeroWhereUnused(data: Bytes, p: Pdu)
    requires |data| >= 8
  {
    && (p.ResetQuery? || p.CacheReset? || p.Ipv4Prefix? || p.Ipv6Prefix? ==> data[2] == 0 && data[3] == 0)
    && (p.Ipv4Prefix? || p.Ipv6Prefix? ==> |data| > 11 && data[11] == 0)
    && (p.Aspa? ==> data[3] == 0)
  }

  /** What is written for a PDU spells that PDU, with zero in every unused byte. */
  lemma EncodeSpells(p: Pdu)
    requires |Encode(p)| < TWO_32 - 16 && Clipped(p) == p
    ensures Spells(Encode(p), p) && ZeroWhereUnused(Encode(p), p)
  {
    hide Spells, Encode;
    ClippedRoundTrip(p);
    DecodesIff(Encode(p), p);
    UnusedBytes(p);
  }

  lemma UnusedBytes(p: Pdu)
    ensures |Encode(p)| >= 8 && ZeroWhereUnused(Encode(p), p)
  {
    hide Be16, Be32;
    var head := Head(p.version, TypeCode(p), Middle(p), Wrap32(MIN_PDU + |Body(p)|));
    assert |head| == 8 && head[2] == Middle(p)[0] && head[3] == Middle(p)[1];
    assert Encode(p)[2] == head[2] && Encode(p)[3] == head[3];
    if p.Ipv4Prefix? || p.Ipv6Prefix? {
      assert Body(p)[3] == 0 && Encode(p)[11] == Body(p)[3];
    }
  }

  /** What one read makes of any input, in numbers. */
  lemma ReadsFrame(input: Bytes)
    ensures |input| < 8 ==>
      Streams.GetPdu(input) == Streams.Got(Err(if input == [] then Streams.Eof else Streams.ShortRead), [])
    ensures |input| >= 8 ==>
      var g, length := Streams.GetPdu(input), Number32(input, 4);
      if length < 8 || length > 65535 then g == Streams.Got(Err(Streams.BadLength), input[8..])
      else if |input| < length then g == Streams.Got(Err(if |input| == 8 then Streams.Eof else Streams.ShortRead), [])
      else
        && g.rest == input[length..]
        && (g.result.Err? ==> g.result.error == Streams.Malformed)
        && forall p :: g.result == Ok(p) <==> Spells(input[..length], p)
  {
    hide U32, Number32, Decipher, Spells;
    if |input| >= 8 {
      Sliced(input, 4);
      var length := Number32(input, 4);
      if 8 <= length <= 65535 && length <= |input| {
        forall p ensures Decipher(input[..length]) == Some(p) <==> Spells(input[..length], p) {
          DecodesIff(input[..length], p);
        }
      }
    }
  }

  // ---------------------------------------------------------------- what a router sees of a ROA and of an ASPA

  /** A valid IPv4 ROA as its twenty bytes; `announce` tells the two flags apart. */
  lemma RoaBytes4(version: uint8, announce: bool, r: Roa)
    requires r.IsValid() && r.prefix.addr.V4?
    ensures var n, a := r.prefix.addr.v4, r.asn;
      Encode(RoaPdu(version, if announce then ANNOUNCE else WITHDRAW, r.Key())) ==
        [version, 4, 0, 0, 0, 0, 0, 20, if announce then 1 else 0, r.prefix.bits, r.maxMask, 0,
         n / 0x100_0000, n / 0x1_0000 % 0x100, n / 0x100 % 0x100, n % 0x100,
         a / 0x100_0000, a / 0x1_0000 % 0x100, a / 0x100 % 0x100, a % 0x100]
  {
    hide Encode;
    ValidityIsTheRule(r);
    assert Be32(20) == [0, 0, 0, 20];
    Streams.PrefixBytes(RoaPdu(version, if announce then ANNOUNCE else WITHDRAW, r.Key()));
    assert [version, 4] + [0, 0] + [0, 0, 0, 20] == [version, 4, 0, 0, 0, 0, 0, 20];
  }

  /** A valid IPv6 ROA as its 32 bytes: the address is its two halves, each the most significant byte first. */
  lemma RoaBytes6(version: uint8, announce: bool, r: Roa)
    requires r.IsValid() && r.prefix.addr.V6?
    ensures var V6(h, l) := r.prefix.addr;
      var a := r.asn;
      Encode(RoaPdu(version, if announce then ANNOUNCE else WITHDRAW, r.Key())) ==
        [version, 6, 0, 0, 0, 0, 0, 32, if announce then 1 else 0, r.prefix.bits, r.maxMask, 0] +
        Eight(h) + Eight(l) + [a / 0x100_0000, a / 0x1_0000 % 0x100, a / 0x100 % 0x100, a % 0x100]
  {
    hide Encode, Be64, Eight;
    ValidityIsTheRule(r);
    var V6(h, l) := r.prefix.addr;
    EightIsBe64(h);
    EightIsBe64(l);
    var flags := if announce then ANNOUNCE else WITHDRAW;
    Prefix6Bytes(version, flags, r.prefix.bits, r.maxMask, Eight(h) + Eight(l), r.asn);
    Streams.Flatten3([version, 6, 0, 0, 0, 0, 0, 32, if announce then 1 else 0, r.prefix.bits, r.maxMask, 0],
                     Eight(h), Eight(l));
  }

  lemma Prefix6Bytes(version: uint8, flags: uint8, minLen: uint8, maxLen: uint8, prefix: Bytes16, a: uint32)
    ensures Encode(Ipv6Prefix(version, flags, minLen, maxLen, prefix, a)) ==
      [version, 6, 0, 0, 0, 0, 0, 32, flags, minLen, maxLen, 0] + prefix +
      [a / 0x100_0000, a / 0x1_0000 % 0x100, a / 0x100 % 0x100, a % 0x100]
  {
    hide Encode;
    assert Be32(32) == [0, 0, 0, 32];
    Streams.PrefixBytes(Ipv6Prefix(version, flags, minLen, maxLen, prefix, a));
    assert [version, 6] + [0, 0] + [0, 0, 0, 32] + [flags, minLen, maxLen, 0] ==
      [version, 6, 0, 0, 0, 0, 0, 32, flags, minLen, maxLen, 0];
  }

  /** The first twelve bytes of an ASPA whose size fits 32 bits; its providers follow as `Spells` says. */
  lemma AspaHead(version: uint8, announce: bool, customer: uint32, providers: seq<uint32>)
    requires 12 + 4 * |providers| < TWO_32 - 16
    ensures var n, data := 12 + 4 * |providers|,
                           Encode(Pdu.Aspa(version, if announce then ANNOUNCE else WITHDRAW, customer, providers));
      && |data| == n
      && data[..12] == [version, 11, if announce then 1 else 0, 0,
                        n / 0x100_0000, n / 0x1_0000 % 0x100, n / 0x100 % 0x100, n % 0x100,
                        customer / 0x100_0000, customer / 0x1_0000 % 0x100, customer / 0x100 % 0x100, customer % 0x100]
  {
    hide Encode, Body, Be32s, Be32, Head;
    var flags, n := if announce then ANNOUNCE else WITHDRAW, 12 + 4 * |providers|;
    var p := Pdu.Aspa(version, flags, customer, providers);
    EncodedLength(p);
    BodyLength(p);
    Streams.AspaBytes(p, n);
    TwelveBytes(version, flags, n, customer);
    Streams.FrontBytes(Head(version, 11, [flags, 0], n) + Be32(customer), Be32s(providers));
  }

  lemma TwelveBytes(version: uint8, flags: uint8, n: uint32, a: uint32)
    ensures Head(version, 11, [flags, 0], n) + Be32(a) ==
      [version, 11, flags, 0,
       n / 0x100_0000, n / 0x1_0000 % 0x100, n / 0x100 % 0x100, n % 0x100,
       a / 0x100_0000, a / 0x1_0000 % 0x100, a / 0x100 % 0x100, a % 0x100]
  {
  }

  function Eight(x: uint64): Bytes {
    [x / 0x100_0000_0000_0000, x / 0x1_0000_0000_0000 % 0x100, x / 0x100_0000_0000 % 0x100, x / 0x1_0000_0000 % 0x100,
     x / 0x100_0000 % 0x100, x / 0x1_0000 % 0x100, x / 0x100 % 0x100, x % 0x100]
  }

  lemma EightIsBe64(x: uint64)
    ensures Eight(x) == Be64(x)
  {
    var h: int, l: int := x / TWO_32, x % TWO_32;
    HighDigits(x, h);
    LowDigits(x, h, l);
  }

  lemma HighDigits(x: nat, h: nat)
    requires h == x / TWO_32
    ensures h / 0x100_0000 == x / 0x100_0000_0000_0000 && h / 0x1_0000 == x / 0x1_0000_0000_0000
    ensures h / 0x100 == x / 0x100_0000_0000
  {
  }

  lemma LowDigits(x: nat, h: nat, l: nat)
    requires x == h * TWO_32 + l && l < TWO_32
    ensures l / 0x100_0000 == x / 0x100_0000 % 0x100 && l / 0x1_0000 % 0x100 == x / 0x1_0000 % 0x100
    ensures l / 0x100 % 0x100 == x / 0x100 % 0x100 && l % 0x100 == x % 0x100
  {
    LowDigit24(x, h, l);
    LowDigit16(x, h, l);
    LowDigit8(x, h, l);
  }

  lemma LowDigit24(x: nat, h: nat, l: nat)
    requires x == h * TWO_32 + l && l < TWO_32
    ensures l / 0x100_0000 == x / 0x100_0000 % 0x100
  {
    assert x / 0x100_0000 == h * 0x100 + l / 0x100_0000;
  }

  lemma LowDigit16(x: nat, h: nat, l: nat)
    requires x == h * TWO_32 + l
    ensures l / 0x1_0000 % 0x100 == x / 0x1_0000 % 0x100
  {
    assert x / 0x1_0000 == h * 0x1_0000 + l / 0x1_0000;
  }

  lemma LowDigit8(x: nat, h: nat, l: nat)
    requires x == h * TWO_32 + l
    ensures l / 0x100 % 0x100 == x / 0x100 % 0x100
    ensures l % 0x100 == x % 0x100
  {
    assert x / 0x100 == h * 0x100_0000 + l / 0x100;
  }

  // ---------------------------------------------------------------- buffers written out in full

  lemma SampleSerialQuery()
    ensures Decipher([1, 1, 0, 5, 0, 0, 0, 12, 0, 0, 0, 7]) ==
              Some(SerialQuery(1, 5, 7))
  {
    hide Decipher;
    var data: Bytes := [1, 1, 0, 5, 0, 0, 0, 12, 0, 0, 0, 7];
    assert Number16(data, 2) == 5 && Number32(data, 4) == 12 && Number32(data, 8) == 7;
    hide Number16, Number32;
    DecodesIff(data, SerialQuery(1, 5, 7));
  }

  lemma SampleEndOfData()
    ensures Decipher([2, 7, 0, 5, 0, 0, 0, 24, 0, 0, 0, 7, 0, 0, 14, 16, 0, 0, 2, 88, 0, 0, 28, 32]) ==
              Some(EndOfData(2, 5, 7, 3600, 600, 7200))
  {
    hide Decipher;
    var data: Bytes := [2, 7, 0, 5, 0, 0, 0, 24, 0, 0, 0, 7, 0, 0, 14, 16, 0, 0, 2, 88, 0, 0, 28, 32];
    assert Number16(data, 2) == 5 && Number32(data, 4) == 24 && Number32(data, 8) == 7;
    assert Number32(data, 12) == 3600 && Number32(data, 16) == 600 && Number32(data, 20) == 7200;
    hide Number16, Number32;
    DecodesIff(data, EndOfData(2, 5, 7, 3600, 600, 7200));
  }

  lemma SamplePrefix()
    ensures Decipher([2, 4, 0, 0, 0, 0, 0, 20, 1, 8, 24, 0, 10, 0, 0, 0, 0, 0, 251, 244]) ==
              Some(Ipv4Prefix(2, 1, 8, 24, [10, 0, 0, 0], 64500))
  {
    hide Decipher;
    var data: Bytes := [2, 4, 0, 0, 0, 0, 0, 20, 1, 8, 24, 0, 10, 0, 0, 0, 0, 0, 251, 244];
    assert data[12..16] == [10, 0, 0, 0] && Number32(data, 4) == 20 && Number32(data, 16) == 64500;
    hide Number16, Number32;
    DecodesIff(data, Ipv4Prefix(2, 1, 8, 24, [10, 0, 0, 0], 64500));
  }

  lemma SampleReport()
    ensures Decipher([2, 10, 0, 8, 0, 0, 0, 19, 0, 0, 0, 2, 65, 66, 0, 0, 0, 1, 67]) ==
              Some(ErrorReport(2, 8, [65, 66], [67]))
  {
    hide Decipher;
    var data: Bytes := [2, 10, 0, 8, 0, 0, 0, 19, 0, 0, 0, 2, 65, 66, 0, 0, 0, 1, 67];
    assert data[12..14] == [65, 66] && data[18..] == [67];
    assert Number16(data, 2) == 8 && Number32(data, 4) == 19 && Number32(data, 8) == 2 && Number32(data, 14) == 1;
    hide Number16, Number32;
    DecodesIff(data, ErrorReport(2, 8, [65, 66], [67]));
  }

  lemma SampleAspa()
    ensures Decipher([2, 11, 1, 0, 0, 0, 0, 20, 0, 0, 253, 232, 0, 0, 0, 1, 0, 0, 0, 2]) ==
              Some(Pdu.Aspa(2, 1, 65000, [1, 2]))
  {
    hide Decipher;
    var data: Bytes := [2, 11, 1, 0, 0, 0, 0, 20, 0, 0, 253, 232, 0, 0, 0, 1, 0, 0, 0, 2];
    assert Number32(data, 4) == 20 && Number32(data, 8) == 65000 && Number32(data, 12) == 1 && Number32(data, 16) == 2;
    hide Number16, Number32;
    DecodesIff(data, Pdu.Aspa(2, 1, 65000, [1, 2]));
  }
}
