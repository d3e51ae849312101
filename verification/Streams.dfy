/** Writers and readers: filling buffers, partial writes, framing, and what survives the trip. */
module Streams {
  import opened Words
  import opened Pdus
  import opened Codec

  // ---------------------------------------------------------------- filling buffers

  /** `copy(buf[at:], b)`. */
  method Put(buf: array<uint8>, at: nat, b: Bytes)
    requires at + |b| <= buf.Length
    modifies buf
    ensures buf[..at + |b|] == old(buf[..at]) + b
    ensures buf[at + |b|..] == old(buf[at + |b|..])
  {
    for i := 0 to |b|
      invariant buf[..at + i] == old(buf[..at]) + b[..i]
      invariant buf[at + i..] == old(buf[at + i..])
    {
      assert old(buf[at + i..])[1..] == old(buf[at + i + 1..]);
      buf[at + i] := b[i];
      assert buf[..at + i + 1] == buf[..at + i] + [b[i]];
      assert b[..i + 1] == b[..i] + [b[i]];
    }
  }

  /** `binary.BigEndian.PutUint32(buf[at:], x)`. */
  method PutUint32(buf: array<uint8>, at: nat, x: uint32)
    requires at + 4 <= buf.Length
    modifies buf
    ensures buf[..at + 4] == old(buf[..at]) + Be32(x)
    ensures buf[at + 4..] == old(buf[at + 4..])
  {
    Put(buf, at, Be32(x));
  }

  method PutHead(buf: array<uint8>, version: uint8, ptype: uint8, middle: Bytes, length: uint32)
    requires buf.Length >= 8 && |middle| == 2
    modifies buf
    ensures buf[..8] == Head(version, ptype, middle, length)
    ensures buf[8..] == old(buf[8..])
  {
    Put(buf, 0, [version, ptype] + middle);
    assert buf[..4] == [version, ptype] + middle;
    PutUint32(buf, 4, length);
    assert old(buf[4..])[4..] == old(buf[8..]);
  }

  lemma Flatten4(a: Bytes, b: Bytes, c: Bytes, d: Bytes)
    ensures a + (b + c + d) == a + b + c + d
  {
  }

  lemma Flatten5(a: Bytes, b: Bytes, c: Bytes, d: Bytes, e: Bytes)
    ensures a + (b + c + d + e) == a + b + c + d + e
  {
  }

  /** The object writers' buffer for a fixed-size PDU other than the two prefixes. */
  method FillShort(p: Pdu) returns (buf: array<uint8>)
    requires p.SerialNotify? || p.SerialQuery? || p.ResetQuery? || p.CacheResponse? || p.CacheReset? || p.EndOfData?
    ensures fresh(buf) && buf[..] == Encode(p)
  {
    var size := if p.EndOfData? then 24 else if p.SerialNotify? || p.SerialQuery? then 12 else 8;
    BodyLength(p);
    buf := new uint8[size](_ => 0);
    PutHead(buf, p.version, TypeCode(p), Middle(p), size);
    if p.SerialNotify? || p.SerialQuery? {
      PutUint32(buf, 8, p.serial);
    } else if p.EndOfData? {
      PutUint32(buf, 8, p.serial);
      PutUint32(buf, 12, p.refresh);
      PutUint32(buf, 16, p.retry);
      PutUint32(buf, 20, p.expire);
      EndOfDataBytes(p);
    }
    assert buf[..size] == buf[..];
  }

  lemma EndOfDataBytes(p: Pdu)
    requires p.EndOfData?
    ensures Encode(p) ==
      Head(p.version, TypeCode(p), Middle(p), 24) + Be32(p.serial) + Be32(p.refresh) + Be32(p.retry) + Be32(p.expire)
  {
    hide Be16, Be32;
    BodyLength(p);
    Flatten5(Head(p.version, TypeCode(p), Middle(p), 24), Be32(p.serial), Be32(p.refresh), Be32(p.retry), Be32(p.expire));
  }

  lemma PrefixBytes(p: Pdu)
    requires p.Ipv4Prefix? || p.Ipv6Prefix?
    ensures var prefix: Bytes := if p.Ipv4Prefix? then p.prefix4 else p.prefix6;
      Encode(p) == Head(p.version, TypeCode(p), [0, 0], 16 + |prefix|) + [p.flags, p.minLen, p.maxLen, 0] + prefix + Be32(p.asn)
  {
    hide Be16, Be32;
    var prefix: Bytes := if p.Ipv4Prefix? then p.prefix4 else p.prefix6;
    BodyLength(p);
    Flatten4(Head(p.version, TypeCode(p), [0, 0], 16 + |prefix|), [p.flags, p.minLen, p.maxLen, 0], prefix, Be32(p.asn));
  }

  /** The direct prefix writers leave bytes 2, 3 and 11 of a zeroed buffer alone. */
  method FillDirect(version: uint8, ptype: uint8, flags: uint8, minLen: uint8, maxLen: uint8, prefix: Bytes, asn: uint32)
    returns (buf: array<uint8>)
    requires |prefix| <= 16
    ensures fresh(buf)
    ensures buf[..] == Head(version, ptype, [0, 0], 16 + |prefix|) + [flags, minLen, maxLen, 0] + prefix + Be32(asn)
  {
    var n := |prefix|;
    buf := new uint8[16 + n](_ => 0);
    PutDirectHead(buf, version, ptype, flags, minLen, maxLen);
    Put(buf, 12, prefix);
    PutUint32(buf, 12 + n, asn);
    assert buf[..16 + n] == buf[..];
  }

  method PutDirectHead(buf: array<uint8>, version: uint8, ptype: uint8, flags: uint8, minLen: uint8, maxLen: uint8)
    requires 16 <= buf.Length <= 32 && forall i | 0 <= i < 12 :: buf[i] == 0
    modifies buf
    ensures buf[..12] == Head(version, ptype, [0, 0], buf.Length) + [flags, minLen, maxLen, 0]
  {
    buf[0], buf[1] := version, ptype;
    assert buf[..4] == [version, ptype] + [0, 0];
    PutUint32(buf, 4, buf.Length);
    assert buf[11] == buf[8..][3];
    buf[8], buf[9], buf[10] := flags, minLen, maxLen;
    assert buf[..12] == buf[..8] + [flags, minLen, maxLen, 0];
  }

  /** The object writers' buffer for a prefix PDU, which also stores its zero fields. */
  method FillPrefix(p: Pdu) returns (buf: array<uint8>)
    requires p.Ipv4Prefix? || p.Ipv6Prefix?
    ensures fresh(buf) && buf[..] == Encode(p)
  {
    var n := if p.Ipv4Prefix? then 4 else 16;
    buf := new uint8[16 + n](_ => 0);
    PutHead(buf, p.version, TypeCode(p), Be16(0), 16 + n);
    Put(buf, 8, [p.flags, p.minLen, p.maxLen, 0]);
    Put(buf, 12, if p.Ipv4Prefix? then p.prefix4 else p.prefix6);
    PutUint32(buf, 12 + n, p.asn);
    assert buf[..16 + n] == buf[..];
    PrefixBytes(p);
  }

  method FillRouterKey(p: Pdu) returns (buf: array<uint8>)
    requires p.RouterKey?
    ensures fresh(buf) && buf[..] == Encode(p)
  {
    BodyLength(p);
    var size := 32 + |p.spki|;
    buf := new uint8[size](_ => 0);
    PutHead(buf, p.version, 9, Be16(p.session), Wrap32(size));
    Put(buf, 8, p.ski);
    PutUint32(buf, 28, p.asn);
    if |p.spki| > 0 {
      Put(buf, 32, p.spki);
    }
    assert buf[..size] == buf[..];
    RouterKeyBytes(p);
  }

  lemma RouterKeyBytes(p: Pdu)
    requires p.RouterKey?
    ensures var front := Head(p.version, 9, Be16(p.session), Wrap32(32 + |p.spki|)) + p.ski + Be32(p.asn);
      Encode(p) == front + p.spki && (p.spki == [] ==> Encode(p) == front)
  {
    hide Be16, Be32;
    BodyLength(p);
    var head := Head(p.version, 9, Be16(p.session), Wrap32(32 + |p.spki|));
    Flatten4(head, p.ski, Be32(p.asn), p.spki);
  }

  /** `Write` of an Error Report slices up to `12 + pduLen` in 32 bits; a bound that wraps below 12 is a panic. */
  predicate Panics(p: Pdu) {
    p.ErrorReport? && Wrap32(12 + Wrap32(|p.pdu|)) < 12
  }

  /** Only an Error Report whose PDU field is within 12 bytes of 4 GiB, modulo 2^32, panics; nothing sendable does. */
  lemma PanicsIff(p: Pdu)
    ensures Panics(p) <==> p.ErrorReport? && Wrap32(|p.pdu|) >= TWO_32 - 12
    ensures Sendable(p) ==> !Panics(p)
  {
    hide Encode, Body;
    EncodedLength(p);
    BodyLength(p);
  }

  method FillErrorReport(p: Pdu) returns (panics: bool, buf: array<uint8>)
    requires p.ErrorReport?
    ensures panics <==> Panics(p)
    ensures fresh(buf) && (!panics ==> buf[..] == Encode(p))
  {
    hide Encode, Head, Be16, Be32;
    var pduLen: int, textLen := Wrap32(|p.pdu|), Wrap32(|p.text|);
    panics := Wrap32(12 + pduLen) < 12;
    if panics {
      buf := new uint8[0];
      return;
    }
    ErrorReportBytes(p);
    buf := FillTwoParts(p.version, p.code, p.pdu[..pduLen], p.text[..textLen]);
  }

  method FillTwoParts(version: uint8, code: uint16, pdu: Bytes, text: Bytes) returns (buf: array<uint8>)
    requires |pdu| < TWO_32 && |text| < TWO_32
    ensures fresh(buf)
    ensures buf[..] == Head(version, 10, Be16(code), Wrap32(16 + |pdu| + |text|)) + Be32(|pdu|) + pdu + Be32(|text|) + text
  {
    hide Head, Be16, Be32;
    var m, size := |pdu|, 12 + |pdu| + 4 + |text|;
    buf := new uint8[size](_ => 0);
    PutHead(buf, version, 10, Be16(code), Wrap32(size));
    PutUint32(buf, 8, m);
    Put(buf, 12, pdu);
    PutUint32(buf, 12 + m, |text|);
    Put(buf, 16 + m, text);
    assert buf[..size] == buf[..];
  }

  lemma ErrorReportBytes(p: Pdu)
    requires p.ErrorReport?
    ensures var m, n := |Clip(p.pdu)|, |Clip(p.text)|;
      Encode(p) == Head(p.version, 10, Be16(p.code), Wrap32(16 + m + n)) + Be32(m) + Clip(p.pdu) + Be32(n) + Clip(p.text)
  {
    hide Be16, Be32;
    BodyLength(p);
    var m, n := |Clip(p.pdu)|, |Clip(p.text)|;
    Flatten5(Head(p.version, 10, Be16(p.code), Wrap32(16 + m + n)), Be32(m), Clip(p.pdu), Be32(n), Clip(p.text));
  }

  /** Both ASPA writers' loop: the providers after the first twelve bytes, on a buffer that holds them all. */
  method PutProviders(buf: array<uint8>, providers: seq<uint32>)
    requires 12 + 4 * |providers| <= buf.Length
    modifies buf
    ensures buf[..12 + 4 * |providers|] == old(buf[..12]) + Be32s(providers)
  {
    for i := 0 to |providers|
      invariant buf[..12 + 4 * i] == old(buf[..12]) + Be32s(providers[..i])
    {
      PutUint32(buf, 12 + 4 * i, providers[i]);
      assert providers[..i + 1][..i] == providers[..i];
    }
    assert providers[..|providers|] == providers;
  }

  method FillAspa(p: Pdu) returns (buf: array<uint8>)
    requires p.Aspa?
    ensures fresh(buf) && buf[..] == Encode(p)
  {
    var size := 12 + 4 * |p.providers|;
    AspaBytes(p, size);
    buf := new uint8[size](_ => 0);
    PutHead(buf, p.version, 11, [p.flags, 0], Wrap32(size));
    PutUint32(buf, 8, p.customer);
    PutProviders(buf, p.providers);
    assert buf[..size] == buf[..];
  }

  /** `Write` of any PDU, up to handing the buffer to `writeFull`. */
  method Fill(p: Pdu) returns (panics: bool, buf: array<uint8>)
    ensures panics <==> Panics(p)
    ensures fresh(buf) && (!panics ==> buf[..] == Encode(p))
  {
    hide Encode, Head;
    panics := false;
    match p {
      case Ipv4Prefix(_, _, _, _, _, _) => buf := FillPrefix(p);
      case Ipv6Prefix(_, _, _, _, _, _) => buf := FillPrefix(p);
      case RouterKey(_, _, _, _, _) => buf := FillRouterKey(p);
      case ErrorReport(_, _, _, _) => panics, buf := FillErrorReport(p);
      case Aspa(_, _, _, _) => buf := FillAspa(p);
      case _ => buf := FillShort(p);
    }
  }

  // ---------------------------------------------------------------- writing

  /** How one `Write` of the underlying writer ends: it takes some bytes, and may report an error. */
  datatype Fate = Takes(n: nat) | Fails(n: nat)

  predicate Progresses(script: seq<Fate>) {
    forall f | f in script :: f.Takes? && f.n > 0
  }

  /** An `io.Writer` that follows a script; past its end it takes everything. */
  class Sink {
    var out: Bytes
    var script: seq<Fate>

    constructor (script: seq<Fate>)
      ensures out == [] && this.script == script
    {
      out, this.script := [], script;
    }

    method Write(b: Bytes) returns (n: nat, err: bool)
      modifies this
      ensures n <= |b| && out == old(out) + b[..n]
      ensures Progresses(old(script)) ==> Progresses(script) && !err && (b != [] ==> n > 0)
    {
      n, err := |b|, false;
      if script != [] {
        assert script[0] in script;
        n := if script[0].n < |b| then script[0].n else |b|;
        err := script[0].Fails?;
        script := script[1..];
      }
      out := out + b[..n];
    }
  }

  /** `writeFull`: all of `buf`, or an error after some of it; a writer that keeps progressing gets all of it. */
  method WriteFull(w: Sink, buf: Bytes) returns (ok: bool, ghost n: nat)
    modifies w
    ensures n <= |buf| && w.out == old(w.out) + buf[..n]
    ensures ok ==> n == |buf|
    ensures Progresses(old(w.script)) ==> ok && Progresses(w.script)
  {
    var total := 0;
    n := 0;
    while total < |buf|
      invariant total == n <= |buf|
      invariant w.out == old(w.out) + buf[..total]
      invariant Progresses(old(w.script)) ==> Progresses(w.script)
    {
      var k, err := w.Write(buf[total..]);
      n := total + k;
      assert buf[..total] + buf[total..][..k] == buf[..n];
      if err || k == 0 {
        return false, n;
      }
      total := total + k;
    }
    ok := true;
  }

  /** `pdu.Write(w)`; a panic comes before the first byte. */
  method WritePdu(w: Sink, p: Pdu) returns (panics: bool, ok: bool, ghost n: nat)
    modifies w
    ensures panics <==> Panics(p)
    ensures panics ==> !ok && n == 0
    ensures n <= |Encode(p)| && w.out == old(w.out) + Encode(p)[..n]
    ensures ok ==> n == |Encode(p)|
    ensures Progresses(old(w.script)) ==> Progresses(w.script) && (ok <==> !panics)
  {
    hide Encode;
    var buf;
    panics, buf := Fill(p);
    ok, n := false, 0;
    if !panics {
      ok, n := WriteFull(w, buf[..]);
    }
  }

  /** `WriteIpv4Prefix`: the same bytes as building the PDU and calling `Write`. */
  method WriteIpv4Prefix(w: Sink, version: uint8, flags: uint8, minLen: uint8, maxLen: uint8, prefix: Bytes4, asn: uint32)
    returns (ok: bool, ghost n: nat)
    modifies w
    ensures var b := Encode(Ipv4Prefix(version, flags, minLen, maxLen, prefix, asn));
      n <= |b| && w.out == old(w.out) + b[..n] && (ok ==> n == |b|)
    ensures Progresses(old(w.script)) ==> ok && Progresses(w.script)
  {
    var buf := FillDirect(version, 4, flags, minLen, maxLen, prefix, asn);
    PrefixBytes(Ipv4Prefix(version, flags, minLen, maxLen, prefix, asn));
    ok, n := WriteFull(w, buf[..]);
  }

  /** `WriteIpv6Prefix`: the same bytes as building the PDU and calling `Write`. */
  method WriteIpv6Prefix(w: Sink, version: uint8, flags: uint8, minLen: uint8, maxLen: uint8, prefix: Bytes16, asn: uint32)
    returns (ok: bool, ghost n: nat)
    modifies w
    ensures var b := Encode(Ipv6Prefix(version, flags, minLen, maxLen, prefix, asn));
      n <= |b| && w.out == old(w.out) + b[..n] && (ok ==> n == |b|)
    ensures Progresses(old(w.script)) ==> ok && Progresses(w.script)
  {
    var buf := FillDirect(version, 6, flags, minLen, maxLen, prefix, asn);
    PrefixBytes(Ipv6Prefix(version, flags, minLen, maxLen, prefix, asn));
    ok, n := WriteFull(w, buf[..]);
  }

  const STACK_BUFFER: nat := 268

  /**
   * `WriteAspa`, with its stack buffer for up to 64 providers and a heap buffer beyond: the same bytes as building
   * the PDU and calling `Write`, for every provider count whose size fits 32 bits.
   */
  method WriteAspa(w: Sink, version: uint8, flags: uint8, customer: uint32, providers: seq<uint32>)
    returns (ok: bool, ghost n: nat)
    requires 12 + 4 * |providers| < TWO_32
    modifies w
    ensures var b := Encode(Pdu.Aspa(version, flags, customer, providers));
      n <= |b| && w.out == old(w.out) + b[..n] && (ok ==> n == |b|)
    ensures Progresses(old(w.script)) ==> ok && Progresses(w.script)
  {
    var buf, pduLen := AspaBuffer(version, flags, customer, providers);
    ok, n := WriteFull(w, buf[..pduLen]);
  }

  method AspaBuffer(version: uint8, flags: uint8, customer: uint32, providers: seq<uint32>)
    returns (buf: array<uint8>, pduLen: nat)
    requires 12 + 4 * |providers| < TWO_32
    ensures fresh(buf) && pduLen <= buf.Length
    ensures buf[..pduLen] == Encode(Pdu.Aspa(version, flags, customer, providers))
  {
    pduLen := Wrap32(12 + 4 * |providers|);
    AspaBytes(Pdu.Aspa(version, flags, customer, providers), pduLen);
    buf := new uint8[if pduLen <= STACK_BUFFER then STACK_BUFFER else pduLen](_ => 0);
    PutAspaHead(buf, version, flags, pduLen, customer);
    PutProviders(buf, providers);
  }

  method PutAspaHead(buf: array<uint8>, version: uint8, flags: uint8, length: uint32, customer: uint32)
    requires 12 <= buf.Length && buf[3] == 0
    modifies buf
    ensures buf[..12] == Head(version, 11, [flags, 0], length) + Be32(customer)
  {
    buf[0], buf[1], buf[2] := version, 11, flags;
    assert buf[..4] == [version, 11] + [flags, 0];
    PutUint32(buf, 4, length);
    PutUint32(buf, 8, customer);
  }

  lemma AspaBytes(p: Pdu, size: nat)
    requires p.Aspa? && size == 12 + 4 * |p.providers|
    ensures Encode(p) == Head(p.version, 11, [p.flags, 0], Wrap32(size)) + Be32(p.customer) + Be32s(p.providers)
  {
    hide Be16, Be32;
    BodyLength(p);
    Flatten3(Head(p.version, 11, [p.flags, 0], Wrap32(size)), Be32(p.customer), Be32s(p.providers));
  }

  lemma Flatten3(a: Bytes, b: Bytes, c: Bytes)
    ensures a + (b + c) == a + b + c
  {
  }

  // ---------------------------------------------------------------- reading

  /**
   * `Eof` is a clean end of input; a header followed by no payload byte counts as one too. `NetFailed` is a network
   * error or a passed deadline.
   */
  datatype ReadError = Eof | ShortRead | NetFailed | BadLength | Malformed

  datatype Got = Got(result: Result<Pdu, ReadError>, rest: Bytes)

  /** What one `GetPDU` makes of the remaining input, and what it leaves. */
  function GetPdu(input: Bytes): (g: Got)
    ensures |g.rest| <= |input|
    ensures g.result.Ok? ==> |g.rest| + MIN_PDU <= |input|
  {
    if |input| < MIN_PDU then
      Got(Err(if input == [] then Eof else ShortRead), [])
    else
      var length := U32(input[4..8]);
      if length < MIN_PDU || length > MAX_PDU then
        Got(Err(BadLength), input[8..])
      else if |input| < length then
        Got(Err(if |input| == MIN_PDU then Eof else ShortRead), [])
      else
        match Decipher(input[..length])
        case Some(p) => Got(Ok(p), input[length..])
        case None => Got(Err(Malformed), input[length..])
  }

  /** How an error looks on a connection that `fails` where its input ends, instead of closing cleanly. */
  function Seen(fails: bool, e: ReadError): ReadError {
    if fails && (e.Eof? || e.ShortRead?) then NetFailed else e
  }

  /** A buffered reader over the rest of the input, which ends cleanly or `fails` there. */
  class Reader {
    var input: Bytes
    var fails: bool
    /** The connection was closed on this side. */
    var cut: bool
    /** Bytes a `Peek` has seen and nothing has consumed: the buffer holds at least these. */
    var peeked: nat

    ghost predicate Valid()
      reads this
    {
      (cut ==> fails) && peeked <= |input|
    }

    constructor (input: Bytes, fails: bool)
      ensures Valid() && this.input == input && this.fails == fails && !cut
    {
      this.input, this.fails := input, fails;
      cut, peeked := false, 0;
    }

    /** `bufio.Reader.Peek(1)`: the next byte, which stays in the buffer. */
    method Peek() returns (b: Option<uint8>)
      requires Valid()
      modifies this`peeked
      ensures Valid()
      ensures b == if input == [] then None else Some(input[0])
      ensures input != [] ==> peeked > 0
    {
      if input == [] {
        return None;
      }
      peeked := if peeked > 0 then peeked else 1;
      b := Some(input[0]);
    }

    /** After the connection is closed on this side, what the buffer holds can still be read; then comes an error. */
    method Cut(buffered: nat)
      requires Valid()
      modifies this
      ensures Valid() && cut && peeked == old(peeked)
      ensures old(cut) ==> input == old(input) && fails == old(fails)
      ensures !old(cut) ==> fails && input <= old(input)
    {
      if !cut {
        var n := if buffered > peeked then buffered else peeked;
        input := if n < |input| then input[..n] else input;
        fails, cut := true, true;
      }
    }

    /** `io.ReadFull`: `n` bytes, or an error that has used up what there was; only a clean end is told as short. */
    method ReadFull(n: nat) returns (r: Result<Bytes, ReadError>)
      requires n > 0
      modifies this`input, this`peeked
      ensures peeked == 0
      ensures |old(input)| >= n ==> r == Ok(old(input)[..n]) && input == old(input)[n..]
      ensures |old(input)| < n ==> r == Err(Seen(fails, if old(input) == [] then Eof else ShortRead)) && input == []
    {
      peeked := 0;
      if |input| >= n {
        r, input := Ok(input[..n]), input[n..];
      } else {
        r, input := Err(Seen(fails, if input == [] then Eof else ShortRead)), [];
      }
    }

    /** `getPDUBytes`: the header, then the payload its length announces. */
    method GetPduBytes() returns (r: Result<Bytes, ReadError>)
      modifies this`input, this`peeked
      ensures peeked == 0
      ensures r.Ok? ==> MIN_PDU <= |r.value| <= MAX_PDU
      ensures var g := GetPdu(old(input));
        && g.rest == input
        && match r
           case Err(e) => g.result.Err? && e == Seen(fails, g.result.error)
           case Ok(data) => g.result == match Decipher(data) case Some(p) => Ok(p) case None => Err(Malformed)
    {
      ghost var all := input;
      r := ReadFull(8);
      if r.Err? {
        return;
      }
      var buf := r.value;
      assert buf[4..8] == all[4..8];
      var length := U32(buf[4..8]);
      if length < MIN_PDU || length > MAX_PDU {
        return Err(BadLength);
      }
      var payloadLen := length - MIN_PDU;
      if payloadLen > 0 {
        r := ReadFull(payloadLen);
        if r.Err? {
          return;
        }
        buf := buf + r.value;
      }
      assert buf == all[..length] && input == all[length..];
      r := Ok(buf);
    }

    /** `GetPDU`. */
    method Get() returns (r: Result<Pdu, ReadError>)
      modifies this`input, this`peeked
      ensures peeked == 0
      ensures var g := GetPdu(old(input));
        && g.rest == input
        && r == match g.result case Ok(p) => Ok(p) case Err(e) => Err(Seen(fails, e))
    {
      var b := GetPduBytes();
      match b {
        case Err(e) => r := Err(e);
        case Ok(data) =>
          var d := Decipher(data);
          r := if d.Some? then Ok(d.value) else Err(Malformed);
      }
    }
  }

  // ---------------------------------------------------------------- whole streams

  function EncodeAll(ps: seq<Pdu>): Bytes {
    if ps == [] then [] else Encode(ps[0]) + EncodeAll(ps[1..])
  }

  /** Within the size limit of the protocol, and not an Error Report over 4 GiB in memory. */
  predicate Sendable(p: Pdu) {
    |Encode(p)| <= MAX_PDU && Clipped(p) == p
  }

  datatype Heard = Heard(pdus: seq<Pdu>, end: ReadError, rest: Bytes)

  /** Reading until the first error. */
  function ReadAll(input: Bytes): Heard
    decreases |input|
  {
    var g := GetPdu(input);
    match g.result
    case Ok(p) => var h := ReadAll(g.rest); h.(pdus := [p] + h.pdus)
    case Err(e) => Heard([], e, g.rest)
  }

  lemma FrontPdu(p: Pdu, tail: Bytes)
    requires Sendable(p)
    ensures GetPdu(Encode(p) + tail) == Got(Ok(p), tail)
  {
    hide Encode, Decipher, Body, U32;
    EncodedLength(p);
    RoundTrip(p);
    FrontBytes(Encode(p), tail);
  }

  lemma FrontBytes(b: Bytes, tail: Bytes)
    requires |b| >= 8
    ensures (b + tail)[4..8] == b[4..8] && (b + tail)[..|b|] == b && (b + tail)[|b|..] == tail
  {
  }

  /** A read depends on nothing behind the frame it consumes. */
  lemma FrameAlone(input: Bytes, tail: Bytes)
    requires GetPdu(input).result.Ok?
    ensures var g := GetPdu(input);
      var frame := input[..|input| - |g.rest|];
      input == frame + g.rest && GetPdu(frame + tail) == Got(g.result, tail)
  {
    hide Decipher, U32;
    var length := U32(input[4..8]);
    var frame := input[..length];
    assert frame[4..8] == input[4..8];
    FrontBytes(frame, tail);
    assert input == frame + input[length..];
  }

  /** `b` consists of exactly the frames of `ps`. */
  ghost predicate Frames(b: Bytes, ps: seq<Pdu>) {
    if ps == [] then b == []
    else GetPdu(b).result == Ok(ps[0]) && Frames(GetPdu(b).rest, ps[1..])
  }

  lemma {:induction false} FramesThen(b: Bytes, ps: seq<Pdu>, tail: Bytes)
    requires Frames(b, ps)
    ensures var h := ReadAll(tail); ReadAll(b + tail) == h.(pdus := ps + h.pdus)
    decreases |ps|
  {
    hide GetPdu, ReadAll;
    if ps == [] {
      assert b + tail == tail;
    } else {
      var rest := GetPdu(b).rest;
      FrameAlone(b, rest + tail);
      FramesThen(rest, ps[1..], tail);
      assert b + tail == b[..|b| - |rest|] + (rest + tail);
      ReadStep(b + tail);
      OneMore([], ps[0], ps[1..] + ReadAll(tail).pdus);
      assert [ps[0]] + (ps[1..] + ReadAll(tail).pdus) == ps + ReadAll(tail).pdus;
    }
  }

  lemma {:induction false} FramesAppend(b: Bytes, ps: seq<Pdu>, input: Bytes)
    requires Frames(b, ps) && GetPdu(input).result.Ok?
    ensures var g := GetPdu(input); Frames(b + input[..|input| - |g.rest|], ps + [g.result.value])
    decreases |ps|
  {
    hide GetPdu;
    var g := GetPdu(input);
    var frame := input[..|input| - |g.rest|];
    if ps == [] {
      FrameAlone(input, []);
      assert b + frame == frame + [] == frame;
      assert ps + [g.result.value] == [g.result.value];
    } else {
      var rest := GetPdu(b).rest;
      FramesAppend(rest, ps[1..], input);
      FrameAlone(b, rest + frame);
      assert b + frame == b[..|b| - |rest|] + (rest + frame);
      assert (ps + [g.result.value])[1..] == ps[1..] + [g.result.value];
    }
  }

  lemma ReadIsSendable(input: Bytes)
    requires GetPdu(input).result.Ok?
    ensures Sendable(GetPdu(input).result.value)
  {
    hide Encode, Decipher;
    var data := input[..U32(input[4..8])];
    DecodeEncodeDecode(data);
    BodyIff(data, Decipher(data).value);
  }

  /** PDUs written one after another and read back arrive as they were, with nothing left over, iff all are sendable. */
  lemma {:induction false} StreamRoundTrip(ps: seq<Pdu>)
    ensures ReadAll(EncodeAll(ps)) == Heard(ps, Eof, []) <==> forall p | p in ps :: Sendable(p)
  {
    hide Encode, Sendable;
    if ps != [] {
      assert ps == [ps[0]] + ps[1..];
      if Sendable(ps[0]) {
        FrontPdu(ps[0], EncodeAll(ps[1..]));
        StreamRoundTrip(ps[1..]);
        assert forall q: Heard :: [ps[0]] + q.pdus == ps <==> q.pdus == ps[1..];
      } else {
        Unreadable(ps[0], EncodeAll(ps));
      }
    }
  }

  lemma Unreadable(p: Pdu, input: Bytes)
    requires !Sendable(p)
    ensures ReadAll(input).pdus == [] || ReadAll(input).pdus[0] != p
  {
    hide Sendable;
    if GetPdu(input).result.Ok? {
      ReadIsSendable(input);
    }
  }

  lemma {:induction false} EncodeAllAppend(ps: seq<Pdu>, p: Pdu)
    ensures EncodeAll(ps + [p]) == EncodeAll(ps) + Encode(p)
  {
    hide Encode;
    if ps == [] {
      assert ps + [p] == [p];
      assert EncodeAll([p]) == Encode(p);
    } else {
      assert (ps + [p])[1..] == ps[1..] + [p];
      EncodeAllAppend(ps[1..], p);
      Flatten3(Encode(ps[0]), EncodeAll(ps[1..]), Encode(p));
    }
  }

  method WriteAll(w: Sink, ps: seq<Pdu>) returns (ok: bool)
    modifies w
    ensures ok ==> w.out == old(w.out) + EncodeAll(ps)
    ensures Progresses(old(w.script)) ==> (ok <==> forall p | p in ps :: !Panics(p))
  {
    hide Encode, EncodeAll, Panics, Progresses;
    ghost var start, sent: Bytes := w.out, [];
    assert EncodeAll(ps[..0]) == [] by { NothingEncoded(ps[..0]); }
    assert start + sent == start;
    for i := 0 to |ps|
      invariant sent == EncodeAll(ps[..i]) && w.out == start + sent
      invariant Progresses(old(w.script)) ==> Progresses(w.script)
      invariant Progresses(old(w.script)) ==> forall p | p in ps[..i] :: !Panics(p)
    {
      NextEncoded(ps, i);
      ghost var b := Encode(ps[i]);
      assert ps[i] in ps && ps[..i + 1] == ps[..i] + [ps[i]];
      var panics, good, n := WritePdu(w, ps[i]);
      if !good {
        return false;
      }
      AllOf(b, n);
      Flatten3(start, sent, b);
      sent := sent + b;
    }
    assert ps[..|ps|] == ps;
    ok := true;
  }

  lemma NothingEncoded(ps: seq<Pdu>)
    requires ps == []
    ensures EncodeAll(ps) == []
  {
  }

  lemma AllOf(b: Bytes, n: nat)
    requires n == |b|
    ensures b[..n] == b
  {
  }

  lemma NextEncoded(ps: seq<Pdu>, i: nat)
    requires i < |ps|
    ensures EncodeAll(ps[..i + 1]) == EncodeAll(ps[..i]) + Encode(ps[i])
  {
    hide Encode;
    assert ps[..i + 1] == ps[..i] + [ps[i]];
    EncodeAllAppend(ps[..i], ps[i]);
  }

  method ReadUntilError(r: Reader) returns (ps: seq<Pdu>, end: ReadError)
    modifies r`input, r`peeked
    ensures var h := ReadAll(old(r.input)); ps == h.pdus && end == Seen(r.fails, h.end) && r.input == h.rest
  {
    hide GetPdu, ReadAll;
    ps := [];
    ghost var all := ReadAll(r.input);
    ghost var rest := all;
    assert ps + rest.pdus == all.pdus;
    while true
      invariant rest == ReadAll(r.input) && rest.end == all.end && rest.rest == all.rest
      invariant ps + rest.pdus == all.pdus
      decreases |r.input|
    {
      ReadStep(r.input);
      var one := r.Get();
      if one.Err? {
        return ps, one.error;
      }
      rest := ReadAll(r.input);
      OneMore(ps, one.value, rest.pdus);
      ps := ps + [one.value];
    }
  }

  lemma ReadStep(input: Bytes)
    ensures var g := GetPdu(input);
      ReadAll(input) == match g.result
        case Ok(p) => var h := ReadAll(g.rest); h.(pdus := [p] + h.pdus)
        case Err(e) => Heard([], e, g.rest)
  {
  }

  lemma OneMore(ps: seq<Pdu>, p: Pdu, qs: seq<Pdu>)
    ensures ps + ([p] + qs) == ps + [p] + qs
  {
  }

  /**
   * Both directions together: through any schedule of partial writes that keeps progressing, the reader gets exactly
   * the PDUs that were written, then a clean end.
   */
  method Transmit(ps: seq<Pdu>, script: seq<Fate>) returns (got: seq<Pdu>, end: ReadError)
    requires Progresses(script) && forall p | p in ps :: Sendable(p)
    ensures got == ps && end == Eof
  {
    hide Encode, EncodeAll, ReadAll, GetPdu, Sendable, Panics, Progresses;
    var w := new Sink(script);
    forall p | p in ps ensures !Panics(p) {
      PanicsIff(p);
    }
    var ok := WriteAll(w, ps);
    StreamRoundTrip(ps);
    assert [] + EncodeAll(ps) == EncodeAll(ps);
    var r := new Reader(w.out, false);
    got, end := ReadUntilError(r);
  }
}
