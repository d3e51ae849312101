/** One client connection: the read-dispatch loop, the blocks it writes, and notifications from other threads. */
module Sessions {
  import opened Words
  import opened Roas
  import opened History
  import opened Aggregation
  import opened Pdus
  import opened Codec
  import opened Streams
  import opened Routers
  import opened Caching
  import Runs

  /** `Negotiate`: looks at the first byte without consuming it. */
  function Negotiate(input: Bytes): Option<uint8> {
    if input != [] && (input[0] == 1 || input[0] == 2) then Some(input[0]) else None
  }

  /** The negotiated version is that of the first PDU, so the first PDU is never a version mismatch. */
  lemma FirstPduMatches(input: Bytes)
    requires Negotiate(input).Some? && GetPdu(input).result.Ok?
    ensures GetPdu(input).result.value.version == Negotiate(input).value
  {
    var length := U32(input[4..8]);
    VersionByte(input[..length]);
  }

  lemma VersionByte(data: Bytes)
    requires |data| <= MAX_PDU && Decipher(data).Some?
    ensures |data| >= MIN_PDU && Decipher(data).value.version == data[0]
  {
    MiddleIff(data, Decipher(data).value);
  }

  // ---------------------------------------------------------------- blocks

  /** PDUs written under one hold of the write lock. */
  datatype Block = Block(byHandler: bool, pdus: seq<Pdu>)

  predicate IsPayload(p: Pdu) {
    p.Ipv4Prefix? || p.Ipv6Prefix? || p.Aspa?
  }

  predicate IsDataBlock(ps: seq<Pdu>) {
    && |ps| >= 2 && ps[0].CacheResponse? && ps[|ps| - 1].EndOfData?
    && forall i | 0 < i < |ps| - 1 :: IsPayload(ps[i])
  }

  /** A block of the protocol, free of ASPA PDUs below version 2. */
  predicate WellFormed(version: uint8, b: Block) {
    && ((|b.pdus| == 1 && (b.pdus[0].SerialNotify? || b.pdus[0].CacheReset? || b.pdus[0].ErrorReport?))
        || IsDataBlock(b.pdus))
    && (version < 2 ==> forall p | p in b.pdus :: !p.Aspa?)
  }

  predicate IsError(b: Block) {
    |b.pdus| == 1 && b.pdus[0].ErrorReport?
  }

  predicate IsNotify(b: Block) {
    |b.pdus| == 1 && b.pdus[0].SerialNotify?
  }

  /**
   * Well-formed blocks, of which the notifications are those not sent by the handler. Only notifications follow an
   * Error Report, so there is at most one, and it is the handler's last block.
   */
  ghost predicate GoodTrace(version: uint8, bs: seq<Block>) {
    && (forall b | b in bs :: Legal(version, b))
    && (forall i, j | 0 <= i < j < |bs| && IsError(bs[i]) :: IsNotify(bs[j]))
  }

  ghost predicate Legal(version: uint8, b: Block) {
    WellFormed(version, b) && (b.byHandler <==> !IsNotify(b))
  }

  ghost predicate Reported(bs: seq<Block>) {
    exists b | b in bs :: IsError(b)
  }

  /** Serial Notify blocks, which other threads send. */
  ghost predicate AllNotify(bs: seq<Block>) {
    forall b | b in bs :: IsNotify(b) && !b.byHandler
  }

  /** The handler's own blocks, in order. */
  function FromHandler(bs: seq<Block>): seq<Block> {
    if bs == [] then []
    else
      var front, b := FromHandler(bs[..|bs| - 1]), bs[|bs| - 1];
      if b.byHandler then front + [b] else front
  }

  lemma TraceGrows(version: uint8, bs: seq<Block>, b: Block)
    requires GoodTrace(version, bs) && Legal(version, b) && (b.byHandler ==> !Reported(bs))
    ensures GoodTrace(version, bs + [b])
    ensures Reported(bs + [b]) <==> Reported(bs) || IsError(b)
    ensures FromHandler(bs + [b]) == FromHandler(bs) + if b.byHandler then [b] else []
  {
    hide WellFormed;
    var bs' := bs + [b];
    assert bs'[..|bs|] == bs && bs'[|bs|] == b;
    forall i, j | 0 <= i < j < |bs'| && IsError(bs'[i]) ensures IsNotify(bs'[j]) {
      assert bs'[i] == bs[i];
      assert bs[i] in bs;
      if j < |bs| {
        assert bs'[j] == bs[j];
      }
    }
    if Reported(bs) {
      var x :| x in bs && IsError(x);
      assert x in bs';
    }
  }

  lemma {:induction false} NoiseIsHarmless(bs: seq<Block>, noise: seq<Block>)
    requires AllNotify(noise)
    ensures Reported(bs + noise) <==> Reported(bs)
    ensures FromHandler(bs + noise) == FromHandler(bs)
  {
    if noise == [] {
      assert bs + noise == bs;
    } else {
      var front, b := noise[..|noise| - 1], noise[|noise| - 1];
      NoiseIsHarmless(bs, front);
      assert bs + noise == (bs + front) + [b];
      assert (bs + noise)[..|bs + noise| - 1] == bs + front;
      assert b in noise;
      if Reported(bs + front) {
        var x :| x in bs + front && IsError(x);
        assert x in bs + noise;
      }
    }
  }

  function WireBytes(bs: seq<Block>): Bytes {
    if bs == [] then [] else WireBytes(bs[..|bs| - 1]) + EncodeAll(bs[|bs| - 1].pdus)
  }

  lemma {:induction false} RoaPayload(version: uint8, flags: uint8, s: seq<Roa>)
    ensures forall p | p in RoaPdus(version, flags, s) :: IsPayload(p) && !p.Aspa?
  {
    if s != [] {
      RoaPayload(version, flags, s[..|s| - 1]);
    }
  }

  lemma {:induction false} AspaPayload(version: uint8, flags: uint8, s: seq<Aspa>)
    ensures forall p | p in AspaPdus(version, flags, s) :: IsPayload(p)
  {
    if s != [] {
      AspaPayload(version, flags, s[..|s| - 1]);
    }
  }

  lemma DataBlockIsWellFormed(version: uint8, session: uint16, serial: uint32, payload: seq<Pdu>)
    requires forall p | p in payload :: IsPayload(p) && (version < 2 ==> !p.Aspa?)
    ensures WellFormed(version, Block(true, DataBlock(version, session, serial, payload)))
  {
    var ps := DataBlock(version, session, serial, payload);
    forall i | 0 < i < |ps| - 1 ensures ps[i] in payload {
      assert ps[i] == payload[i - 1];
    }
  }

  lemma DiffBlockIsWellFormed(version: uint8, session: uint16, serial: uint32, p: Reply)
    ensures WellFormed(version, Block(true, DataBlock(version, session, serial, DiffPayload(version, p))))
  {
    RoaPayload(version, ANNOUNCE, p.add);
    RoaPayload(version, WITHDRAW, p.del);
    AspaPayload(version, ANNOUNCE, p.addAspa);
    AspaPayload(version, WITHDRAW, p.delAspa);
    DataBlockIsWellFormed(version, session, serial, DiffPayload(version, p));
  }

  lemma FullBlockIsWellFormed(version: uint8, session: uint16, serial: uint32, roas: seq<Roa>, aspas: seq<Aspa>)
    ensures WellFormed(version, Block(true, DataBlock(version, session, serial, FullPayload(version, roas, aspas))))
  {
    RoaPayload(version, ANNOUNCE, roas);
    AspaPayload(version, ANNOUNCE, aspas);
    DataBlockIsWellFormed(version, session, serial, FullPayload(version, roas, aspas));
  }

  function Ascii(s: string): Bytes {
    seq(|s|, i requires 0 <= i < |s| => s[i] as int % 0x100)
  }

  // ---------------------------------------------------------------- what other threads do

  /**
   * One step of another thread.
   *   Refresh  the cache is refreshed
   *   Check    a `notify` finds the connection open, builds its PDU and starts to wait for the write lock
   *   Write    the `i`-th waiting `notify` gets the lock and writes
   *   Stop     the server closes the connection
   */
  datatype Act = Refresh(f: Fetch) | Check | Write(i: nat) | Stop

  /**
   * The steps that fall while the handler waits for input, between the two reads of a Serial Query, before the handler
   * gets the write lock, and between the Error Report and the closing of the connection; and how many bytes the reader
   * had buffered, should it find the connection closed.
   */
  datatype Moment = Moment(before: seq<Act>, between: seq<Act>, locking: seq<Act>, closing: seq<Act>, buffered: nat)

  function At(schedule: seq<Moment>, i: nat): Moment {
    if i < |schedule| then schedule[i] else Moment([], [], [], [], 0)
  }

  /** The refreshes among `acts`, in order, take the cache from `c` to `c'`; nothing else changes it. */
  ghost predicate Follows(acts: seq<Act>, c: CacheState, c': CacheState) {
    if acts == [] then c' == c
    else
      var front, a := acts[..|acts| - 1], acts[|acts| - 1];
      if a.Refresh? then exists mid :: Follows(front, c, mid) && RefreshStep(a.f, mid, c') else Follows(front, c, c')
  }

  lemma FollowsNext(acts: seq<Act>, i: nat, c: CacheState, mid: CacheState, c': CacheState)
    requires i < |acts| && Follows(acts[..i], c, mid)
    requires if acts[i].Refresh? then RefreshStep(acts[i].f, mid, c') else c' == mid
    ensures Follows(acts[..i + 1], c, c')
  {
    hide RefreshStep;
    assert acts[..i + 1][..i] == acts[..i];
  }

  predicate NoStop(acts: seq<Act>) {
    forall a | a in acts :: !a.Stop?
  }

  lemma NoStopNext(acts: seq<Act>, i: nat)
    requires i < |acts|
    ensures NoStop(acts[..i + 1]) <==> NoStop(acts[..i]) && !acts[i].Stop?
  {
    assert acts[..i + 1] == acts[..i] + [acts[i]];
  }

  /** The server does not close the connection. */
  predicate Calm(m: Moment) {
    NoStop(m.before) && NoStop(m.between) && NoStop(m.locking)
  }

  predicate AllCalm(schedule: seq<Moment>) {
    forall m | m in schedule :: Calm(m)
  }

  lemma CalmAt(schedule: seq<Moment>, i: nat)
    requires AllCalm(schedule)
    ensures Calm(At(schedule, i))
  {
  }

  /** A `notify` that has passed its test gets the lock before the server closes the connection. */
  predicate GetsLock(acts: seq<Act>, waiting: nat) {
    acts != [] &&
    match acts[0]
    case Stop => false
    case Check => GetsLock(acts[1..], waiting + 1)
    case Write(i) => i < waiting || GetsLock(acts[1..], waiting)
    case Refresh(_) => GetsLock(acts[1..], waiting)
  }

  lemma LockStep(acts: seq<Act>, i: nat, waiting: nat)
    requires i < |acts|
    ensures GetsLock(acts[i..], waiting) <==>
      match acts[i]
      case Stop => false
      case Check => GetsLock(acts[i + 1..], waiting + 1)
      case Write(k) => k < waiting || GetsLock(acts[i + 1..], waiting)
      case Refresh(_) => GetsLock(acts[i + 1..], waiting)
  {
    assert acts[i..][0] == acts[i] && acts[i..][1..] == acts[i + 1..];
  }

  lemma NoLockLeft(acts: seq<Act>, waiting: nat)
    ensures !GetsLock(acts[|acts|..], waiting)
  {
  }

  predicate Quiet(acts: seq<Act>) {
    forall a | a in acts :: !a.Write?
  }

  lemma {:induction false} QuietGetsNoLock(acts: seq<Act>, waiting: nat)
    requires Quiet(acts)
    ensures !GetsLock(acts, waiting)
    decreases |acts|
  {
    if acts != [] {
      assert acts[0] in acts;
      assert forall a | a in acts[1..] :: a in acts;
      QuietGetsNoLock(acts[1..], waiting);
      QuietGetsNoLock(acts[1..], waiting + 1);
    }
  }

  /** What a connection that fails after `limit` bytes carries of `b`. */
  function Carried(b: Bytes, limit: nat): Bytes {
    if |b| <= limit then b else b[..limit]
  }

  /** The trace ends with the handler's Error Report for `why`, and then the notifications `late`. */
  ghost predicate EndsWith(blocks: seq<Block>, version: uint8, why: Ending, late: seq<Block>) {
    && |late| < |blocks| && AllNotify(late)
    && blocks[|blocks| - |late|..] == late
    && blocks[|blocks| - |late| - 1] == Block(true, [ErrorPdu(version, why)])
  }

  lemma WireGrows(bs: seq<Block>, bs': seq<Block>)
    requires bs <= bs'
    ensures |WireBytes(bs)| <= |WireBytes(bs')|
    decreases |bs'|
  {
    if bs != bs' {
      assert bs <= bs'[..|bs'| - 1];
      WireGrows(bs, bs'[..|bs'| - 1]);
    }
  }

  // ---------------------------------------------------------------- what a session does, as a function of its input

  function EndOf(e: ReadError): Ending {
    if e.Eof? || e.NetFailed? then Disconnected else ReadFailed
  }

  /** How many of `ps` come before the first that has another version. */
  function Matching(version: uint8, ps: seq<Pdu>): (k: nat)
    ensures k <= |ps| && (k < |ps| ==> ps[k].version != version)
    ensures forall i | 0 <= i < k :: ps[i].version == version
  {
    if ps == [] || ps[0].version != version then 0 else 1 + Matching(version, ps[1..])
  }

  /** How one turn of the main loop ends on `input`, if it ends the session. */
  function TurnEnd(version: uint8, input: Bytes, fails: bool): Option<Ending> {
    match GetPdu(input).result
    case Err(e) => Some(EndOf(Seen(fails, e)))
    case Ok(p) => if p.version != version then Some(VersionMismatch) else None
  }

  /** How a session on `input` ends, and how many PDUs it answers before. */
  function SessionEnd(input: Bytes, fails: bool): (Ending, nat) {
    match Negotiate(input)
    case None => (NegotiationFailed, 0)
    case Some(version) =>
      var h := ReadAll(input);
      var k := Matching(version, h.pdus);
      if h.pdus == [] then (FirstReadFailed, 0)
      else if k < |h.pdus| then (VersionMismatch, k)
      else (EndOf(Seen(fails, h.end)), k)
  }

  /** What the reads of one query saw: two states of the cache with their traces, and the diffs from the second. */
  datatype BothReads = BothReads(
    first: CacheState, before: seq<Version>, second: CacheState, after: seq<Version>, reply: Reply)

  function OneRead(c: CacheState, vs: seq<Version>): BothReads {
    BothReads(c, vs, c, vs, Reply([], [], [], []))
  }

  predicate IsQuery(p: Pdu) {
    p.ResetQuery? || p.SerialQuery?
  }

  predicate AllQueries(ps: seq<Pdu>) {
    forall p | p in ps :: IsQuery(p)
  }

  /** The reads for `p` are reads of a tracked cache, the second not before the first, and the diffs are right. */
  ghost predicate LookOk(p: Pdu, look: BothReads) {
    && Tracks(look.first, look.before) && Tracks(look.second, look.after) && look.before <= look.after
    && (p.SerialQuery? && Asked(look.second, look.first, p.session, p.serial) ==>
          IsReply(Since(look.second, p.serial), look.reply))
  }

  /** The block that answers `p` after these reads; only queries get one. */
  ghost function AnswerTo(version: uint8, p: Pdu, look: BothReads): seq<Block> {
    var c := look.first;
    if p.ResetQuery? then
      [Block(true, DataBlock(version, c.session, c.serial, FullPayload(version, c.roas, c.aspas)))]
    else if p.SerialQuery? then
      [Block(true, SerialAnswer(version, c, look.second, p.session, p.serial, look.reply))]
    else []
  }

  ghost function AnswersTo(version: uint8, ps: seq<Pdu>, looks: seq<BothReads>): seq<Block>
    requires |ps| == |looks|
  {
    if ps == [] then []
    else var n := |ps| - 1; AnswersTo(version, ps[..n], looks[..n]) + AnswerTo(version, ps[n], looks[n])
  }

  /** The reads for `ps` follow one another, on a cache whose trace grows from `start` to `now`. */
  ghost predicate Orderly(ps: seq<Pdu>, looks: seq<BothReads>, start: seq<Version>, now: seq<Version>)
    requires |ps| == |looks|
  {
    if ps == [] then start <= now
    else
      var n := |ps| - 1;
      Orderly(ps[..n], looks[..n], start, looks[n].before) && LookOk(ps[n], looks[n]) && looks[n].after <= now
  }

  lemma OrderlyGrows(ps: seq<Pdu>, looks: seq<BothReads>, start: seq<Version>, now: seq<Version>, later: seq<Version>)
    requires |ps| == |looks| && Orderly(ps, looks, start, now) && now <= later
    ensures Orderly(ps, looks, start, later)
  {
  }

  /** One more PDU dispatched. */
  lemma OneMoreAnswer(version: uint8, ps: seq<Pdu>, looks: seq<BothReads>, p: Pdu, look: BothReads,
                      start: seq<Version>, now: seq<Version>)
    requires |ps| == |looks| && Orderly(ps, looks, start, look.before) && LookOk(p, look) && look.after <= now
    ensures Orderly(ps + [p], looks + [look], start, now)
    ensures AnswersTo(version, ps + [p], looks + [look]) == AnswersTo(version, ps, looks) + AnswerTo(version, p, look)
  {
    hide LookOk, AnswerTo;
    assert (ps + [p])[..|ps|] == ps && (looks + [look])[..|looks|] == looks;
  }

  /**
   * How far a session has come: `ps` were read from `consumed`, the front of `all`, and dispatched after the reads
   * `looks`; `start` is the trace of the cache at the beginning.
   */
  datatype Story = Story(all: Bytes, consumed: Bytes, ps: seq<Pdu>, looks: seq<BothReads>, start: seq<Version>)

  /** The input that is left is what follows `consumed`, or a front part of it once the connection was closed. */
  ghost predicate InputTold(st: Story, version: uint8, rest: Bytes, cut: bool) {
    && Frames(st.consumed, st.ps) && (forall p | p in st.ps :: p.version == version)
    && st.consumed + rest <= st.all && (!cut ==> st.consumed + rest == st.all)
  }

  /** The handler's own blocks are the first of the answers, and all of them while the connection works. */
  ghost predicate OutputTold(st: Story, version: uint8, own: seq<Block>, works: bool, now: seq<Version>) {
    && |st.looks| == |st.ps| && Orderly(st.ps, st.looks, st.start, now)
    && own <= AnswersTo(version, st.ps, st.looks)
    && (works ==> own == AnswersTo(version, st.ps, st.looks))
  }

  /** A whole session, told from its input `heard`: how it ended and what the handler sent. */
  ghost predicate Tells(heard: Bytes, fails: bool, version: uint8, ending: Ending, served: nat, looks: seq<BothReads>,
                        start: seq<Version>, now: seq<Version>, own: seq<Block>, live: bool)
  {
    var ps := ReadAll(heard).pdus;
    && (ending, served) == SessionEnd(heard, fails)
    && version == (match Negotiate(heard) case Some(v) => v case None => 0)
    && served == |looks| <= |ps| && Orderly(ps[..served], looks, start, now)
    && var answers := AnswersTo(version, ps[..served], looks);
    if live then own == answers + (if ending.Disconnected? then [] else [Block(true, [ErrorPdu(version, ending)])])
    else own <= answers
  }

  // ---------------------------------------------------------------- the client

  class Client {
    var version: uint8
    var closed: bool
    /** The connection fails once it has carried this many bytes. */
    const limit: nat
    /** The buffered writer: bytes on the wire, bytes waiting, and its sticky error. */
    var sent: Bytes
    var pending: Bytes
    var broken: bool
    /** The PDUs of those `notify` calls that found the connection open and wait for the write lock. */
    var waiting: seq<Pdu>
    /** The blocks begun while the connection still worked. */
    ghost var blocks: seq<Block>

    ghost predicate Works()
      reads this
    {
      !closed && !broken
    }

    /** The connection could carry every block begun. */
    ghost predicate Whole()
      reads this
    {
      |WireBytes(blocks)| <= limit
    }

    /** What is on the wire is what the connection could carry of whole blocks in a good trace. */
    ghost predicate Valid()
      reads this
    {
      && sent == Carried(WireBytes(blocks), limit)
      && (!closed ==> (broken <==> !Whole()))
      && (Works() ==> pending == [])
      && GoodTrace(version, blocks)
      && forall p | p in waiting :: p.SerialNotify?
    }

    constructor (limit: nat)
      ensures Valid() && version == 0 && Works() && blocks == [] && waiting == [] && this.limit == limit
    {
      version, closed, sent, pending, broken, blocks := 0, false, [], [], false, [];
      waiting := [];
      this.limit := limit;
    }

    /** `bufio.Writer.Flush`. */
    method Flush() returns (ok: bool)
      requires Works() ==> |sent| <= limit
      modifies this`sent, this`pending, this`broken
      ensures ok <==> !broken
      ensures old(broken) ==> broken
      ensures old(broken) || closed ==> sent == old(sent)
      ensures old(Works()) ==> sent == Carried(old(sent + pending), limit)
      ensures old(Works()) ==> (broken <==> |old(sent + pending)| > limit)
      ensures !broken ==> pending == []
    {
      if !broken && pending != [] {
        var all := sent + pending;
        if closed {
          broken := true;
        } else if |all| > limit {
          sent, broken := all[..limit], true;
        } else {
          sent, pending := all, [];
        }
      } else {
        assert pending == [] ==> sent + pending == sent;
      }
      return !broken;
    }

    /** `bufio.Writer.Write`: keeps the bytes, and flushes early when its buffer is full. */
    method BufWrite(b: Bytes) returns (ok: bool)
      requires Works() ==> |sent| <= limit
      modifies this`sent, this`pending, this`broken
      ensures ok <==> !broken
      ensures old(broken) ==> broken
      ensures old(broken) || closed ==> sent == old(sent)
      ensures old(Works()) && !broken ==> sent + pending == old(sent + pending) + b && |sent| <= limit
      ensures old(Works()) && broken ==>
        |old(sent + pending) + b| > limit && sent == (old(sent + pending) + b)[..limit]
    {
      if broken {
        return false;
      }
      assert sent + (pending + b) == sent + pending + b;
      pending := pending + b;
      var full: bool := *;
      ok := true;
      if full {
        ok := Flush();
        assert !broken ==> sent + pending == sent;
      }
    }

    /** The write loop of a block, one PDU's bytes at a time: on the first failure it stops. */
    method EmitChunks(chunks: seq<Bytes>) returns (ok: bool)
      requires Works() ==> pending == [] && |sent| <= limit
      modifies this`sent, this`pending, this`broken
      ensures ok <==> !broken
      ensures old(broken) ==> broken
      ensures old(broken) || closed ==> sent == old(sent)
      ensures old(Works()) ==>
        var all := old(sent) + Joined(chunks);
        sent == Carried(all, limit) && (broken <==> |all| > limit) && (!broken ==> pending == [])
    {
      ghost var start := sent;
      ghost var done := start;
      assert start + Joined(chunks[..0]) == start;
      var i := 0;
      ok := !broken;
      while ok && i < |chunks|
        invariant 0 <= i <= |chunks|
        invariant done == start + Joined(chunks[..i]) && done <= start + Joined(chunks)
        invariant ok <==> !broken
        invariant old(broken) ==> broken
        invariant old(broken) || closed ==> sent == old(sent)
        invariant old(Works()) && !broken ==> sent + pending == done && |sent| <= limit
        invariant old(Works()) && broken ==> |done| > limit && sent == done[..limit]
      {
        StepJoined(start, chunks, i);
        ok := BufWrite(chunks[i]);
        done := done + chunks[i];
        i := i + 1;
      }
      assert chunks[..|chunks|] == chunks;
      if ok {
        ok := Flush();
      }
    }

    /**
     * Writes one block under the write lock and flushes it. The block joins the trace if the connection still worked
     * when it began; otherwise nothing of it reaches the wire.
     */
    method Emit(byHandler: bool, pdus: seq<Pdu>) returns (ok: bool)
      requires Valid() && Legal(version, Block(byHandler, pdus)) && (byHandler ==> !Reported(blocks))
      modifies this`sent, this`pending, this`broken, this`blocks
      ensures Valid()
      ensures ok <==> !broken
      ensures old(broken) ==> broken
      ensures blocks == if old(Works()) then old(blocks) + [Block(byHandler, pdus)] else old(blocks)
      ensures old(Works()) && Whole() ==> Works()
    {
      hide Encoded, Joined, EncodeAll, WireBytes, GoodTrace, Legal, Reported;
      ok := EmitChunks(Encoded(pdus));
      JoinedIsEncoded(pdus);
      if old(Works()) {
        blocks := blocks + [Block(byHandler, pdus)];
        WireOfAppend(old(blocks), Block(byHandler, pdus));
        TraceGrows(version, old(blocks), Block(byHandler, pdus));
      }
    }

    // -------------------------------------------------------------- notifications

    /** The first half of `notify`: an open connection gets one more PDU waiting for the write lock. */
    method StartNotify(session: uint16, serial: uint32)
      requires Valid()
      modifies this`waiting
      ensures Valid()
      ensures waiting == if closed then old(waiting) else old(waiting) + [SerialNotify(version, session, serial)]
    {
      if closed {
        return;
      }
      waiting := waiting + [SerialNotify(version, session, serial)];
    }

    /** The second half, once the lock is there: it writes without looking at `closed` again. */
    method FinishNotify(i: nat)
      requires Valid() && i < |waiting|
      modifies this
      ensures Valid() && version == old(version) && (old(closed) ==> closed) && (old(broken) ==> broken)
      ensures waiting == old(waiting[..i] + waiting[i + 1..])
      ensures blocks == if old(Works()) then old(blocks) + [Block(false, [old(waiting[i])])] else old(blocks)
      ensures closed <==> old(closed || broken) || !Whole()
      ensures old(Works()) && Whole() ==> Works()
    {
      hide GoodTrace, WireBytes, Legal;
      var p := waiting[i];
      assert p in waiting;
      waiting := waiting[..i] + waiting[i + 1..];
      NotifyIsLegal(version, p);
      var ok := Emit(false, [p]);
      if !ok {
        closed := true;
      }
    }

    /** One step of another thread, and the notification it put on the wire, if any. */
    method Other(cache: Cache, act: Act) returns (ghost noise: seq<Block>)
      requires Valid() && cache.Valid()
      modifies this, cache
      ensures Valid() && cache.Valid() && version == old(version) && old(cache.versions) <= cache.versions
      ensures old(closed) ==> closed
      ensures if act.Refresh? then RefreshStep(act.f, old(cache.State()), cache.State())
              else cache.State() == old(cache.State())
      ensures blocks == old(blocks) + noise && AllNotify(noise) && |noise| <= 1
      ensures noise != [] <==> old(Works()) && act.Write? && act.i < |old(waiting)|
      ensures noise != [] ==> noise == [Block(false, [old(waiting)[act.i]])]
      ensures act.Check? && !old(closed) ==>
        waiting == old(waiting) + [SerialNotify(version, cache.session, old(cache.serial))]
      ensures noise == [] && old(Works()) ==> |waiting| == |old(waiting)| + if act.Check? then 1 else 0
      ensures noise == [] && old(Works()) ==> (Works() <==> !act.Stop?)
      ensures !old(Works()) ==> !Works()
      ensures old(Works()) && !act.Stop? && Whole() ==> Works()
    {
      hide RefreshStep, Tracks, GoodTrace, WireBytes;
      noise := [];
      match act {
        case Refresh(f) =>
          var ok, nr, na := cache.TriggerRefresh(f);
        case Check =>
          StartNotify(cache.session, cache.serial);
        case Write(i) =>
          if i < |waiting| {
            noise := if Works() then [Block(false, [waiting[i]])] else [];
            FinishNotify(i);
          }
        case Stop =>
          closed := true;
      }
      assert blocks == old(blocks) + noise;
    }

    /** Any steps of other threads. They add only notifications: some iff a waiting `notify` gets the lock in time. */
    method Interfere(cache: Cache, acts: seq<Act>) returns (ghost noise: seq<Block>)
      requires Valid() && cache.Valid()
      modifies this, cache
      ensures Valid() && cache.Valid() && version == old(version) && old(cache.versions) <= cache.versions
      ensures old(closed) ==> closed
      ensures Follows(acts, old(cache.State()), cache.State())
      ensures blocks == old(blocks) + noise && AllNotify(noise) && |noise| <= |acts|
      ensures noise != [] <==> old(Works()) && GetsLock(acts, |old(waiting)|)
      ensures !old(Works()) ==> !Works()
      ensures old(Works()) && NoStop(acts) && Whole() ==> Works()
      ensures acts == [] ==> Works() == old(Works()) && cache.State() == old(cache.State())
    {
      hide RefreshStep, Valid, Tracks, GetsLock, AllNotify, NoStop, WireBytes;
      noise := [];
      assert acts[0..] == acts;
      assert Follows(acts[..0], cache.State(), cache.State());
      assert AllNotify([]) by { MoreNoise([], [], []); }
      for i := 0 to |acts|
        invariant Valid() && cache.Valid() && version == old(version) && old(cache.versions) <= cache.versions
        invariant old(closed) ==> closed
        invariant Follows(acts[..i], old(cache.State()), cache.State())
        invariant blocks == old(blocks) + noise && AllNotify(noise) && |noise| <= i
        invariant noise == [] ==>
          (old(Works()) && GetsLock(acts, |old(waiting)|) <==> Works() && GetsLock(acts[i..], |waiting|))
        invariant noise != [] ==> old(Works()) && GetsLock(acts, |old(waiting)|)
        invariant !old(Works()) ==> !Works()
        invariant old(Works()) && NoStop(acts[..i]) && Whole() ==> Works()
        invariant i == 0 ==> Works() == old(Works()) && cache.State() == old(cache.State())
      {
        LockStep(acts, i, |waiting|);
        NoStopNext(acts, i);
        ghost var before := blocks;
        ghost var mid := cache.State();
        ghost var more := Other(cache, acts[i]);
        WireGrows(before, blocks);
        FollowsNext(acts, i, old(cache.State()), mid, cache.State());
        MoreNoise(old(blocks), noise, more);
        noise := noise + more;
      }
      NoLockLeft(acts, |waiting|);
      assert acts[..|acts|] == acts;
    }

    // -------------------------------------------------------------- the handler's blocks

    /**
     * `sendAndCloseError`: one Error Report under the lock, then, after whatever `closing` does without the lock, the
     * connection is closed. The report is the last block on the wire if and only if no `notify` that had passed its
     * test gets the lock in between while the connection still carries bytes.
     */
    method SendAndCloseError(cache: Cache, why: Ending, closing: seq<Act>) returns (ghost late: seq<Block>)
      requires Valid() && cache.Valid() && !Reported(blocks)
      modifies this, cache
      ensures Valid() && cache.Valid() && closed && version == old(version)
      ensures old(cache.versions) <= cache.versions && old(blocks) <= blocks
      ensures !old(Works()) ==> blocks == old(blocks) && late == []
      ensures old(Works()) ==>
        && blocks == old(blocks) + [Block(true, [ErrorPdu(version, why)])] + late
        && EndsWith(blocks, version, why, late) && |late| <= |closing|
        && (late != [] <==>
              && |WireBytes(old(blocks) + [Block(true, [ErrorPdu(version, why)])])| <= limit
              && GetsLock(closing, |old(waiting)|))
    {
      hide RefreshStep, Follows, Tracks, GoodTrace, WireBytes, GetsLock, Reported, ErrorPdu;
      ReportIsLegal(version, why);
      var ok := Emit(true, [ErrorPdu(version, why)]);
      late := Interfere(cache, closing);
      closed := true;
    }

    /** A report once the handler has got the lock; `live` says whether the connection worked then. */
    method Report(cache: Cache, why: Ending, m: Moment) returns (ghost live: bool, ghost late: seq<Block>)
      requires Valid() && cache.Valid() && !Reported(blocks)
      modifies this, cache
      ensures Valid() && cache.Valid() && closed && version == old(version) && old(cache.versions) <= cache.versions
      ensures old(blocks) <= blocks
      ensures live ==> old(Works()) && EndsWith(blocks, version, why, late)
      ensures !live ==> !Reported(blocks) && late == []
      ensures FromHandler(blocks) ==
        FromHandler(old(blocks)) + if live then [Block(true, [ErrorPdu(version, why)])] else []
      ensures m.locking == [] ==> live == old(Works())
      ensures old(Works()) && NoStop(m.locking) && Whole() ==> live
      ensures Quiet(m.closing) ==> late == []
    {
      hide RefreshStep, Follows, Valid, Tracks, GoodTrace, WireBytes, GetsLock, Reported, ErrorPdu, Quiet, FromHandler, NoStop;
      ghost var noise := Interfere(cache, m.locking);
      NoiseIsHarmless(old(blocks), noise);
      live := Works();
      ghost var before := blocks;
      if Quiet(m.closing) {
        QuietGetsNoLock(m.closing, |waiting|);
      }
      late := SendAndCloseError(cache, why, m.closing);
      if live {
        ReportJoins(before, Block(true, [ErrorPdu(version, why)]), late);
      }
      WireGrows(before, blocks);
    }

    /** `sendAllData` and `sendDiffs`: a data block; a failed write closes the connection. */
    method SendData(pdus: seq<Pdu>)
      requires Valid() && IsDataBlock(pdus) && WellFormed(version, Block(true, pdus)) && !Reported(blocks)
      modifies this
      ensures Valid() && version == old(version) && (old(closed) ==> closed)
      ensures blocks == if old(Works()) then old(blocks) + [Block(true, pdus)] else old(blocks)
      ensures !old(Works()) ==> !Works()
      ensures old(Works()) ==> (closed <==> !Whole())
      ensures old(broken) ==> closed
      ensures old(Works()) && Whole() ==> Works()
    {
      hide GoodTrace, WireBytes, Reported;
      var ok := Emit(true, pdus);
      if !ok {
        closed := true;
      }
    }

    /** `sendCacheReset`: a failed write is only logged. */
    method SendCacheReset()
      requires Valid() && !Reported(blocks)
      modifies this`sent, this`pending, this`broken, this`blocks
      ensures Valid()
      ensures blocks == if old(Works()) then old(blocks) + [Block(true, [CacheReset(version)])] else old(blocks)
      ensures !old(Works()) ==> !Works()
      ensures old(Works()) && Whole() ==> Works()
    {
      hide GoodTrace, WireBytes, Reported;
      ResetIsLegal(version);
      var ok := Emit(true, [CacheReset(version)]);
    }

    /** Waits for the write lock and sends the answer to a query, a data block or a Cache Reset. */
    method Answer(cache: Cache, answer: Option<seq<Pdu>>, locking: seq<Act>) returns (ghost live: bool)
      requires Valid() && cache.Valid() && !Reported(blocks)
      requires answer.Some? ==> IsDataBlock(answer.value) && WellFormed(version, Block(true, answer.value))
      modifies this, cache
      ensures Valid() && cache.Valid() && version == old(version) && (old(closed) ==> closed) && !Reported(blocks)
      ensures old(cache.versions) <= cache.versions && old(blocks) <= blocks
      ensures Follows(locking, old(cache.State()), cache.State())
      ensures live ==> old(Works())
      ensures !live ==> !Works()
      ensures locking == [] ==> live == old(Works())
      ensures old(Works()) && NoStop(locking) && Whole() ==> live && Works()
      ensures FromHandler(blocks) == FromHandler(old(blocks)) +
        if live then [Block(true, match answer case Some(pdus) => pdus case None => [CacheReset(version)])] else []
    {
      hide RefreshStep, Follows, Valid, Tracks, GoodTrace, WireBytes, GetsLock, Reported, FromHandler, WellFormed, NoStop;
      ghost var noise := Interfere(cache, locking);
      NoiseIsHarmless(old(blocks), noise);
      live := Works();
      ghost var before := blocks;
      if answer.Some? {
        SendData(answer.value);
        AnswerJoins(before, answer.value);
      } else {
        SendCacheReset();
        AnswerJoins(before, [CacheReset(version)]);
      }
      WireGrows(before, blocks);
    }

    /** `handleSerialQuery`: two reads of the cache, with other threads at work between them. */
    method HandleSerialQuery(cache: Cache, session: uint16, serial: uint32, m: Moment)
      returns (ghost look: BothReads, ghost live: bool)
      requires Valid() && cache.Valid() && !Reported(blocks)
      modifies this, cache
      ensures Valid() && cache.Valid() && version == old(version) && (old(closed) ==> closed) && !Reported(blocks)
      ensures old(blocks) <= blocks
      ensures look.first == old(cache.State()) && look.before == old(cache.versions)
      ensures Follows(m.between, look.first, look.second) && Follows(m.locking, look.second, cache.State())
      ensures m.between == [] ==> look.second == look.first
      ensures Tracks(look.second, look.after) && look.before <= look.after <= cache.versions
      ensures Asked(look.second, look.first, session, serial) ==> IsReply(Since(look.second, serial), look.reply)
      ensures live ==> old(Works())
      ensures !live ==> !Works()
      ensures m.between == [] && m.locking == [] ==> live == old(Works())
      ensures old(Works()) && NoStop(m.between) && NoStop(m.locking) && Whole() ==> live && Works()
      ensures var answer := SerialAnswer(version, look.first, look.second, session, serial, look.reply);
        FromHandler(blocks) == FromHandler(old(blocks)) + if live then [Block(true, answer)] else []
    {
      hide RefreshStep, Follows, Valid, Tracks, GoodTrace, WireBytes, GetsLock, Reported, FromHandler, NoStop;
      hide WellFormed, IsDataBlock, IsReply, SerialAnswer, Asked;
      var state := cache.GetState();
      ghost var first, before := cache.State(), cache.versions;
      ghost var noise := Interfere(cache, m.between);
      NoiseIsHarmless(old(blocks), noise);
      ghost var second, after, middle := cache.State(), cache.versions, blocks;
      var answer, p := ReadDiffs(cache, version, first, state, session, serial);
      live := Answer(cache, answer, m.locking);
      WireGrows(middle, blocks);
      look := BothReads(first, before, second, after, p);
    }

    /** A Reset Query: one read of everything. */
    method HandleResetQuery(cache: Cache, m: Moment) returns (ghost live: bool)
      requires Valid() && cache.Valid() && !Reported(blocks)
      modifies this, cache
      ensures Valid() && cache.Valid() && version == old(version) && (old(closed) ==> closed) && !Reported(blocks)
      ensures old(blocks) <= blocks
      ensures old(cache.versions) <= cache.versions
      ensures Follows(m.locking, old(cache.State()), cache.State())
      ensures live ==> old(Works())
      ensures !live ==> !Works()
      ensures m.locking == [] ==> live == old(Works())
      ensures old(Works()) && NoStop(m.locking) && Whole() ==> live && Works()
      ensures var c := old(cache.State());
        var answer := DataBlock(version, c.session, c.serial, FullPayload(version, c.roas, c.aspas));
        FromHandler(blocks) == FromHandler(old(blocks)) + if live then [Block(true, answer)] else []
    {
      hide RefreshStep, Follows, Valid, Tracks, GoodTrace, WireBytes, GetsLock, Reported, FromHandler, FullPayload, NoStop;
      var s := cache.GetState();
      var roas, aspas := s.roas[..s.roasLen], s.aspas[..s.aspasLen];
      FullBlockIsWellFormed(version, s.session, s.serial, roas, aspas);
      var answer := DataBlock(version, s.session, s.serial, FullPayload(version, roas, aspas));
      live := Answer(cache, Some(answer), m.locking);
    }

    /** `dispatchPDU`: an answer to a query, an Error Report for a wrong version, and otherwise a closed connection. */
    method Dispatch(pdu: Pdu, cache: Cache, m: Moment)
      returns (err: bool, ghost look: BothReads, ghost live: bool, ghost late: seq<Block>)
      requires Valid() && cache.Valid() && !Reported(blocks)
      modifies this, cache
      ensures Valid() && cache.Valid() && version == old(version) && (old(closed) ==> closed)
      ensures old(cache.versions) <= cache.versions && old(blocks) <= blocks
      ensures err <==> pdu.version != version
      ensures live ==> old(Works())
      ensures m.between == [] && m.locking == [] ==> live == old(Works())
      ensures old(Works()) && Calm(m) && Whole() ==> live && (!err && IsQuery(pdu) ==> Works())
      ensures err ==> closed && (live ==> EndsWith(blocks, version, VersionMismatch, late))
      ensures Quiet(m.closing) ==> late == []
      ensures !err || !live ==> !Reported(blocks)
      ensures err ==>
        FromHandler(blocks) ==
          FromHandler(old(blocks)) + if live then [Block(true, [ErrorPdu(version, VersionMismatch)])] else []
      ensures !err ==>
        && LookOk(pdu, look) && look.first == old(cache.State())
        && look.before == old(cache.versions) && look.after <= cache.versions
        && (pdu.SerialQuery? ==> Follows(m.between, look.first, look.second))
        && (m.between == [] ==> look.second == look.first)
        && FromHandler(blocks) == FromHandler(old(blocks)) + (if live then AnswerTo(version, pdu, look) else [])
        && (!live ==> !Works())
      ensures !err && !IsQuery(pdu) ==> closed && blocks == old(blocks)
    {
      hide RefreshStep, Follows, Valid, Tracks, GoodTrace, WireBytes, Reported, FromHandler, FullPayload, IsReply, NoStop;
      hide SerialAnswer, Asked, EndsWith, Quiet, ErrorPdu;
      look := OneRead(cache.State(), cache.versions);
      live, late := Works(), [];
      err := version != pdu.version;
      if err {
        live, late := Report(cache, VersionMismatch, m);
        return;
      }
      match pdu {
        case ResetQuery(_) =>
          live := HandleResetQuery(cache, m);
        case SerialQuery(_, session, serial) =>
          look, live := HandleSerialQuery(cache, session, serial, m);
        case _ =>
          Close();
      }
    }

    /** `Close`. */
    method Close()
      requires Valid()
      modifies this`closed
      ensures Valid() && closed
    {
      closed := true;
    }

    // -------------------------------------------------------------- the session

    /**
     * `Handle`, on all the input the client will ever send and any schedule of other threads. `heard` is the part of
     * the input that could still be read, all of it unless the connection was closed on this side before the end. How
     * the session ends, how many PDUs it serves and what the handler sends are functions of `heard` and of the reads
     * `looks` (`Tells`). `live` says whether the connection still worked when the handler came to its end; it must if
     * the server does not close it, only queries were served and every byte could be carried. `late` is what
     * notifications put behind an Error Report.
     */
    method Handle(reader: Reader, cache: Cache, schedule: seq<Moment>)
      returns (ending: Ending, served: nat, ghost heard: Bytes, ghost looks: seq<BothReads>,
               ghost live: bool, ghost late: seq<Block>)
      requires Valid() && cache.Valid() && version == 0 && !Reported(blocks) && FromHandler(blocks) == []
      requires reader.Valid() && !reader.cut
      modifies this, cache, reader
      ensures Valid() && cache.Valid() && closed
      ensures heard <= old(reader.input) && (!reader.cut ==> heard == old(reader.input))
      ensures Tells(heard, old(reader.fails) || reader.cut, version, ending, served, looks,
                    old(cache.versions), cache.versions, FromHandler(blocks), live)
      ensures version in {0, 1, 2} && (version == 0 <==> ending.NegotiationFailed?)
      ensures ending.VersionMismatch? ==> served > 0
      ensures live && !ending.Disconnected? ==> EndsWith(blocks, version, ending, late)
      ensures !live || ending.Disconnected? ==> !Reported(blocks)
      ensures old(Works()) && AllCalm(schedule) && Whole() ==>
        (served <= |ReadAll(heard).pdus| && AllQueries(ReadAll(heard).pdus[..served]) ==> live && !reader.cut)
      ensures (forall m | m in schedule :: Quiet(m.closing)) ==> late == []
    {
      hide Valid, Tracks, GoodTrace, WireBytes, Reported, EndsWith, Quiet, AllCalm, Calm, ReadAll, FromHandler;
      hide Tells, AllQueries, Negotiate, ErrorPdu, SessionEnd;
      if AllCalm(schedule) {
        CalmAt(schedule, 0);
      }
      QuietAt(schedule, 0);
      var end;
      end, live, late := Open(reader, cache, At(schedule, 0));
      if end.Some? {
        served, heard, looks := 0, reader.input, [];
        FailedNegotiation(heard, reader.fails, old(cache.versions), cache.versions, FromHandler(blocks), live);
        EndingAndVersion(heard, reader.fails);
        return end.value, served, heard, looks, live, late;
      }
      ghost var begun := blocks;
      ending, served, heard, looks, live, late :=
        Continue(reader, cache, schedule, old(reader.input), old(cache.versions), old(reader.fails));
      WireGrows(begun, blocks);
      EndingTold(heard, old(reader.fails) || reader.cut, version, ending, served, looks,
                 old(cache.versions), cache.versions, FromHandler(blocks), live);
    }

    /** `Handle` after a negotiation on `all`, the input at the beginning. */
    method Continue(reader: Reader, cache: Cache, schedule: seq<Moment>, ghost all: Bytes, ghost start: seq<Version>,
                    ghost fails: bool)
      returns (ending: Ending, served: nat, ghost heard: Bytes, ghost looks: seq<BothReads>,
               ghost live: bool, ghost late: seq<Block>)
      requires Valid() && cache.Valid() && version > 0 && !Reported(blocks) && FromHandler(blocks) == []
      requires reader.Valid() && (reader.cut ==> closed) && reader.fails == (fails || reader.cut)
      requires Negotiate(reader.input) == Some(version) && reader.peeked > 0 && start <= cache.versions
      requires reader.input <= all && (!reader.cut ==> reader.input == all)
      modifies this, cache, reader
      ensures Valid() && cache.Valid() && version == old(version) && old(blocks) <= blocks
      ensures heard <= all && (!reader.cut ==> heard == all)
      ensures Tells(heard, fails || reader.cut, version, ending, served, looks,
                    start, cache.versions, FromHandler(blocks), live)
      ensures Ended(version, ending, live, late)
      ensures old(Works()) && AllCalm(schedule) && Whole() ==>
        (served <= |ReadAll(heard).pdus| && AllQueries(ReadAll(heard).pdus[..served]) ==> live && !reader.cut)
      ensures (forall m | m in schedule :: Quiet(m.closing)) ==> late == []
    {
      hide Client.Valid, Tracks, GoodTrace, WireBytes, Reported, EndsWith, Quiet, AllCalm, Calm, ReadAll, GetPdu;
      hide Tells, LookOk, AnswerTo, InputTold, OutputTold, Negotiate, AllQueries, ErrorPdu, FromHandler;
      if AllCalm(schedule) {
        CalmAt(schedule, 1);
      }
      QuietAt(schedule, 1);
      var end;
      ghost var look;
      end, heard, look, live, late := ServeFirst(reader, cache, At(schedule, 1));
      if end.Some? {
        served, looks := 0, [];
        FailedFirstRead(heard, reader.fails, version, start, cache.versions, FromHandler(blocks), live);
        return end.value, served, heard, looks, live, late;
      }
      ghost var st := FirstStory(all, heard, look, start);
      FirstInput(all, heard, version, look, start, reader.cut);
      FirstOutput(all, heard, version, look, start, FromHandler(blocks), live, Works(), cache.versions);
      ghost var first := blocks;
      ending, served, heard, looks, live, late := Serve(reader, cache, schedule, st, fails);
      WireGrows(first, blocks);
      FirstOfQueries(st.ps, ReadAll(heard).pdus[..served]);
    }

    /** Other threads while the handler waits for input; on a closed connection only the buffer is left to read. */
    method Wait(reader: Reader, cache: Cache, m: Moment)
      requires Valid() && cache.Valid() && reader.Valid() && (reader.cut ==> closed)
      modifies this, cache, reader
      ensures Valid() && cache.Valid() && reader.Valid() && version == old(version)
      ensures old(cache.versions) <= cache.versions && old(blocks) <= blocks
      ensures (Reported(blocks) <==> Reported(old(blocks))) && FromHandler(blocks) == FromHandler(old(blocks))
      ensures Follows(m.before, old(cache.State()), cache.State())
      ensures !old(Works()) ==> !Works()
      ensures m.before == [] ==> Works() == old(Works())
      ensures old(Works()) && NoStop(m.before) && Whole() ==> Works()
      ensures (reader.cut <==> closed) && (old(reader.cut) ==> reader.cut) && reader.peeked == old(reader.peeked)
      ensures reader.fails == (old(reader.fails) || reader.cut)
      ensures reader.input <= old(reader.input) && (!reader.cut ==> reader.input == old(reader.input))
    {
      hide RefreshStep, Follows, Client.Valid, Tracks, GoodTrace, WireBytes, GetsLock, Reported, FromHandler, NoStop;
      ghost var noise := Interfere(cache, m.before);
      NoiseIsHarmless(old(blocks), noise);
      if closed {
        reader.Cut(m.buffered);
      }
    }

    /** The handler has come to its end: the connection is closed, and the report for `why` is there iff it was due. */
    ghost predicate Ended(version: uint8, why: Ending, live: bool, late: seq<Block>)
      reads this
    {
      && closed
      && (live && !why.Disconnected? ==> EndsWith(blocks, version, why, late))
      && (!live || why.Disconnected? ==> !Reported(blocks))
    }

    /** Step 1 of `Handle`: version negotiation, which consumes nothing. */
    method Open(reader: Reader, cache: Cache, m: Moment)
      returns (end: Option<Ending>, ghost live: bool, ghost late: seq<Block>)
      requires Valid() && cache.Valid() && version == 0 && !Reported(blocks)
      requires reader.Valid() && !reader.cut
      modifies this, cache, reader
      ensures Valid() && cache.Valid() && reader.Valid() && (reader.cut ==> closed)
      ensures old(cache.versions) <= cache.versions
      ensures reader.input <= old(reader.input) && (!reader.cut ==> reader.input == old(reader.input))
      ensures reader.fails == (old(reader.fails) || reader.cut)
      ensures end.None? ==> Negotiate(reader.input) == Some(version) && reader.peeked > 0 && !Reported(blocks)
      ensures end.None? ==> version in {1, 2}
      ensures end.None? ==> FromHandler(blocks) == FromHandler(old(blocks)) && (Works() ==> old(Works()))
      ensures end.None? && old(Works()) && Calm(m) && Whole() ==> Works()
      ensures end.Some? ==> Negotiate(reader.input).None? && version == 0 && end.value.NegotiationFailed?
      ensures end.Some? ==> Ended(version, end.value, live, late)
      ensures end.Some? ==>
        FromHandler(blocks) ==
          FromHandler(old(blocks)) + if live then [Block(true, [ErrorPdu(0, NegotiationFailed)])] else []
      ensures end.Some? && m.before == [] && m.locking == [] ==> live == old(Works())
      ensures end.Some? && old(Works()) && Calm(m) && Whole() ==> live && !reader.cut
      ensures Quiet(m.closing) ==> late == []
    {
      hide Client.Valid, Tracks, GoodTrace, WireBytes, Reported, EndsWith, Quiet, FromHandler, NoStop, ErrorPdu;
      Wait(reader, cache, m);
      ghost var waited := blocks;
      live, late, end := false, [], None;
      var b := reader.Peek();
      if b.Some? && (b.value == 1 || b.value == 2) {
        SetVersion(b.value);
      } else {
        live, late := Report(cache, NegotiationFailed, m);
        end := Some(NegotiationFailed);
      }
      WireGrows(waited, blocks);
    }

    /** The next PDU was dispatched without an error: what was read, and what the handler sent for it. */
    twostate predicate Dispatched(p: Pdu, look: BothReads, live: bool, m: Moment, cache: Cache, own: seq<Block>)
      reads this, cache
    {
      && LookOk(p, look) && old(cache.versions) <= look.before && look.after <= cache.versions
      && FromHandler(blocks) == own + (if live then AnswerTo(version, p, look) else [])
      && (live ==> old(Works())) && (!live ==> !Works())
      && (old(Works()) && Calm(m) && Whole() && IsQuery(p) ==> Works())
      && !Reported(blocks)
    }

    /** Step 2 of `Handle`: the first PDU, which always has the negotiated version. */
    method ServeFirst(reader: Reader, cache: Cache, m: Moment)
      returns (end: Option<Ending>, ghost ready: Bytes, ghost look: BothReads, ghost live: bool, ghost late: seq<Block>)
      requires Valid() && cache.Valid() && Negotiate(reader.input) == Some(version) && !Reported(blocks)
      requires reader.Valid() && (reader.cut ==> closed) && reader.peeked > 0
      modifies this, cache, reader
      ensures Valid() && cache.Valid() && reader.Valid() && version == old(version) && (reader.cut ==> closed)
      ensures old(cache.versions) <= cache.versions && old(blocks) <= blocks && (old(reader.cut) ==> reader.cut)
      ensures ready <= old(reader.input) && (!reader.cut ==> ready == old(reader.input))
      ensures Negotiate(ready) == Some(version) && reader.input == GetPdu(ready).rest
      ensures reader.fails == (old(reader.fails) || reader.cut)
      ensures end == if GetPdu(ready).result.Err? then Some(FirstReadFailed) else None
      ensures end.None? ==> var p := GetPdu(ready).result.value;
        p.version == version && Dispatched(p, look, live, m, cache, FromHandler(old(blocks)))
      ensures end.Some? ==> Ended(version, end.value, live, late)
      ensures end.Some? ==>
        FromHandler(blocks) ==
          FromHandler(old(blocks)) + if live then [Block(true, [ErrorPdu(version, FirstReadFailed)])] else []
      ensures end.Some? && m.before == [] && m.locking == [] ==> live == old(Works())
      ensures end.Some? && old(Works()) && Calm(m) && Whole() ==> live && !reader.cut
      ensures Quiet(m.closing) ==> late == []
    {
      hide Client.Valid, Tracks, GoodTrace, WireBytes, Reported, EndsWith, Quiet, FromHandler, IsReply, GetPdu, NoStop;
      hide ErrorPdu, LookOk, AnswerTo;
      Wait(reader, cache, m);
      ghost var waited := blocks;
      ready := reader.input;
      look := OneRead(cache.State(), cache.versions);
      assert ready[0] == old(reader.input)[0];
      if GetPdu(ready).result.Ok? {
        FirstPduMatches(ready);
      }
      var first := reader.Get();
      end := None;
      if first.Err? {
        live, late := Report(cache, FirstReadFailed, m);
        end := Some(FirstReadFailed);
      } else {
        var err;
        err, look, live, late := Dispatch(first.value, cache, m);
      }
      WireGrows(waited, blocks);
    }

    /** The session has come as far as `st` tells, and goes on; `fails` is how the input ends by itself. */
    ghost predicate Told(st: Story, reader: Reader, cache: Cache, fails: bool)
      reads this, reader, cache, cache.roas, cache.aspas
    {
      && Valid() && cache.Valid() && reader.Valid() && version > 0 && !Reported(blocks) && st.ps != []
      && (reader.cut ==> closed) && reader.fails == (fails || reader.cut)
      && InputTold(st, version, reader.input, reader.cut) && Negotiate(st.consumed) == Some(version)
      && OutputTold(st, version, FromHandler(blocks), Works(), cache.versions)
    }

    /** The main loop of `Handle`, after the first PDU; `st` tells what has happened so far. */
    method Serve(reader: Reader, cache: Cache, schedule: seq<Moment>, ghost st: Story, ghost fails: bool)
      returns (ending: Ending, served: nat, ghost heard: Bytes, ghost looks: seq<BothReads>,
               ghost live: bool, ghost late: seq<Block>)
      requires Told(st, reader, cache, fails) && |st.ps| == 1
      modifies this, cache, reader
      ensures Valid() && cache.Valid() && version == old(version) && old(blocks) <= blocks
      ensures heard <= st.all && (!reader.cut ==> heard == st.all)
      ensures Tells(heard, fails || reader.cut, version, ending, served, looks,
                    st.start, cache.versions, FromHandler(blocks), live)
      ensures served <= |ReadAll(heard).pdus| && st.ps <= ReadAll(heard).pdus[..served]
      ensures Ended(version, ending, live, late)
      ensures old(Works()) && AllCalm(schedule) && Whole() ==>
        (AllQueries(ReadAll(heard).pdus[..served]) ==> live && !reader.cut)
      ensures (forall m | m in schedule :: Quiet(m.closing)) ==> late == []
    {
      hide Client.Valid, Tracks, GoodTrace, WireBytes, Reported, EndsWith, Quiet, AllCalm, Calm, ReadAll, FromHandler;
      hide Told, Tells, AllQueries, Ended;
      served := 1;
      ghost var now := st;
      while true
        invariant Told(now, reader, cache, fails) && version == old(version) && old(blocks) <= blocks
        invariant served == |now.ps| && st.ps <= now.ps && now.all == st.all && now.start == st.start
        invariant old(Works()) && AllCalm(schedule) && Whole() && AllQueries(now.ps) ==> Works()
        decreases |reader.input|
      {
        if AllCalm(schedule) {
          CalmAt(schedule, served + 1);
        }
        QuietAt(schedule, served + 1);
        ghost var sofar := blocks;
        var end;
        ghost var more;
        end, more, heard, live, late := Turn(reader, cache, At(schedule, served + 1), now, fails);
        WireGrows(sofar, blocks);
        if end.Some? {
          looks := now.looks;
          return end.value, served, heard, looks, live, late;
        }
        now := more;
        served := served + 1;
      }
    }

    /** One turn of the main loop, and how it continues or ends the story. */
    method Turn(reader: Reader, cache: Cache, m: Moment, ghost st: Story, ghost fails: bool)
      returns (end: Option<Ending>, ghost more: Story, ghost heard: Bytes, ghost live: bool, ghost late: seq<Block>)
      requires Told(st, reader, cache, fails)
      modifies this, cache, reader
      ensures Valid() && cache.Valid() && version == old(version) && old(blocks) <= blocks
      ensures end.None? ==>
        && Told(more, reader, cache, fails) && |reader.input| < |old(reader.input)|
        && st.ps <= more.ps && |more.ps| == |st.ps| + 1 && more.all == st.all && more.start == st.start
        && (AllQueries(more.ps) ==> AllQueries(st.ps))
        && (old(Works()) && Calm(m) && Whole() && AllQueries(more.ps) ==> Works())
      ensures end.Some? ==>
        && heard <= st.all && (!reader.cut ==> heard == st.all)
        && |st.ps| <= |ReadAll(heard).pdus| && ReadAll(heard).pdus[..|st.ps|] == st.ps
        && Tells(heard, fails || reader.cut, version, end.value, |st.ps|, st.looks,
                 st.start, cache.versions, FromHandler(blocks), live)
        && Ended(version, end.value, live, late)
        && (old(Works()) && Calm(m) && Whole() ==> live && !reader.cut)
      ensures Quiet(m.closing) ==> late == []
    {
      hide Client.Valid, Tracks, GoodTrace, WireBytes, Reported, EndsWith, Quiet, Calm, ReadAll, GetPdu, ErrorPdu;
      hide Tells, LookOk, AnswerTo, InputTold, OutputTold, Negotiate, AllQueries, FromHandler, TurnEnd, Ended;
      ghost var rest, own, worked, vs, was := reader.input, FromHandler(blocks), Works(), cache.versions, reader.cut;
      ghost var ready, look;
      more := st;
      end, ready, look, live, late := ServeOne(reader, cache, m);
      heard := st.consumed + ready;
      if end.Some? {
        InputToTheEnd(st, version, rest, was, ready, reader.cut, reader.fails, end.value);
        ToldToTheEnd(st, version, ready, reader.fails, end.value, own, worked, vs,
                     FromHandler(blocks), live, cache.versions);
      } else {
        more := Later(st, ready, look);
        InputOn(st, version, rest, was, ready, reader.cut, look);
        OutputOn(st, version, ready, look, own, worked, vs, FromHandler(blocks), live, Works(), cache.versions);
      }
    }

    /** One turn of the main loop: the next PDU, or the end. */
    method ServeOne(reader: Reader, cache: Cache, m: Moment)
      returns (end: Option<Ending>, ghost ready: Bytes, ghost look: BothReads, ghost live: bool, ghost late: seq<Block>)
      requires Valid() && cache.Valid() && reader.Valid() && version > 0 && !Reported(blocks) && (reader.cut ==> closed)
      modifies this, cache, reader
      ensures Valid() && cache.Valid() && reader.Valid() && version == old(version) && (reader.cut ==> closed)
      ensures old(cache.versions) <= cache.versions && old(blocks) <= blocks && (old(reader.cut) ==> reader.cut)
      ensures ready <= old(reader.input) && (!reader.cut ==> ready == old(reader.input))
      ensures reader.input == GetPdu(ready).rest && reader.fails == (old(reader.fails) || reader.cut)
      ensures end == TurnEnd(version, ready, reader.fails)
      ensures end.None? ==>
        && |reader.input| < |old(reader.input)|
        && GetPdu(ready).result.Ok? && GetPdu(ready).result.value.version == version
        && Dispatched(GetPdu(ready).result.value, look, live, m, cache, FromHandler(old(blocks)))
      ensures end.Some? ==>
        && Ended(version, end.value, live, late) && (live ==> old(Works()))
        && FromHandler(blocks) == FromHandler(old(blocks)) +
             (if live && !end.value.Disconnected? then [Block(true, [ErrorPdu(version, end.value)])] else [])
        && (m.before == [] && m.between == [] && m.locking == [] ==> live == old(Works()))
        && (old(Works()) && Calm(m) && Whole() ==> live && !reader.cut)
      ensures Quiet(m.closing) ==> late == []
    {
      hide Client.Valid, Tracks, GoodTrace, WireBytes, Reported, EndsWith, Quiet, FromHandler, IsReply, GetPdu, NoStop;
      hide ErrorPdu, LookOk, AnswerTo;
      Wait(reader, cache, m);
      ghost var waited := blocks;
      ready := reader.input;
      look := OneRead(cache.State(), cache.versions);
      var pdu := reader.Get();
      if pdu.Err? {
        var why;
        why, live, late := Finish(cache, pdu.error, m);
        end := Some(why);
      } else {
        var err;
        err, look, live, late := Dispatch(pdu.value, cache, m);
        end := if err then Some(VersionMismatch) else None;
      }
      WireGrows(waited, blocks);
    }

    /** The main loop's reaction to a failed read: a disconnect is silent, anything else is reported. */
    method Finish(cache: Cache, e: ReadError, m: Moment) returns (why: Ending, ghost live: bool, ghost late: seq<Block>)
      requires Valid() && cache.Valid() && !Reported(blocks)
      modifies this, cache
      ensures Valid() && cache.Valid() && version == old(version) && old(cache.versions) <= cache.versions
      ensures why == EndOf(e) && old(blocks) <= blocks
      ensures Ended(version, why, live, late) && (live ==> old(Works()))
      ensures FromHandler(blocks) == FromHandler(old(blocks)) +
        if live && !why.Disconnected? then [Block(true, [ErrorPdu(version, why)])] else []
      ensures m.locking == [] ==> live == old(Works())
      ensures old(Works()) && NoStop(m.locking) && Whole() ==> live
      ensures Quiet(m.closing) ==> late == []
      ensures why.Disconnected? ==> blocks == old(blocks)
    {
      hide Valid, Tracks, GoodTrace, WireBytes, Reported, EndsWith, Quiet, FromHandler, NoStop, ErrorPdu;
      if e.Eof? || e.NetFailed? {
        live, late := Works(), [];
        Close();
        return Disconnected, live, late;
      }
      live, late := Report(cache, ReadFailed, m);
      why := ReadFailed;
    }

    method SetVersion(v: uint8)
      requires Valid() && version == 0 && v > 0
      modifies this`version
      ensures Valid() && version == v
    {
      AnyVersion(blocks, v);
      version := v;
    }
  }

  /** Blocks that are legal before negotiation hold no ASPA PDU, so they are legal in every version. */
  lemma AnyVersion(bs: seq<Block>, v: uint8)
    requires GoodTrace(0, bs)
    ensures GoodTrace(v, bs)
  {
    forall b | b in bs ensures Legal(v, b) {
      assert Legal(0, b);
    }
  }

  lemma MoreNoise(bs: seq<Block>, noise: seq<Block>, more: seq<Block>)
    ensures AllNotify(noise) && AllNotify(more) ==> AllNotify(noise + more)
    ensures AllNotify([]) && bs + noise + more == bs + (noise + more)
  {
  }

  lemma NotifyIsLegal(version: uint8, p: Pdu)
    requires p.SerialNotify?
    ensures Legal(version, Block(false, [p]))
  {
    assert forall q | q in [p] :: q == p;
  }

  lemma ResetIsLegal(version: uint8)
    ensures Legal(version, Block(true, [CacheReset(version)]))
  {
    assert forall q | q in [CacheReset(version)] :: q == CacheReset(version);
  }

  lemma ReportIsLegal(version: uint8, why: Ending)
    ensures Legal(version, Block(true, [ErrorPdu(version, why)]))
  {
  }

  /** A report, and notifications behind it, in a trace. */
  lemma ReportJoins(bs: seq<Block>, report: Block, late: seq<Block>)
    requires report.byHandler && AllNotify(late)
    ensures FromHandler(bs + [report] + late) == FromHandler(bs) + [report]
  {
    assert (bs + [report])[..|bs|] == bs;
    NoiseIsHarmless(bs + [report], late);
  }

  // ---------------------------------------------------------------- telling a session

  lemma FailedNegotiation(heard: Bytes, fails: bool, start: seq<Version>, now: seq<Version>,
                          own: seq<Block>, live: bool)
    requires Negotiate(heard).None? && start <= now
    requires own == if live then [Block(true, [ErrorPdu(0, NegotiationFailed)])] else []
    ensures Tells(heard, fails, 0, NegotiationFailed, 0, [], start, now, own, live)
  {
    hide ReadAll, ErrorPdu;
  }

  lemma FailedFirstRead(heard: Bytes, fails: bool, version: uint8, start: seq<Version>, now: seq<Version>,
                        own: seq<Block>, live: bool)
    requires Negotiate(heard) == Some(version) && GetPdu(heard).result.Err? && start <= now
    requires own == if live then [Block(true, [ErrorPdu(version, FirstReadFailed)])] else []
    ensures Tells(heard, fails, version, FirstReadFailed, 0, [], start, now, own, live)
  {
    hide GetPdu, ErrorPdu;
    ReadStep(heard);
  }

  ghost function FirstStory(all: Bytes, ready: Bytes, look: BothReads, start: seq<Version>): Story
    requires GetPdu(ready).result.Ok?
  {
    var g := GetPdu(ready);
    Story(all, ready[..|ready| - |g.rest|], [g.result.value], [look], start)
  }

  lemma FirstInput(all: Bytes, ready: Bytes, version: uint8, look: BothReads, start: seq<Version>, cut: bool)
    requires GetPdu(ready).result.Ok? && GetPdu(ready).result.value.version == version
    requires Negotiate(ready) == Some(version) && ready <= all && (!cut ==> ready == all)
    ensures var st := FirstStory(all, ready, look, start);
      InputTold(st, version, GetPdu(ready).rest, cut) && Negotiate(st.consumed) == Some(version)
  {
    hide GetPdu, Frames;
    var g := GetPdu(ready);
    var frame := ready[..|ready| - |g.rest|];
    assert Frames([], []) by { NoFrames(); }
    FramesAppend([], [], ready);
    FrameAlone(ready, []);
    assert [] + frame == frame && [] + [g.result.value] == [g.result.value];
  }

  lemma NoFrames()
    ensures Frames([], [])
  {
  }

  lemma FirstOutput(all: Bytes, ready: Bytes, version: uint8, look: BothReads, start: seq<Version>,
                    own: seq<Block>, live: bool, works: bool, now: seq<Version>)
    requires GetPdu(ready).result.Ok?
    requires LookOk(GetPdu(ready).result.value, look) && start <= look.before && look.after <= now
    requires own == if live then AnswerTo(version, GetPdu(ready).result.value, look) else []
    requires works ==> live
    ensures OutputTold(FirstStory(all, ready, look, start), version, own, works, now)
  {
    hide GetPdu, LookOk, AnswerTo;
    var p := GetPdu(ready).result.value;
    assert [] + [p] == [p] && [] + [look] == [look];
    OneMoreAnswer(version, [], [], p, look, start, now);
    assert [] + AnswerTo(version, p, look) == AnswerTo(version, p, look);
  }

  /** The story after one more turn: the next PDU was read from `ready` and dispatched. */
  ghost function Later(st: Story, ready: Bytes, look: BothReads): Story
    requires GetPdu(ready).result.Ok?
  {
    var g := GetPdu(ready);
    Story(st.all, st.consumed + ready[..|ready| - |g.rest|], st.ps + [g.result.value], st.looks + [look], st.start)
  }

  lemma InputOn(st: Story, version: uint8, rest: Bytes, was: bool, ready: Bytes, cut: bool, look: BothReads)
    requires InputTold(st, version, rest, was) && (was ==> cut)
    requires ready <= rest && (!cut ==> ready == rest) && Negotiate(st.consumed) == Some(version)
    requires GetPdu(ready).result.Ok? && GetPdu(ready).result.value.version == version
    ensures var st' := Later(st, ready, look);
      && InputTold(st', version, GetPdu(ready).rest, cut) && Negotiate(st'.consumed) == Some(version)
      && (AllQueries(st'.ps) <==> AllQueries(st.ps) && IsQuery(GetPdu(ready).result.value))
  {
    hide GetPdu, Frames;
    var g := GetPdu(ready);
    var frame := ready[..|ready| - |g.rest|];
    FramesAppend(st.consumed, st.ps, ready);
    FrameAlone(ready, []);
    Flatten3(st.consumed, frame, g.rest);
    PrefixUnder(st.consumed, ready, rest);
    assert g.result.value in st.ps + [g.result.value];
    assert forall p | p in st.ps :: p in st.ps + [g.result.value];
  }

  lemma OutputOn(st: Story, version: uint8, ready: Bytes, look: BothReads,
                 own: seq<Block>, worked: bool, vs: seq<Version>,
                 own': seq<Block>, live: bool, works: bool, vs': seq<Version>)
    requires GetPdu(ready).result.Ok? && OutputTold(st, version, own, worked, vs)
    requires LookOk(GetPdu(ready).result.value, look) && vs <= look.before && look.after <= vs'
    requires own' == own + if live then AnswerTo(version, GetPdu(ready).result.value, look) else []
    requires (live ==> worked) && (works ==> live)
    ensures OutputTold(Later(st, ready, look), version, own', works, vs')
  {
    hide GetPdu, LookOk, AnswerTo, Orderly, AnswersTo;
    OrderlyGrows(st.ps, st.looks, st.start, vs, look.before);
    OneMoreAnswer(version, st.ps, st.looks, GetPdu(ready).result.value, look, st.start, vs');
  }

  /** The last turn: what was read from `ready` ended the session. */
  lemma InputToTheEnd(st: Story, version: uint8, rest: Bytes, was: bool, ready: Bytes, cut: bool, fails: bool,
                      ending: Ending)
    requires InputTold(st, version, rest, was) && (was ==> cut)
    requires ready <= rest && (!cut ==> ready == rest) && Negotiate(st.consumed) == Some(version) && st.ps != []
    requires TurnEnd(version, ready, fails) == Some(ending)
    ensures var heard := st.consumed + ready;
      && heard <= st.all && (!cut ==> heard == st.all)
      && |st.ps| <= |ReadAll(heard).pdus| && ReadAll(heard).pdus[..|st.ps|] == st.ps
      && SessionEnd(heard, fails) == (ending, |st.ps|) && Negotiate(heard) == Some(version)
  {
    hide GetPdu, ReadAll, Frames, Matching;
    var heard := st.consumed + ready;
    FramesThen(st.consumed, st.ps, ready);
    ReadStep(ready);
    MatchingSkip(version, st.ps, ReadAll(ready).pdus);
    MatchingStart(version, ReadAll(ready).pdus);
    PrefixUnder(st.consumed, ready, rest);
    assert ReadAll(heard).pdus[..|st.ps|] == st.ps;
  }

  lemma MatchingStart(version: uint8, ps: seq<Pdu>)
    ensures ps == [] || ps[0].version != version ==> Matching(version, ps) == 0
  {
  }

  lemma ToldToTheEnd(st: Story, version: uint8, ready: Bytes, fails: bool, ending: Ending,
                     own: seq<Block>, worked: bool, vs: seq<Version>, own': seq<Block>, live: bool, vs': seq<Version>)
    requires var heard := st.consumed + ready;
      && |st.ps| <= |ReadAll(heard).pdus| && ReadAll(heard).pdus[..|st.ps|] == st.ps
      && SessionEnd(heard, fails) == (ending, |st.ps|) && Negotiate(heard) == Some(version)
    requires OutputTold(st, version, own, worked, vs) && vs <= vs' && (live ==> worked)
    requires own' == own + if live && !ending.Disconnected? then [Block(true, [ErrorPdu(version, ending)])] else []
    ensures Tells(st.consumed + ready, fails, version, ending, |st.ps|, st.looks, st.start, vs', own', live)
  {
    hide ReadAll, ErrorPdu, AnswersTo, SessionEnd, Negotiate, Orderly;
    OrderlyGrows(st.ps, st.looks, st.start, vs, vs');
  }

  lemma {:induction false} MatchingSkip(version: uint8, ps: seq<Pdu>, qs: seq<Pdu>)
    requires forall p | p in ps :: p.version == version
    ensures Matching(version, ps + qs) == |ps| + Matching(version, qs)
  {
    if ps == [] {
      assert ps + qs == qs;
    } else {
      assert ps[0] in ps && forall p | p in ps[1..] :: p in ps;
      assert (ps + qs)[1..] == ps[1..] + qs;
      MatchingSkip(version, ps[1..], qs);
    }
  }

  lemma FirstOfQueries(ps: seq<Pdu>, qs: seq<Pdu>)
    requires |ps| == 1 && ps <= qs
    ensures AllQueries(qs) ==> IsQuery(ps[0])
  {
    assert qs[0] in qs;
  }

  /** How a session can end: a mismatch never comes with the first PDU, whose failure has an ending of its own. */
  lemma EndingAndVersion(input: Bytes, fails: bool)
    ensures var (ending, served) := SessionEnd(input, fails);
      && (ending.VersionMismatch? ==> served > 0)
      && (ending.NegotiationFailed? <==> Negotiate(input).None?)
      && (ending.FirstReadFailed? <==> Negotiate(input).Some? && GetPdu(input).result.Err?)
  {
    hide GetPdu;
    ReadStep(input);
    if Negotiate(input).Some? && GetPdu(input).result.Ok? {
      FirstPduMatches(input);
    }
  }

  lemma EndingTold(heard: Bytes, fails: bool, version: uint8, ending: Ending, served: nat, looks: seq<BothReads>,
                   start: seq<Version>, now: seq<Version>, own: seq<Block>, live: bool)
    requires Tells(heard, fails, version, ending, served, looks, start, now, own, live)
    ensures version in {0, 1, 2} && (version == 0 <==> ending.NegotiationFailed?)
    ensures ending.VersionMismatch? ==> served > 0
  {
    hide ReadAll, SessionEnd, Orderly, AnswersTo, ErrorPdu;
    EndingAndVersion(heard, fails);
  }

  /** A block that is no report joins the handler's own. */
  lemma AnswerJoins(bs: seq<Block>, pdus: seq<Pdu>)
    requires !Reported(bs) && !IsError(Block(true, pdus))
    ensures !Reported(bs + [Block(true, pdus)])
    ensures FromHandler(bs + [Block(true, pdus)]) == FromHandler(bs) + [Block(true, pdus)]
  {
    assert (bs + [Block(true, pdus)])[..|bs|] == bs;
  }

  lemma QuietAt(schedule: seq<Moment>, i: nat)
    ensures (forall m | m in schedule :: Quiet(m.closing)) ==> Quiet(At(schedule, i).closing)
  {
  }

  /**
   * A schedule under which an Error Report is not the last block on the wire: a `notify` passes its test, the handler
   * reports a failed negotiation, and the `notify` gets the lock before the connection is closed.
   */
  method NotifyAfterReport(cache: Cache) returns (client: Client)
    requires cache.Valid()
    modifies cache
    ensures cache.Valid() && client.Valid() && client.closed
    ensures |client.blocks| == 2 && client.blocks[0] == Block(true, [ErrorPdu(0, NegotiationFailed)])
    ensures IsNotify(client.blocks[1])
    ensures client.sent == WireBytes(client.blocks)
  {
    hide Tracks, WireBytes, EncodeAll, ErrorPdu, GoodTrace;
    ghost var report := Block(true, [ErrorPdu(0, NegotiationFailed)]);
    client := new Client(100);
    client.StartNotify(cache.session, cache.serial);
    ReportSize();
    TwoBlocks(report, report);
    assert client.blocks + [report] == [report];
    ghost var late := client.SendAndCloseError(cache, NegotiationFailed, [Write(0)]);
    assert client.blocks == [report, late[0]];
    assert late[0] in late;
    NotifySize(late[0]);
    TwoBlocks(report, late[0]);
  }

  lemma ReportSize()
    ensures |EncodeAll([ErrorPdu(0, NegotiationFailed)])| == 52
  {
    var p := ErrorPdu(0, NegotiationFailed);
    assert |p.pdu| == 18 && |p.text| == 18;
    EncodedLength(p);
    BodyLength(p);
    hide Encode;
    assert EncodeAll([p]) == Encode(p) + EncodeAll([]);
  }

  lemma NotifySize(b: Block)
    requires IsNotify(b)
    ensures |EncodeAll(b.pdus)| == 12
  {
    var p := b.pdus[0];
    assert b.pdus == [p];
    EncodedLength(p);
    BodyLength(p);
    hide Encode;
    assert EncodeAll([p]) == Encode(p) + EncodeAll([]);
  }

  lemma TwoBlocks(a: Block, b: Block)
    ensures |WireBytes([a])| == |EncodeAll(a.pdus)| && |WireBytes([a, b])| == |EncodeAll(a.pdus)| + |EncodeAll(b.pdus)|
  {
    WireOfAppend([], a);
    WireOfAppend([a], b);
    assert [] + [a] == [a] && [a] + [b] == [a, b];
  }

  /** The Error Report of `sendAndCloseError`: before negotiation it claims version 2. */
  function ErrorPdu(version: uint8, why: Ending): Pdu {
    var text := Ascii(Message(why));
    ErrorReport(if version == 0 then 2 else version, CodeOf(why), text, text)
  }

  datatype Ending = NegotiationFailed | FirstReadFailed | VersionMismatch | ReadFailed | Disconnected

  function CodeOf(e: Ending): uint16 {
    match e
    case NegotiationFailed => UNSUPPORTED_VERSION
    case FirstReadFailed => INVALID_REQUEST
    case VersionMismatch => UNEXPECTED_VERSION
    case ReadFailed => CORRUPT_DATA
    case Disconnected => 0
  }

  function Message(e: Ending): string {
    match e
    case NegotiationFailed => "NEGOTIATION_FAILED"
    case FirstReadFailed => "INVALID_REQUEST"
    case VersionMismatch => "VERSION_MISMATCH"
    case ReadFailed => "READ_ERROR"
    case Disconnected => ""
  }

  /** The second locked read of `handleSerialQuery`, after the first saw `c`; `None` stands for a Cache Reset. */
  method ReadDiffs(cache: Cache, version: uint8, ghost c: CacheState, first: Snapshot, session: uint16, serial: uint32)
    returns (answer: Option<seq<Pdu>>, ghost p: Reply)
    requires cache.Valid() && first.session == c.session && first.serial == c.serial
    ensures Asked(cache.State(), c, session, serial) ==> IsReply(Since(cache.State(), serial), p)
    ensures SerialAnswer(version, c, cache.State(), session, serial, p) ==
              match answer case Some(pdus) => pdus case None => [CacheReset(version)]
    ensures answer.Some? ==> IsDataBlock(answer.value) && WellFormed(version, Block(true, answer.value))
  {
    hide Tracks, IsReply, IsDifference;
    p := Reply([], [], [], []);
    if session != first.session || serial == 0 {
      return None, p;
    }
    var reply, found := cache.GetDiffsFrom(serial);
    if !found {
      return None, p;
    }
    p := reply;
    DiffBlockIsWellFormed(version, first.session, first.serial, p);
    answer := Some(DataBlock(version, first.session, first.serial, DiffPayload(version, reply)));
  }

  /** The diffs since `serial` are wanted and there. */
  predicate Asked(c': CacheState, c: CacheState, session: uint16, serial: uint32) {
    session == c.session && serial != 0 && Known(c', serial)
  }

  /** The block a Serial Query is answered with when its two reads see `c` and `c'`. */
  ghost function SerialAnswer(version: uint8, c: CacheState, c': CacheState, session: uint16, serial: uint32, p: Reply)
    : seq<Pdu>
  {
    if Asked(c', c, session, serial) then DataBlock(version, c.session, c.serial, DiffPayload(version, p))
    else [CacheReset(version)]
  }

  /** The handler's answer is the block, or the Cache Reset, of the two Serial Query steps of a run. */
  lemma AnswerIsRunStep(c: CacheState, n: nat, c': CacheState, vs': seq<Version>, r: Runs.Router, p: Reply)
    requires r.tag.Some? && |vs'| > 0 && c'.session == c.session
    ensures var answer := SerialAnswer(r.version, c, c', r.session, r.tag.value, p);
      var r1 := Runs.OnFirstRead(c, n, r);
      if r1.phase.MustReset? then answer == [CacheReset(r.version)]
      else
        var r2 := Runs.OnSecondRead(c', vs', r1, p);
        if r2.phase.MustReset? then answer == [CacheReset(r.version)]
        else r2.phase.Sending? && r2.phase.block == answer
  {
  }

  // ---------------------------------------------------------------- from block to bytes and back

  const MAX_PROVIDERS: nat := 16380

  lemma {:induction false} RoaPdusAreSendable(version: uint8, flags: uint8, s: seq<Roa>)
    ensures forall q | q in RoaPdus(version, flags, s) :: Sendable(q)
  {
    if s != [] {
      RoaPdusAreSendable(version, flags, s[..|s| - 1]);
      var q := RoaPdu(version, flags, s[|s| - 1].Key());
      EncodedLength(q);
      BodyLength(q);
    }
  }

  lemma {:induction false} AspaPduAt(version: uint8, flags: uint8, s: seq<Aspa>, i: nat)
    requires i < |s|
    ensures AspaPdus(version, flags, s)[i] == Pdu.Aspa(version, flags, s[i].customer, s[i].providers)
  {
    if i < |s| - 1 {
      AspaPduAt(version, flags, s[..|s| - 1], i);
    }
  }

  lemma AspaPdusSendableIff(version: uint8, flags: uint8, s: seq<Aspa>)
    ensures (forall q | q in AspaPdus(version, flags, s) :: Sendable(q)) <==> (forall a | a in s :: Fits(a))
  {
    hide Sendable, Fits, AspaPdus;
    var ps := AspaPdus(version, flags, s);
    if forall q | q in ps :: Sendable(q) {
      forall a | a in s ensures Fits(a) {
        var i :| 0 <= i < |s| && s[i] == a;
        AspaPduAt(version, flags, s, i);
        AspaSendableIff(version, flags, a);
        assert ps[i] in ps;
      }
    }
    if forall a | a in s :: Fits(a) {
      forall q | q in ps ensures Sendable(q) {
        var i :| 0 <= i < |ps| && ps[i] == q;
        AspaPduAt(version, flags, s, i);
        AspaSendableIff(version, flags, s[i]);
        assert s[i] in s;
      }
    }
  }

  lemma AspaSendableIff(version: uint8, flags: uint8, a: Aspa)
    ensures Sendable(Pdu.Aspa(version, flags, a.customer, a.providers)) <==> Fits(a)
  {
    hide Encode;
    var q := Pdu.Aspa(version, flags, a.customer, a.providers);
    EncodedLength(q);
    BodyLength(q);
  }

  predicate Fits(a: Aspa) {
    |a.providers| <= MAX_PROVIDERS
  }

  /**
   * The bytes of a Serial Query reply, read with `GetPDU`, are the reply again, and so is what they do to a router,
   * if and only if no ASPA in it lists more providers than a PDU may hold.
   */
  lemma DiffBlockSurvivesWire(version: uint8, session: uint16, serial: uint32, p: Reply)
    ensures var block := DataBlock(version, session, serial, DiffPayload(version, p));
      ReadAll(EncodeAll(block)) == Heard(block, Eof, []) <==>
        (version >= 2 ==> forall a | a in p.addAspa + p.delAspa :: Fits(a))
  {
    hide Sendable, Fits, ReadAll, EncodeAll, RoaPdus, AspaPdus;
    RoaPdusAreSendable(version, ANNOUNCE, p.add);
    RoaPdusAreSendable(version, WITHDRAW, p.del);
    AspaPdusSendableIff(version, ANNOUNCE, p.addAspa);
    AspaPdusSendableIff(version, WITHDRAW, p.delAspa);
    var payload := DiffPayload(version, p);
    assert forall q :: q in payload <==>
      || q in RoaPdus(version, ANNOUNCE, p.add) || q in AspaPdusFor(version, ANNOUNCE, p.addAspa)
      || q in RoaPdus(version, WITHDRAW, p.del) || q in AspaPdusFor(version, WITHDRAW, p.delAspa);
    assert forall a :: a in p.addAspa + p.delAspa <==> a in p.addAspa || a in p.delAspa;
    FramedBlockSurvivesWire(version, session, serial, payload);
  }

  /** The same for the answer to a Reset Query. */
  lemma FullBlockSurvivesWire(version: uint8, session: uint16, serial: uint32, roas: seq<Roa>, aspas: seq<Aspa>)
    ensures var block := DataBlock(version, session, serial, FullPayload(version, roas, aspas));
      ReadAll(EncodeAll(block)) == Heard(block, Eof, []) <==> (version >= 2 ==> forall a | a in aspas :: Fits(a))
  {
    hide Sendable, Fits, ReadAll, EncodeAll, RoaPdus, AspaPdus;
    RoaPdusAreSendable(version, ANNOUNCE, roas);
    AspaPdusSendableIff(version, ANNOUNCE, aspas);
    var payload := FullPayload(version, roas, aspas);
    assert forall q :: q in payload <==>
      q in RoaPdus(version, ANNOUNCE, roas) || q in AspaPdusFor(version, ANNOUNCE, aspas);
    FramedBlockSurvivesWire(version, session, serial, payload);
  }

  lemma FramedBlockSurvivesWire(version: uint8, session: uint16, serial: uint32, payload: seq<Pdu>)
    ensures var block := DataBlock(version, session, serial, payload);
      ReadAll(EncodeAll(block)) == Heard(block, Eof, []) <==> forall q | q in payload :: Sendable(q)
  {
    var first := CacheResponse(version, session);
    var last := EndOfData(version, session, serial, REFRESH_INTERVAL, RETRY_INTERVAL, EXPIRE_INTERVAL);
    EncodedLength(first);
    BodyLength(first);
    EncodedLength(last);
    BodyLength(last);
    assert Sendable(first) && Sendable(last);
    hide Sendable, ReadAll, EncodeAll;
    StreamRoundTrip(DataBlock(version, session, serial, payload));
    assert forall q :: q in DataBlock(version, session, serial, payload) <==> q == first || q in payload || q == last;
  }

  lemma WireOfAppend(bs: seq<Block>, b: Block)
    ensures WireBytes(bs + [b]) == WireBytes(bs) + EncodeAll(b.pdus)
  {
    assert (bs + [b])[..|bs|] == bs;
  }

  /** The bytes of each PDU. */
  function Encoded(ps: seq<Pdu>): seq<Bytes> {
    if ps == [] then [] else Encoded(ps[..|ps| - 1]) + [Encode(ps[|ps| - 1])]
  }

  function Joined(chunks: seq<Bytes>): Bytes {
    if chunks == [] then [] else Joined(chunks[..|chunks| - 1]) + chunks[|chunks| - 1]
  }

  lemma {:induction false} JoinedIsEncoded(ps: seq<Pdu>)
    ensures Joined(Encoded(ps)) == EncodeAll(ps)
  {
    hide Encode;
    if ps != [] {
      var n := |ps| - 1;
      JoinedIsEncoded(ps[..n]);
      JoinedAppend(Encoded(ps[..n]), Encode(ps[n]));
      NextEncoded(ps, n);
      assert ps[..n + 1] == ps;
    }
  }

  lemma JoinedAppend(chunks: seq<Bytes>, c: Bytes)
    ensures Joined(chunks + [c]) == Joined(chunks) + c
  {
    assert (chunks + [c])[..|chunks|] == chunks;
  }

  lemma StepJoined(start: Bytes, chunks: seq<Bytes>, i: nat)
    requires i < |chunks|
    ensures start + Joined(chunks[..i + 1]) == start + Joined(chunks[..i]) + chunks[i] <= start + Joined(chunks)
  {
    assert chunks[..i + 1][..i] == chunks[..i];
    PrefixJoined(chunks, i + 1);
    Flatten3(start, Joined(chunks[..i]), chunks[i]);
    PrefixUnder(start, Joined(chunks[..i + 1]), Joined(chunks));
  }

  lemma PrefixUnder(a: Bytes, b: Bytes, c: Bytes)
    requires b <= c
    ensures a + b <= a + c
  {
    assert c == b + c[|b|..];
    Flatten3(a, b, c[|b|..]);
  }

  lemma {:induction false} PrefixJoined(chunks: seq<Bytes>, i: nat)
    requires i <= |chunks|
    ensures Joined(chunks[..i]) <= Joined(chunks)
    decreases |chunks| - i
  {
    if i == |chunks| {
      assert chunks[..i] == chunks;
    } else {
      assert chunks[..i + 1][..i] == chunks[..i];
      PrefixJoined(chunks, i + 1);
    }
  }
}
