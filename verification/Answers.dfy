/** What a session's blocks and endings mean to the router at the other end, in the protocol's own numbers. */
module Answers {
  import opened Words
  import opened Roas
  import opened History
  import opened Aggregation
  import opened Pdus
  import opened Streams
  import opened Routers
  import opened Sessions
  import Codec
  import Runs

  /** Cache Response first and End of Data last, with session, serial and the three intervals. */
  ghost predicate Framed(version: uint8, session: uint16, serial: uint32, pdus: seq<Pdu>) {
    && |pdus| >= 2 && pdus[0] == CacheResponse(version, session)
    && pdus[|pdus| - 1] == EndOfData(version, session, serial, 3600, 600, 7200)
  }

  /** A router that holds `held` takes the block without an error and then knows of `v` what its session shows. */
  ghost predicate Commits(version: uint8, held: Version, blank: bool, pdus: seq<Pdu>,
                          session: uint16, serial: uint32, v: Version, exact: bool)
  {
    var out := Receive(held, blank, pdus);
    out.Ok? && out.value.session == session && out.value.serial == serial && Holds(version, out.value.table, v, exact)
  }

  lemma BlockIsFramed(version: uint8, session: uint16, serial: uint32, payload: seq<Pdu>)
    ensures Framed(version, session, serial, DataBlock(version, session, serial, payload))
  {
  }

  /**
   * A Reset Query is answered by one data block. Whatever the router held, it ends with exactly the version that was
   * read, providers included, under the session and serial of that read.
   */
  lemma ResetAnswer(version: uint8, p: Pdu, look: BothReads, held: Version)
    requires p.ResetQuery? && Tracks(look.first, look.before)
    ensures var c, n := look.first, |look.before| - 1;
      var bs := AnswerTo(version, p, look);
      && |bs| == 1 && bs[0].byHandler
      && c.serial == SerialOf(n) && View(c.roas, c.aspas) == look.before[n]
      && Framed(version, c.session, c.serial, bs[0].pdus)
      && Commits(version, held, true, bs[0].pdus, c.session, c.serial, look.before[n], true)
  {
    var c := look.first;
    hide Holds;
    FullDataApplies(version, c.roas, c.aspas);
    ReceiveBlock(held, true, version, c.session, c.serial, FullPayload(version, c.roas, c.aspas));
    BlockIsFramed(version, c.session, c.serial, FullPayload(version, c.roas, c.aspas));
  }

  /** It is the block of the Reset Query step of a run. */
  lemma ResetIsRunStep(p: Pdu, look: BothReads, n: nat, r: Runs.Router)
    requires p.ResetQuery?
    ensures Runs.OnReset(look.first, n, r).phase.Sending? && Runs.OnReset(look.first, n, r).phase.blank
    ensures AnswerTo(r.version, p, look) == [Block(true, Runs.OnReset(look.first, n, r).phase.block)]
  {
  }

  /**
   * A Serial Query is answered by a Cache Reset exactly when it names another session, names serial 0, or asks for
   * more than ten versions back or for more than there are. Otherwise it is answered by one data block under the
   * serial of the first read, which brings a router that holds the asked version to the version of the second read.
   */
  lemma SerialQueryAnswer(version: uint8, p: Pdu, look: BothReads, held: Version)
    requires p.SerialQuery? && LookOk(p, look)
    ensures var c, vs := look.first, look.after;
      var lag := (look.second.serial - p.serial) % 0x1_0000_0000;
      var bs := AnswerTo(version, p, look);
      && |bs| == 1 && bs[0].byHandler
      && if p.session != c.session || p.serial == 0 || lag > 10 || lag >= |vs| then bs[0].pdus == [CacheReset(version)]
         else
           && Framed(version, c.session, c.serial, bs[0].pdus)
           && (Holds(version, held, vs[|vs| - 1 - lag], false) ==>
                 Commits(version, held, false, bs[0].pdus, c.session, c.serial, vs[|vs| - 1], false))
  {
    hide Tracks, Known, Since, IsReply, Holds, Commits, DataBlock, DiffPayload, Framed, Asked;
    var c, c', vs := look.first, look.second, look.after;
    AskedIff(c', vs, c, p.session, p.serial);
    if Asked(c', c, p.session, p.serial) {
      var lag := (c'.serial - p.serial) % 0x1_0000_0000;
      BlockIsFramed(version, c.session, c.serial, DiffPayload(version, look.reply));
      if Holds(version, held, vs[|vs| - 1 - lag], false) {
        DiffCommits(version, c', vs, p.serial, c.session, c.serial, held, look.reply);
      }
    }
  }

  lemma AskedIff(c': CacheState, vs: seq<Version>, c: CacheState, session: uint16, serial: uint32)
    requires Tracks(c', vs)
    ensures var lag := (c'.serial - serial) % 0x1_0000_0000;
      && lag == Lag(c', serial)
      && (Asked(c', c, session, serial) <==> session == c.session && serial != 0 && lag <= 10 && lag < |vs|)
      && (Asked(c', c, session, serial) ==> Known(c', serial))
  {
    hide Tracks, Known, Since;
    KnownIffInWindow(c', vs, serial);
    WindowSize(c', vs);
  }

  lemma WindowSize(c: CacheState, vs: seq<Version>)
    requires Tracks(c, vs)
    ensures |vs| > 0 && |c.history| == if |vs| - 1 < 10 then |vs| - 1 else 10
  {
  }

  lemma DiffCommits(version: uint8, c: CacheState, vs: seq<Version>, q: uint32, session: uint16, serial: uint32,
                    held: Version, p: Reply)
    requires Tracks(c, vs) && Known(c, q) && IsReply(Since(c, q), p) && Lag(c, q) < |vs|
    requires Holds(version, held, vs[|vs| - 1 - Lag(c, q)], false)
    ensures Commits(version, held, false, DataBlock(version, session, serial, DiffPayload(version, p)),
                    session, serial, vs[|vs| - 1], false)
  {
    hide Tracks, Known, Since, IsReply, Delta, DiffPayload, Lag, ValidKeys;
    var recs, tail := Since(c, q), vs[|vs| - 1 - Lag(c, q)..];
    WindowChains(c, vs, q);
    AllKeysValid(c, vs);
    assert tail[0] == vs[|vs| - 1 - Lag(c, q)] && tail[|recs|] == vs[|vs| - 1];
    ReplyApplies(version, held, recs, tail, p);
    ReceiveBlock(held, false, version, session, serial, DiffPayload(version, p));
  }

  lemma AllKeysValid(c: CacheState, vs: seq<Version>)
    requires Tracks(c, vs)
    ensures |vs| > 0 && forall m | 0 <= m < |vs| :: ValidKeys(vs[m].roas)
  {
  }

  /** Nothing but a query is answered. */
  lemma OthersGetNothing(version: uint8, p: Pdu, look: BothReads)
    ensures AnswerTo(version, p, look) == [] <==> !p.ResetQuery? && !p.SerialQuery?
  {
  }

  /** Every ending of a session, in terms of the bytes and PDUs of its input. */
  lemma EndingsIff(input: Bytes, fails: bool)
    ensures var (ending, served) := SessionEnd(input, fails);
      var h := ReadAll(input);
      if input == [] || (input[0] != 1 && input[0] != 2) then ending.NegotiationFailed? && served == 0
      else if h.pdus == [] then ending.FirstReadFailed? && served == 0
      else
        && served <= |h.pdus| && (forall i | 0 <= i < served :: h.pdus[i].version == input[0])
        && if served < |h.pdus| then ending.VersionMismatch? && h.pdus[served].version != input[0]
           else if h.end.Eof? || (h.end.ShortRead? && fails) then ending.Disconnected?
           else ending.ReadFailed?
    ensures !ReadAll(input).end.NetFailed?
  {
    hide GetPdu;
    EndsPlainly(input);
  }

  lemma {:induction false} EndsPlainly(input: Bytes)
    ensures !ReadAll(input).end.NetFailed?
    decreases |input|
  {
    hide Codec.Decipher;
    if GetPdu(input).result.Ok? {
      EndsPlainly(GetPdu(input).rest);
    }
  }

  /** The four Error Reports: version 2 before negotiation, the standard's code, and one text in both places. */
  lemma ReportIs(version: uint8, why: Ending)
    requires !why.Disconnected?
    ensures var p := ErrorPdu(version, why);
      var text := match why
        case NegotiationFailed => "NEGOTIATION_FAILED"
        case FirstReadFailed => "INVALID_REQUEST"
        case VersionMismatch => "VERSION_MISMATCH"
        case _ => "READ_ERROR";
      && p.ErrorReport? && p.version == (if version == 0 then 2 else version)
      && p.code == (match why
                    case NegotiationFailed => 4
                    case FirstReadFailed => 3
                    case VersionMismatch => 8
                    case _ => 0)
      && p.pdu == p.text && |p.text| == |text| && forall i | 0 <= i < |text| :: p.text[i] == text[i] as int % 0x100
  {
  }
}
