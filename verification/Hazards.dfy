/**
 * Where the code does less than a plain reading of the protocol: the serial of a reply can lag its data, a lagging
 * serial is not repaired by later queries, and a change of ASPA providers can cancel out. Each comes with the exact
 * condition under which the code is right.
 */
module Hazards {
  import opened Words
  import opened Tables
  import opened Roas
  import opened History
  import opened Aggregation
  import opened Pdus
  import opened Routers
  import opened Runs
  import Aspas

  // ---------------------------------------------------------------- a refresh between the two reads

  /** A run of refreshes leaves the trace alone exactly when none of them changes the content. */
  lemma {:induction false} NoChangeNoVersion(vs: seq<Version>, loads: seq<Load>)
    requires |vs| > 0
    ensures vs <= VersionsAfter(vs, loads)
    ensures VersionsAfter(vs, loads) == vs <==> forall l | l in loads :: View(l.roas, l.aspas) == vs[|vs| - 1]
  {
    hide View;
    if loads != [] {
      var front, l := loads[..|loads| - 1], loads[|loads| - 1];
      NoChangeNoVersion(vs, front);
      assert loads == front + [l];
      assert l in loads;
      if VersionsAfter(vs, front) != vs {
        var x :| x in front && View(x.roas, x.aspas) != vs[|vs| - 1];
        assert x in loads;
      }
    }
  }

  /**
   * A Serial Query whose first read sees `c`, with the refreshes `loads` before its second read. A router whose table
   * is the version its serial labels ends with exactly the version of the second read, tagged with the serial of the
   * first. That is the serial of the second read iff none of the refreshes changed the content; and it names what the
   * router then holds iff the two reads saw the same content, as far as the session shows it.
   */
  lemma {:induction false} QueryLandsOnSecondRead(c: CacheState, vs: seq<Version>, loads: seq<Load>,
                                                  r: Router, p: Reply)
    requires Tracks(c, vs) && forall l | l in loads :: Normal(l.roas, l.aspas)
    requires r.tagAt < |vs| && r.tag == Some(SerialOf(r.tagAt)) && r.tag.value != 0 && r.session == c.session
    requires Holds(r.version, r.table, vs[r.tagAt], false)
    requires |VersionsAfter(vs, loads)| <= r.tagAt + TWO_32
    requires Known(AfterLoads(c, loads), r.tag.value) && IsReply(Since(AfterLoads(c, loads), r.tag.value), p)
    ensures var c', vs' := AfterLoads(c, loads), VersionsAfter(vs, loads);
      var r' := OnDeliver(OnSecondRead(c', vs', OnFirstRead(c, |vs| - 1, r), p));
      && r'.error == r.error
      && Holds(r.version, r'.table, vs'[|vs'| - 1], false)
      && r'.tag == Some(c.serial)
      && (c.serial == c'.serial <==> forall l | l in loads :: View(l.roas, l.aspas) == vs[|vs| - 1])
      && (Holds(r.version, r'.table, vs[|vs| - 1], false) <==> Holds(r.version, vs'[|vs'| - 1], vs[|vs| - 1], false))
  {
    hide *;
    var c', vs' := AfterLoads(c, loads), VersionsAfter(vs, loads);
    RunTracks(c, vs, loads);
    NoChangeNoVersion(vs, loads);
    TraceSerial(c, vs);
    QueryBetween(c, vs, c', vs', r, p);
  }

  /** The same for any later state of the cache. */
  lemma QueryBetween(c: CacheState, vs: seq<Version>, c': CacheState, vs': seq<Version>, r: Router, p: Reply)
    requires Tracks(c, vs) && Tracks(c', vs') && vs <= vs'
    requires r.tagAt < |vs| && r.tag == Some(SerialOf(r.tagAt)) && r.tag.value != 0 && r.session == c.session
    requires Holds(r.version, r.table, vs[r.tagAt], false) && |vs'| <= r.tagAt + TWO_32
    requires Known(c', r.tag.value) && IsReply(Since(c', r.tag.value), p)
    ensures var r' := OnDeliver(OnSecondRead(c', vs', OnFirstRead(c, |vs| - 1, r), p));
      && r'.error == r.error
      && Holds(r.version, r'.table, vs'[|vs'| - 1], false)
      && r'.tag == Some(c.serial)
      && (c.serial == c'.serial <==> vs' == vs)
      && (Holds(r.version, r'.table, vs[|vs| - 1], false) <==> Holds(r.version, vs'[|vs'| - 1], vs[|vs| - 1], false))
  {
    hide Tracks, Known, Since, IsReply, Holds, OnSecondRead, OnFirstRead, OnDeliver, DiffPayload;
    InStepReplyApplies(c', vs', r, p);
    TraceSerial(c, vs);
    TraceSerial(c', vs');
    SerialsAgreeIff(c, vs, c', vs');
    DeliveredQuery(c, |vs| - 1, c', vs', r, p);
    SameContent(r.version, ApplyAll(r.table, DiffPayload(r.version, p)).value, vs'[|vs'| - 1], vs[|vs| - 1]);
  }

  lemma SameContent(version: uint8, t: Version, w: Version, v: Version)
    requires Holds(version, t, w, false)
    ensures Holds(version, t, v, false) <==> Holds(version, w, v, false)
  {
  }

  lemma TraceSerial(c: CacheState, vs: seq<Version>)
    requires Tracks(c, vs)
    ensures |vs| > 0 && c.serial == SerialOf(|vs| - 1)
  {
  }

  lemma TraceKeys(c: CacheState, vs: seq<Version>, m: nat)
    requires Tracks(c, vs) && m < |vs|
    ensures ValidKeys(vs[m].roas)
  {
  }

  lemma InStepReplyApplies(c: CacheState, vs: seq<Version>, r: Router, p: Reply)
    requires Tracks(c, vs) && r.tagAt < |vs| <= r.tagAt + TWO_32 && r.tag == Some(SerialOf(r.tagAt))
    requires Holds(r.version, r.table, vs[r.tagAt], false)
    requires Known(c, r.tag.value) && IsReply(Since(c, r.tag.value), p)
    ensures var out := ApplyAll(r.table, DiffPayload(r.version, p));
      out.Ok? && Holds(r.version, out.value, vs[|vs| - 1], false)
  {
    hide Tracks, Delta, Known, Since, IsReply, ValidKeys, DiffPayload;
    var recs, tail := Since(c, r.tag.value), vs[r.tagAt..];
    SinceChains(c, vs, r.tagAt);
    assert tail[0] == vs[r.tagAt] && tail[|recs|] == vs[|vs| - 1];
    TraceKeys(c, vs, r.tagAt);
    TraceKeys(c, vs, |vs| - 1);
    ReplyApplies(r.version, r.table, recs, tail, p);
  }

  lemma SerialsAgreeIff(c: CacheState, vs: seq<Version>, c': CacheState, vs': seq<Version>)
    requires 0 < |vs| && vs <= vs' && |vs'| < |vs| + TWO_32
    requires c.serial == SerialOf(|vs| - 1) && c'.serial == SerialOf(|vs'| - 1)
    ensures c.serial == c'.serial <==> vs' == vs
  {
    LagOf(|vs'| - 1, |vs| - 1);
  }

  lemma DeliveredQuery(c: CacheState, n: nat, c': CacheState, vs': seq<Version>, r: Router, p: Reply)
    requires |vs'| > 0 && r.tag.Some? && r.session == c.session && r.tag.value != 0 && Known(c', r.tag.value)
    requires ApplyAll(r.table, DiffPayload(r.version, p)).Ok?
    ensures var r' := OnDeliver(OnSecondRead(c', vs', OnFirstRead(c, n, r), p));
      && r'.error == r.error && r'.tag == Some(c.serial)
      && r'.table == ApplyAll(r.table, DiffPayload(r.version, p)).value
  {
    hide AspaFaithful;
    ReceiveBlock(r.table, false, r.version, c'.session, c.serial, DiffPayload(r.version, p));
  }

  // ---------------------------------------------------------------- a lagging serial is not repaired

  lemma ApplyOk(t: Version, version: uint8, k: RoaKey)
    requires ValidKey(k)
    ensures Apply(t, RoaPdu(version, ANNOUNCE, k)).Ok? <==> k !in t.roas
    ensures Apply(t, RoaPdu(version, WITHDRAW, k)).Ok? <==> k in t.roas
  {
    hide PduKey, Be32, Be64;
    RoaPduRoundTrip(version, ANNOUNCE, k);
    RoaPduRoundTrip(version, WITHDRAW, k);
  }

  lemma {:induction false} AnnouncesOkIff(t: Version, version: uint8, s: seq<Roa>)
    requires DistinctGroups(ROA_KIND, s) && ValidKeys(KeySet(s))
    ensures ApplyAll(t, RoaPdus(version, ANNOUNCE, s)).Ok? <==> KeySet(s) !! t.roas
  {
    if s == [] {
    } else {
      var front, k := s[..|s| - 1], s[|s| - 1].Key();
      LastKey(s);
      AnnouncesOkIff(t, version, front);
      var ps := RoaPdus(version, ANNOUNCE, s);
      assert ps[..|ps| - 1] == RoaPdus(version, ANNOUNCE, front);
      if KeySet(front) !! t.roas {
        AnnouncesApply(t, version, front);
        ApplyOk(Version(t.roas + KeySet(front), t.aspas), version, k);
      }
    }
  }

  lemma {:induction false} WithdrawsOkIff(t: Version, version: uint8, s: seq<Roa>)
    requires DistinctGroups(ROA_KIND, s) && ValidKeys(KeySet(s))
    ensures ApplyAll(t, RoaPdus(version, WITHDRAW, s)).Ok? <==> KeySet(s) <= t.roas
  {
    if s == [] {
    } else {
      var front, k := s[..|s| - 1], s[|s| - 1].Key();
      LastKey(s);
      WithdrawsOkIff(t, version, front);
      var ps := RoaPdus(version, WITHDRAW, s);
      assert ps[..|ps| - 1] == RoaPdus(version, WITHDRAW, front);
      if KeySet(front) <= t.roas {
        WithdrawsApply(t, version, front);
        ApplyOk(Version(t.roas - KeySet(front), t.aspas), version, k);
      }
    }
  }

  lemma {:induction false} ErrorsStick(t: Version, ps: seq<Pdu>, qs: seq<Pdu>)
    requires ApplyAll(t, ps).Err?
    ensures ApplyAll(t, ps + qs).Err?
  {
    if qs == [] {
      assert ps + qs == ps;
    } else {
      assert (ps + qs)[..|ps + qs| - 1] == ps + qs[..|qs| - 1];
      ErrorsStick(t, ps, qs[..|qs| - 1]);
    }
  }

  lemma {:induction false} AspaWithdrawsOkIff(t: Version, version: uint8, s: seq<Aspa>)
    requires DistinctGroups(Aspas.ASPA_KIND, s)
    ensures ApplyAll(t, AspaPdus(version, WITHDRAW, s)).Ok? <==> Aspas.Customers(s) <= t.aspas.Keys
  {
    if s != [] {
      var n := |s| - 1;
      LastCustomer(s);
      LastCustomerIsNew(s);
      AspaWithdrawsOkIff(t, version, s[..n]);
      var ps := AspaPdus(version, WITHDRAW, s);
      assert ps[..|ps| - 1] == AspaPdus(version, WITHDRAW, s[..n]);
      if Aspas.Customers(s[..n]) <= t.aspas.Keys {
        AspaWithdrawsApply(t, version, s[..n]);
      }
    }
  }

  lemma AnnounceStageIff(version: uint8, t: Version, s: seq<Roa>, s': seq<Aspa>)
    requires DistinctGroups(ROA_KIND, s) && ValidKeys(KeySet(s))
    ensures ApplyAll(t, RoaPdus(version, ANNOUNCE, s) + AspaPdusFor(version, ANNOUNCE, s')).Ok? <==> KeySet(s) !! t.roas
  {
    AnnouncesOkIff(t, version, s);
    if KeySet(s) !! t.roas {
      AnnounceStage(version, t, s, s');
    } else {
      ErrorsStick(t, RoaPdus(version, ANNOUNCE, s), AspaPdusFor(version, ANNOUNCE, s'));
    }
  }

  lemma WithdrawStageIff(version: uint8, t: Version, s: seq<Roa>, s': seq<Aspa>)
    requires DistinctGroups(ROA_KIND, s) && ValidKeys(KeySet(s)) && DistinctGroups(Aspas.ASPA_KIND, s')
    ensures ApplyAll(t, RoaPdus(version, WITHDRAW, s) + AspaPdusFor(version, WITHDRAW, s')).Ok? <==>
              KeySet(s) <= t.roas && (version >= 2 ==> Aspas.Customers(s') <= t.aspas.Keys)
  {
    var a, b := RoaPdus(version, WITHDRAW, s), AspaPdusFor(version, WITHDRAW, s');
    WithdrawsOkIff(t, version, s);
    if KeySet(s) <= t.roas {
      WithdrawsApply(t, version, s);
      ApplyAllConcat(t, a, b);
      if version >= 2 {
        AspaWithdrawsOkIff(Version(t.roas - KeySet(s), t.aspas), version, s');
      }
    } else {
      ErrorsStick(t, a, b);
    }
  }

  /** The four lists of an answer name each item once. */
  ghost predicate EachOnce(p: Reply) {
    && DistinctGroups(ROA_KIND, p.add) && DistinctGroups(ROA_KIND, p.del)
    && DistinctGroups(Aspas.ASPA_KIND, p.addAspa) && DistinctGroups(Aspas.ASPA_KIND, p.delAspa)
  }

  /** Whether a router of any version takes a reply, and what it then holds, for any table it may have. */
  lemma ReplyOnAnyTable(version: uint8, t: Version, p: Reply)
    requires EachOnce(p) && ValidKeys(KeySet(p.add)) && ValidKeys(KeySet(p.del))
    ensures var out := ApplyAll(t, DiffPayload(version, p));
      && (out.Ok? <==>
            && KeySet(p.add) !! t.roas && KeySet(p.del) <= t.roas + KeySet(p.add)
            && (version >= 2 ==> Aspas.Customers(p.delAspa) <= t.aspas.Keys + Aspas.Customers(p.addAspa)))
      && (out.Ok? ==> out.value == Version(t.roas + KeySet(p.add) - KeySet(p.del),
                                           if version >= 2 then AspaOutcome(t.aspas, p) else t.aspas))
  {
    hide RoaPdus, AspaPdusFor;
    var front := RoaPdus(version, ANNOUNCE, p.add) + AspaPdusFor(version, ANNOUNCE, p.addAspa);
    var back := RoaPdus(version, WITHDRAW, p.del) + AspaPdusFor(version, WITHDRAW, p.delAspa);
    assert DiffPayload(version, p) == front + back;
    AnnounceStageIff(version, t, p.add, p.addAspa);
    if KeySet(p.add) !! t.roas {
      AnnounceStage(version, t, p.add, p.addAspa);
      ApplyAllConcat(t, front, back);
      AnnouncedKeys(t.aspas, p.addAspa);
      var u := Version(t.roas + KeySet(p.add), if version >= 2 then Announced(t.aspas, p.addAspa) else t.aspas);
      WithdrawStageIff(version, u, p.del, p.delAspa);
      if ApplyAll(u, back).Ok? {
        WithdrawStage(version, u, p.del, p.delAspa);
      }
    } else {
      ErrorsStick(t, front, back);
    }
  }

  /**
   * A Serial Query brings a router with table `t` to the current version without a protocol error if and only if `t`
   * has the ROAs of the version its serial labels and, for version 2, its ASPA customers, where customers that are
   * about to be announced do not matter. It brings the providers right too iff `ProvidersRight`. So the protocol has
   * no way back from a lagging serial but a Reset Query.
   */
  lemma QueryRightIff(version: uint8, t: Version, recs: seq<Record>, vs: seq<Version>, p: Reply)
    requires Chain(recs, vs) && IsReply(recs, p)
    requires ValidKeys(vs[0].roas) && ValidKeys(vs[|recs|].roas)
    ensures var v, w := vs[0], vs[|recs|];
      var out := ApplyAll(t, DiffPayload(version, p));
      var right := t.roas == v.roas && (version >= 2 ==> t.aspas.Keys - (w.aspas.Keys - v.aspas.Keys) == v.aspas.Keys);
      && (out.Ok? && Holds(version, out.value, w, false) <==> right)
      && (out.Ok? && Holds(version, out.value, w, true) <==>
            right && (version >= 2 ==> ProvidersRight(recs, t.aspas, v.aspas, w.aspas)))
  {
    hide Delta, DiffPayload, AspaOutcome, ProvidersRight;
    ReplyIsVersionDifference(recs, vs, p);
    ReplyOnAnyTable(version, t, p);
    AspaReplyOnAnyTable(recs, vs, t.aspas, p);
    RoasRightIff(t.roas, vs[0].roas, vs[|recs|].roas);
  }

  lemma RoasRightIff(t: set<RoaKey>, v: set<RoaKey>, w: set<RoaKey>)
    ensures t !! (w - v) && v - w <= t + (w - v) && t + (w - v) - (v - w) == w <==> t == v
  {
    if t == v {
      assert v + (w - v) - (v - w) == w;
    }
    if t !! (w - v) && v - w <= t + (w - v) && t + (w - v) - (v - w) == w {
      forall k ensures k in t <==> k in v {
        assert k in w <==> k in t + (w - v) - (v - w);
      }
    }
  }

  // ---------------------------------------------------------------- concrete runs

  const SAMPLE_ROA: Roa := Roa(RawPrefix(V4(0x0A00_0000), 8), 64500, 8, 0)

  lemma SampleLists()
    ensures Normal([], []) && Normal([SAMPLE_ROA], [])
    ensures View([], []) == Version({}, map[])
    ensures View([SAMPLE_ROA], []) == Version({SAMPLE_ROA.Key()}, map[])
  {
    assert KeySet([]) == {};
    assert KeySet([SAMPLE_ROA]) == {SAMPLE_ROA.Key()};
  }

  const EMPTY: Version := Version({}, map[])
  const FULL: Version := Version({SAMPLE_ROA.Key()}, map[])

  /** The caches of the run below: empty, with the ROA, and empty again. */
  function Cache0(session: uint16): CacheState { Fresh([], [], session) }
  function Cache1(session: uint16): CacheState { Refreshed(Cache0(session), [SAMPLE_ROA], []) }
  function Cache2(session: uint16): CacheState { Refreshed(Cache1(session), [], []) }

  const ANNOUNCED: Reply := Reply([SAMPLE_ROA], [], [], [])
  const NOTHING: Reply := Reply([], [], [], [])

  /** An empty cache and one version 1 router that knows nothing. */
  function StartWorld(session: uint16): World {
    World(Cache0(session), [EMPTY], map[0 := Router(1, EMPTY, session, None, Idle, 0, None, false, None)])
  }

  /** A Reset Query, a Serial Query with a refresh between its reads, another refresh, another Serial Query. */
  const STALE_STEPS: seq<Step> := [
    ResetRead(0), Deliver(0),
    FirstRead(0), Step.Refresh(Load([SAMPLE_ROA], [])), SecondRead(0, ANNOUNCED), Deliver(0),
    Step.Refresh(Load([], [])), FirstRead(0), SecondRead(0, NOTHING), Deliver(0)]

  /**
   * A ROA appears between the two reads and is withdrawn again by the next refresh. This is a run, and at its end the
   * router has the current serial, has seen no error, and still holds the withdrawn ROA: its table is older than
   * every version its serial could stand for. So the query before the last may not read two contents in
   * `LastQueryMayLead`.
   */
  lemma StaleSerialRun(session: uint16)
    ensures var w := StartWorld(session);
      && Init(w) && LegalRun(w, STALE_STEPS)
      && var w' := Exec(w, STALE_STEPS);
      && 0 in w'.routers && var r := w'.routers[0];
      && r.error.None?
      && r.tag == Some(w'.cache.serial)
      && r.tagAt == |w'.versions| - 1 == 2
      && View(w'.cache.roas, w'.cache.aspas) == w'.versions[2] == EMPTY
      && r.table.roas == w'.versions[1].roas == {SAMPLE_ROA.Key()}
      && !SameButLast(1, w'.versions, LogOf(w, STALE_STEPS, 0).committed)
  {
    hide Refreshed, Tracks, OnReset, OnFirstRead, OnSecondRead, OnDeliver, View, Known, Since, IsReply, Reaches;
    SampleLists();
    SampleTrace(session);
    SampleReplies(session);
    FullIsNotEmpty();
    var c0, c1, c2 := Cache0(session), Cache1(session), Cache2(session);
    var w := StartWorld(session);
    var r0 := w.routers[0];
    StartReached(session);
    ThenReset(w, [], c0, [EMPTY], r0);
    ResetOfRun(c0, r0);
    assert [] + [ResetRead(0)] == [ResetRead(0)] && [ResetRead(0)] + [Deliver(0)] == [ResetRead(0), Deliver(0)];
    ThenDeliver(w, [ResetRead(0)], c0, [EMPTY], OnReset(c0, 0, r0));
    var r1 := OnDeliver(OnReset(c0, 0, r0));
    FirstQueryOfRun(c0, c1, r1);
    assert Extended([EMPTY], FULL) == [EMPTY, FULL] && STALE_STEPS[2..6] ==
      [FirstRead(0), Step.Refresh(Load([SAMPLE_ROA], [])), SecondRead(0, ANNOUNCED), Deliver(0)];
    ThenQuery(w, [ResetRead(0), Deliver(0)], c0, [EMPTY], r1, Load([SAMPLE_ROA], []), ANNOUNCED);
    var r2 := OnDeliver(OnSecondRead(c1, [EMPTY, FULL], OnFirstRead(c0, 0, r1), ANNOUNCED));
    assert [ResetRead(0), Deliver(0)] + STALE_STEPS[2..6] == STALE_STEPS[..6];
    var r3 := LastLeg(w, session, r2);
    Arrived(w, STALE_STEPS, c2, [EMPTY, FULL, EMPTY], r3);
    assert View(c2.roas, c2.aspas) == EMPTY by { CurrentView(c2, [EMPTY, FULL, EMPTY]); }
    TraceSerial(c2, [EMPTY, FULL, EMPTY]);
    StaleIsTorn(w, STALE_STEPS, c2, r3);
  }

  lemma {:induction false} LastLeg(w: World, session: uint16, r: Router) returns (r': Router)
    requires Reaches(w, STALE_STEPS[..6], Cache1(session), [EMPTY, FULL], r)
    requires r.phase.Idle? && r.version == 1 && r.session == session && r.tag == Some(1)
    ensures Reaches(w, STALE_STEPS, Cache2(session), [EMPTY, FULL, EMPTY], r')
    ensures r'.table == r.table && r'.tag == Some(Cache2(session).serial) && r'.tagAt == 2
    ensures r'.error == r.error && r'.session == session && r'.version == 1
  {
    hide Refreshed, Tracks, OnReset, OnFirstRead, OnSecondRead, OnDeliver, View, Known, Since, IsReply, Reaches;
    SampleLists();
    SampleTrace(session);
    SampleReplies(session);
    FullIsNotEmpty();
    var c, vs := Cache2(session), [EMPTY, FULL, EMPTY];
    assert Extended([EMPTY, FULL], EMPTY) == vs;
    ThenRefresh(w, STALE_STEPS[..6], Cache1(session), [EMPTY, FULL], r, Load([], []));
    assert STALE_STEPS[..6] + [Step.Refresh(Load([], []))] == STALE_STEPS[..7];
    SecondQueryOfRun(c, r);
    ThenFirst(w, STALE_STEPS[..7], c, vs, r);
    assert STALE_STEPS[..7] + [FirstRead(0)] == STALE_STEPS[..8];
    ThenSecond(w, STALE_STEPS[..8], c, vs, OnFirstRead(c, 2, r), NOTHING);
    assert STALE_STEPS[..8] + [SecondRead(0, NOTHING)] == STALE_STEPS[..9];
    ThenDeliver(w, STALE_STEPS[..9], c, vs, OnSecondRead(c, vs, OnFirstRead(c, 2, r), NOTHING));
    assert STALE_STEPS[..9] + [Deliver(0)] == STALE_STEPS;
    r' := OnDeliver(OnSecondRead(c, vs, OnFirstRead(c, 2, r), NOTHING));
  }

  lemma {:induction false} Arrived(w: World, steps: seq<Step>, c: CacheState, vs: seq<Version>, r: Router)
    requires Reaches(w, steps, c, vs, r)
    ensures LegalRun(w, steps) && Exec(w, steps) == World(c, vs, map[0 := r])
  {
  }

  /** The run gets to the cache `c` with trace `vs` and the one router `r`. */
  ghost predicate Reaches(w: World, steps: seq<Step>, c: CacheState, vs: seq<Version>, r: Router) {
    LegalRun(w, steps) && Exec(w, steps) == World(c, vs, map[0 := r])
  }

  lemma {:induction false} Then(w: World, steps: seq<Step>, s: Step)
    requires LegalRun(w, steps)
    requires var u := Exec(w, steps); |u.versions| > 0 && Enabled(u, s) && WithinCycle(u, s)
    ensures LegalRun(w, steps + [s]) && Exec(w, steps + [s]) == Do(Exec(w, steps), s)
  {
    assert (steps + [s])[..|steps + [s]| - 1] == steps;
  }

  lemma {:induction false} ThenRefresh(w: World, steps: seq<Step>, c: CacheState, vs: seq<Version>, r: Router, l: Load)
    requires Reaches(w, steps, c, vs, r) && |vs| > 0 && Normal(l.roas, l.aspas)
    ensures Reaches(w, steps + [Step.Refresh(l)], Refreshed(c, l.roas, l.aspas), Extended(vs, View(l.roas, l.aspas)), r)
  {
    Then(w, steps, Step.Refresh(l));
  }

  lemma {:induction false} ThenReset(w: World, steps: seq<Step>, c: CacheState, vs: seq<Version>, r: Router)
    requires Reaches(w, steps, c, vs, r) && |vs| > 0 && r.phase.Idle?
    ensures Reaches(w, steps + [ResetRead(0)], c, vs, OnReset(c, |vs| - 1, r))
  {
    hide OnReset, OnFirstRead, OnSecondRead, OnDeliver, Refreshed, Known, Since, IsReply, SerialOf;
    Then(w, steps, ResetRead(0));
  }

  lemma {:induction false} ThenFirst(w: World, steps: seq<Step>, c: CacheState, vs: seq<Version>, r: Router)
    requires Reaches(w, steps, c, vs, r) && |vs| > 0 && r.phase.Idle? && r.tag.Some?
    ensures Reaches(w, steps + [FirstRead(0)], c, vs, OnFirstRead(c, |vs| - 1, r))
  {
    hide OnReset, OnFirstRead, OnSecondRead, OnDeliver, Refreshed, Known, Since, IsReply, SerialOf;
    Then(w, steps, FirstRead(0));
  }

  lemma {:induction false} ThenSecond(w: World, steps: seq<Step>, c: CacheState, vs: seq<Version>, r: Router, p: Reply)
    requires Reaches(w, steps, c, vs, r) && 0 < |vs| <= TWO_32 && r.phase.Between?
    requires Known(c, r.phase.q) && IsReply(Since(c, r.phase.q), p)
    ensures Reaches(w, steps + [SecondRead(0, p)], c, vs, OnSecondRead(c, vs, r, p))
  {
    hide OnReset, OnFirstRead, OnSecondRead, OnDeliver, Refreshed, Known, Since, IsReply, SerialOf;
    Then(w, steps, SecondRead(0, p));
  }

  lemma {:induction false} ThenDeliver(w: World, steps: seq<Step>, c: CacheState, vs: seq<Version>, r: Router)
    requires Reaches(w, steps, c, vs, r) && |vs| > 0 && r.phase.Sending?
    ensures Reaches(w, steps + [Deliver(0)], c, vs, OnDeliver(r))
  {
    hide OnReset, OnFirstRead, OnSecondRead, OnDeliver, Refreshed, Known, Since, IsReply, SerialOf;
    Then(w, steps, Deliver(0));
  }

  /** A Serial Query with the refresh `l` between its two reads. */
  lemma {:induction false} ThenQuery(w: World, steps: seq<Step>, c: CacheState, vs: seq<Version>,
                                     r: Router, l: Load, p: Reply)
    requires Reaches(w, steps, c, vs, r) && 0 < |vs| < TWO_32 && Normal(l.roas, l.aspas)
    requires r.phase.Idle? && r.tag.Some? && OnFirstRead(c, |vs| - 1, r).phase.Between?
    requires var c' := Refreshed(c, l.roas, l.aspas);
      Known(c', r.tag.value) && IsReply(Since(c', r.tag.value), p)
    ensures var c', vs' := Refreshed(c, l.roas, l.aspas), Extended(vs, View(l.roas, l.aspas));
      var r' := OnSecondRead(c', vs', OnFirstRead(c, |vs| - 1, r), p);
      && r'.phase.Sending?
      && Reaches(w, steps + [FirstRead(0), Step.Refresh(l), SecondRead(0, p), Deliver(0)], c', vs', OnDeliver(r'))
  {
    hide Refreshed, OnDeliver, View, Known, Since, IsReply, Reaches, AspaFaithful;
    var c', vs' := Refreshed(c, l.roas, l.aspas), Extended(vs, View(l.roas, l.aspas));
    var r1 := OnFirstRead(c, |vs| - 1, r);
    var r2 := OnSecondRead(c', vs', r1, p);
    var s1 := steps + [FirstRead(0)];
    var s2 := s1 + [Step.Refresh(l)];
    var s3 := s2 + [SecondRead(0, p)];
    ThenFirst(w, steps, c, vs, r);
    ThenRefresh(w, s1, c, vs, r1, l);
    ThenSecond(w, s2, c', vs', r1, p);
    ThenDeliver(w, s3, c', vs', r2);
    assert s3 + [Deliver(0)] == steps + [FirstRead(0), Step.Refresh(l), SecondRead(0, p), Deliver(0)];
  }

  lemma StartReached(session: uint16)
    ensures Init(StartWorld(session))
    ensures Reaches(StartWorld(session), [], Cache0(session), [EMPTY], StartWorld(session).routers[0])
  {
    SampleTrace(session);
  }

  lemma {:induction false} StaleIsTorn(w: World, steps: seq<Step>, c: CacheState, r: Router)
    requires Init(w) && Reaches(w, steps, c, [EMPTY, FULL, EMPTY], r) && 0 in w.routers
    requires r.tag == Some(3) && r.session == w.cache.session && r.table.roas == FULL.roas
    ensures !SameButLast(r.version, [EMPTY, FULL, EMPTY], LogOf(w, steps, 0).committed)
  {
    hide Init, SameButLast, LogOf;
    LastQueryMayLead(w, steps, 0);
    FullIsNotEmpty();
  }

  const BACK_STEPS: seq<Step> := [
    ResetRead(0), Deliver(0),
    FirstRead(0), Step.Refresh(Load([SAMPLE_ROA], [])), Step.Refresh(Load([], [])), SecondRead(0, NOTHING), Deliver(0)]

  /**
   * A ROA appears and is withdrawn again between the two reads of one Serial Query. The reads see the serials 1 and 3,
   * and the router, tagged with serial 1, still holds exactly what version 0 holds: what matters is the content read.
   */
  lemma ThereAndBack(session: uint16)
    ensures var w := StartWorld(session);
      && Init(w) && LegalRun(w, BACK_STEPS)
      && var w' := Exec(w, BACK_STEPS);
      && 0 in w'.routers && var r := w'.routers[0];
      && r.error.None?
      && r.tag == Some(1) && w'.cache.serial == 3
      && w'.versions == [EMPTY, FULL, EMPTY]
      && Holds(r.version, r.table, w'.versions[0], false)
  {
    hide Refreshed, Tracks, OnReset, OnFirstRead, OnSecondRead, OnDeliver, View, Known, Since, IsReply, Reaches;
    SampleLists();
    SampleTrace(session);
    SampleReplies(session);
    FullIsNotEmpty();
    var c0, c1, c2 := Cache0(session), Cache1(session), Cache2(session);
    TraceSerial(c2, [EMPTY, FULL, EMPTY]);
    var w := StartWorld(session);
    var r0 := w.routers[0];
    StartReached(session);
    ResetOfRun(c0, r0);
    ThenReset(w, [], c0, [EMPTY], r0);
    ThenDeliver(w, [] + [ResetRead(0)], c0, [EMPTY], OnReset(c0, 0, r0));
    var r1 := OnDeliver(OnReset(c0, 0, r0));
    assert [] + [ResetRead(0)] + [Deliver(0)] == BACK_STEPS[..2];
    assert Extended([EMPTY], FULL) == [EMPTY, FULL] && Extended([EMPTY, FULL], EMPTY) == [EMPTY, FULL, EMPTY];
    BackLeg(w, session, r1);
  }

  lemma {:induction false} BackLeg(w: World, session: uint16, r: Router)
    requires Reaches(w, BACK_STEPS[..2], Cache0(session), [EMPTY], r)
    requires r.phase.Idle? && r.version == 1 && r.session == session && r.tag == Some(1) && r.table == EMPTY
    ensures LegalRun(w, BACK_STEPS)
    ensures var w' := Exec(w, BACK_STEPS);
      && w'.cache == Cache2(session) && w'.versions == [EMPTY, FULL, EMPTY]
      && 0 in w'.routers && var r' := w'.routers[0];
      r'.table == EMPTY && r'.tag == Some(1) && r'.error == r.error && r'.version == 1
  {
    hide Refreshed, Tracks, OnReset, OnFirstRead, OnSecondRead, OnDeliver, View, Known, Since, IsReply, Reaches;
    SampleLists();
    SampleTrace(session);
    SampleReplies(session);
    FullIsNotEmpty();
    var c0, c1, c2 := Cache0(session), Cache1(session), Cache2(session);
    var vs := [EMPTY, FULL, EMPTY];
    NothingBetween(c0, c2, vs, r);
    var r1 := OnFirstRead(c0, 0, r);
    var r2 := OnSecondRead(c2, vs, r1, NOTHING);
    ThenFirst(w, BACK_STEPS[..2], c0, [EMPTY], r);
    assert BACK_STEPS[..2] + [FirstRead(0)] == BACK_STEPS[..3];
    assert Extended([EMPTY], FULL) == [EMPTY, FULL] && Extended([EMPTY, FULL], EMPTY) == vs;
    ThenRefresh(w, BACK_STEPS[..3], c0, [EMPTY], r1, Load([SAMPLE_ROA], []));
    assert BACK_STEPS[..3] + [Step.Refresh(Load([SAMPLE_ROA], []))] == BACK_STEPS[..4];
    ThenRefresh(w, BACK_STEPS[..4], c1, [EMPTY, FULL], r1, Load([], []));
    assert BACK_STEPS[..4] + [Step.Refresh(Load([], []))] == BACK_STEPS[..5];
    ThenSecond(w, BACK_STEPS[..5], c2, vs, r1, NOTHING);
    assert BACK_STEPS[..5] + [SecondRead(0, NOTHING)] == BACK_STEPS[..6];
    ThenDeliver(w, BACK_STEPS[..6], c2, vs, r2);
    assert BACK_STEPS[..6] + [Deliver(0)] == BACK_STEPS;
    Arrived(w, BACK_STEPS, c2, vs, OnDeliver(r2));
  }

  lemma NothingBetween(c: CacheState, c': CacheState, vs: seq<Version>, r: Router)
    requires Known(c', 1) && c.session == r.session && c.serial == 1 && r.version == 1 && r.tag == Some(1) && |vs| > 0
    ensures var r1 := OnFirstRead(c, 0, r);
      && r1.phase.Between? && r1.phase.q == 1
      && var r2 := OnSecondRead(c', vs, r1, NOTHING);
      && r2.phase.Sending?
      && var r3 := OnDeliver(r2);
      r3.table == r.table && r3.tag == Some(1) && r3.error == r.error && r3.version == 1
  {
    hide AspaFaithful, Holds;
    assert DiffPayload(1, NOTHING) == [];
    ReceiveBlock(r.table, false, 1, c'.session, 1, []);
  }

  lemma CurrentView(c: CacheState, vs: seq<Version>)
    requires Tracks(c, vs)
    ensures View(c.roas, c.aspas) == vs[|vs| - 1]
  {
  }

  lemma FullIsNotEmpty()
    ensures FULL != EMPTY
  {
    assert SAMPLE_ROA.Key() in FULL.roas;
  }

  lemma SampleTrace(session: uint16)
    ensures Tracks(Cache0(session), [EMPTY]) && Tracks(Cache1(session), [EMPTY, FULL])
    ensures Tracks(Cache2(session), [EMPTY, FULL, EMPTY])
    ensures Cache1(session).session == Cache2(session).session == session
  {
    SampleLists();
    FullIsNotEmpty();
    FreshTracks([], [], session);
    RefreshTracks(Cache0(session), [EMPTY], [SAMPLE_ROA], []);
    assert [EMPTY] + [FULL] == [EMPTY, FULL];
    RefreshTracks(Cache1(session), [EMPTY, FULL], [], []);
    assert [EMPTY, FULL] + [EMPTY] == [EMPTY, FULL, EMPTY];
  }

  lemma SampleReplies(session: uint16)
    ensures Known(Cache1(session), 1) && IsReply(Since(Cache1(session), 1), ANNOUNCED)
    ensures Known(Cache2(session), 1) && IsReply(Since(Cache2(session), 1), NOTHING)
  {
    SampleTrace(session);
    NoAspaReply(Cache1(session), [EMPTY, FULL], ANNOUNCED);
    NoAspaReply(Cache2(session), [EMPTY, FULL, EMPTY], NOTHING);
  }

  lemma NoAspaReply(c: CacheState, vs: seq<Version>, p: Reply)
    requires Tracks(c, vs) && |vs| <= MAX_HISTORY && p.addAspa == p.delAspa == []
    requires DistinctGroups(ROA_KIND, p.add) && DistinctGroups(ROA_KIND, p.del)
    requires KeySet(p.add) == vs[|vs| - 1].roas - vs[0].roas && KeySet(p.del) == vs[0].roas - vs[|vs| - 1].roas
    requires vs[0].aspas.Keys == vs[|vs| - 1].aspas.Keys
    ensures Known(c, 1) && IsReply(Since(c, 1), p)
  {
    hide Delta, Known, Since, IsReply;
    SinceChains(c, vs, 0);
    assert vs[0..] == vs;
    NoCustomers([]);
    DifferenceIsReply(Since(c, 1), vs, p);
  }

  lemma ResetOfRun(c: CacheState, r: Router)
    requires c.roas == [] && c.aspas == [] && c.serial == 1 && r.version == 1
    ensures OnReset(c, 0, r).phase.Sending?
    ensures var r' := OnDeliver(OnReset(c, 0, r));
      && r'.table == EMPTY && r'.session == c.session && r'.tag == Some(1) && r'.tagAt == 0
      && r'.phase.Idle? && r'.error == r.error && r'.version == 1
  {
    assert FullPayload(1, [], []) == [];
    ReceiveBlock(r.table, true, 1, c.session, 1, []);
  }

  lemma FirstQueryOfRun(c0: CacheState, c1: CacheState, r: Router)
    requires Tracks(c1, [EMPTY, FULL]) && Known(c1, 1) && IsReply(Since(c1, 1), ANNOUNCED)
    requires c0.session == c1.session == r.session && c0.serial == 1
    requires r.version == 1 && r.tag == Some(1) && r.table == EMPTY
    ensures var r1 := OnFirstRead(c0, 0, r);
      && r1.phase.Between? && r1.phase.q == 1
      && var r2 := OnSecondRead(c1, [EMPTY, FULL], r1, ANNOUNCED);
      && r2.phase.Sending?
      && var r3 := OnDeliver(r2);
      && r3.table.roas == FULL.roas && r3.session == c1.session && r3.tag == Some(1) && r3.tagAt == 0
      && r3.phase.Idle? && r3.error == r.error && r3.version == 1
  {
    hide Delta, IsReply, Known, Since, AspaFaithful, DiffPayload;
    var vs := [EMPTY, FULL];
    SinceChains(c1, vs, 0);
    assert vs[0..] == vs;
    ReplyApplies(1, EMPTY, Since(c1, 1), vs, ANNOUNCED);
    ReceiveBlock(EMPTY, false, 1, c1.session, 1, DiffPayload(1, ANNOUNCED));
  }

  lemma SecondQueryOfRun(c: CacheState, r: Router)
    requires Known(c, 1) && c.session == r.session && r.version == 1 && r.tag == Some(1)
    ensures var r1 := OnFirstRead(c, 2, r);
      && r1.phase.Between? && r1.phase.q == 1
      && var r2 := OnSecondRead(c, [EMPTY, FULL, EMPTY], r1, NOTHING);
      && r2.phase.Sending?
      && var r3 := OnDeliver(r2);
      && r3.table == r.table && r3.tag == Some(c.serial) && r3.tagAt == 2
      && r3.error == r.error && r3.session == c.session && r3.version == 1
  {
    hide AspaFaithful;
    assert DiffPayload(1, NOTHING) == [];
    ReceiveBlock(r.table, false, 1, c.session, c.serial, []);
  }


  /**
   * A customer whose providers change from [1] to [2] nets to zero: the only answer to a Serial Query for the change
   * says nothing, and a table with the old providers stays as it is.
   */
  lemma ProviderChangeIsLost(session: uint16, p: Reply)
    ensures var before, after := map[65000 := [1]], map[65000 := [2]];
      var c := Refreshed(Fresh([], [Aspas.Aspa(65000, [1], 0)], session), [], [Aspas.Aspa(65000, [2], 0)]);
      && c.serial == 2 && View(c.roas, c.aspas).aspas == after
      && Known(c, 1) && (IsReply(Since(c, 1), p) <==> p == NOTHING)
      && AspaOutcome(before, NOTHING) == before != after
  {
    hide Known, Since, IsReply;
    SampleTables();
    SampleAspaTrace(session);
    var x, y := Aspas.Aspa(65000, [1], 0), Aspas.Aspa(65000, [2], 0);
    var c := Refreshed(Fresh([], [x], session), [], [y]);
    var vs := [View([], [x]), View([], [y])];
    assert vs[0].aspas.Keys == {65000} == vs[1].aspas.Keys;
    EmptyKeySet([]);
    NoAspaReply(c, vs, NOTHING);
    UnmentionedCustomers(c, vs, p);
    assert AspaOutcome(vs[0].aspas, NOTHING) == vs[0].aspas by { NoCustomers([]); }
  }

  lemma SampleAspaTrace(session: uint16)
    ensures var x, y := Aspas.Aspa(65000, [1], 0), Aspas.Aspa(65000, [2], 0);
      Tracks(Refreshed(Fresh([], [x], session), [], [y]), [View([], [x]), View([], [y])])
  {
    SampleTables();
    var x, y := Aspas.Aspa(65000, [1], 0), Aspas.Aspa(65000, [2], 0);
    var v, w := View([], [x]), View([], [y]);
    FreshTracks([], [x], session);
    RefreshTracks(Fresh([], [x], session), [v], [], [y]);
    assert [v] + [w] == [v, w];
  }

  lemma SampleTables()
    ensures View([], [Aspas.Aspa(65000, [1], 0)]) == Version({}, map[65000 := [1]])
    ensures View([], [Aspas.Aspa(65000, [2], 0)]) == Version({}, map[65000 := [2]])
    ensures map[65000 := [1]] != map[65000 := [2]]
  {
    assert KeySet([]) == {};
    assert map[65000 := [1]][65000] == [1] && map[65000 := [2]][65000] == [2] && [1][0] != [2][0];
  }

  lemma UnmentionedCustomers(c: CacheState, vs: seq<Version>, p: Reply)
    requires Tracks(c, vs) && |vs| <= MAX_HISTORY && Known(c, 1) && IsReply(Since(c, 1), NOTHING)
    requires vs[0].roas == vs[|vs| - 1].roas && vs[0].aspas.Keys == vs[|vs| - 1].aspas.Keys
    ensures IsReply(Since(c, 1), p) <==> p == NOTHING
  {
    hide Delta, Known, Since, IsReply;
    if IsReply(Since(c, 1), p) {
      SinceChains(c, vs, 0);
      assert vs[0..] == vs;
      ReplyIsVersionDifference(Since(c, 1), vs, p);
      EmptyKeySet(p.add);
      EmptyKeySet(p.del);
      NoCustomers(p.addAspa);
      NoCustomers(p.delAspa);
    }
  }
}
