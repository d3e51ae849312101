/**
 * Whole runs of one cache and any number of routers, as interleaved steps. A Serial Query takes two steps,
 * because its handler reads the cache under two separate locks.
 */
module Runs {
  import opened Words
  import opened Roas
  import opened History
  import opened Aggregation
  import opened Pdus
  import opened Routers

  /**
   * Where a router's exchange stands.
   *   Idle       nothing in flight
   *   MustReset  a Cache Reset was received
   *   Between    the handler has read serial `serial` (version `at`), not yet the diffs since `q`
   *   Sending    the handler has built `block`
   * `tagAt` and `dataAt` are history variables: the versions the block's serial and its contents belong to.
   */
  datatype Phase =
    | Idle
    | MustReset
    | Between(q: uint32, serial: uint32, at: nat)
    | Sending(blank: bool, block: seq<Pdu>, tagAt: nat, dataAt: Option<nat>, exact: bool)

  /**
   * A router and its connection. History variables: `tagAt` is the version its serial labels; `dataAt`, when
   * known, the version its table holds; `exact`, whether its ASPA providers are known to be those of `dataAt`.
   */
  datatype Router = Router(
    version: uint8, table: Version, session: uint16, tag: Option<uint32>, phase: Phase,
    tagAt: nat, dataAt: Option<nat>, exact: bool, error: Option<uint16>)

  datatype World = World(cache: CacheState, versions: seq<Version>, routers: map<nat, Router>)

  datatype Step =
    | Refresh(load: Load)
    | ResetRead(id: nat)
    | FirstRead(id: nat)
    | SecondRead(id: nat, reply: Reply)
    | Deliver(id: nat)
    | Drop(id: nat)

  // ---------------------------------------------------------------- the steps

  /** A Reset Query: one locked read of everything. */
  function OnReset(c: CacheState, n: nat, r: Router): Router {
    r.(phase := Sending(true, DataBlock(r.version, c.session, c.serial, FullPayload(r.version, c.roas, c.aspas)),
                        n, Some(n), true))
  }

  /** The first half of `handleSerialQuery`: read the state, check session and serial 0. */
  function OnFirstRead(c: CacheState, n: nat, r: Router): Router
    requires r.tag.Some?
  {
    if r.session != c.session || r.tag.value == 0 then r.(phase := MustReset)
    else r.(phase := Between(r.tag.value, c.serial, n))
  }

  /** The second half: read the diffs, and label the block with the serial of the first half. */
  ghost function OnSecondRead(c: CacheState, vs: seq<Version>, r: Router, p: Reply): Router
    requires r.phase.Between? && |vs| > 0
  {
    var Between(q, serial, at) := r.phase;
    if !Known(c, q) then r.(phase := MustReset)
    else
      var n := |vs| - 1;
      var block := DataBlock(r.version, c.session, serial, DiffPayload(r.version, p));
      var known := Labelled(vs, r, false);
      r.(phase := Sending(false, block, at,
                          if known then Some(n) else None,
                          known && StartExact(vs, r) && AspaFaithful(Since(c, q), vs[r.tagAt].aspas, vs[n].aspas)))
  }

  /** The table is known, and has the content of the version the serial labels; with `exact`, its providers too. */
  ghost predicate Labelled(vs: seq<Version>, r: Router, exact: bool) {
    && r.dataAt.Some? && r.dataAt.value < |vs| && r.tagAt < |vs|
    && Holds(r.version, vs[r.dataAt.value], vs[r.tagAt], exact)
  }

  ghost predicate StartExact(vs: seq<Version>, r: Router) {
    r.exact && Labelled(vs, r, true)
  }

  /** End of Data commits the block; an error makes the router start over. */
  function OnDeliver(r: Router): Router
    requires r.phase.Sending?
  {
    match Receive(r.table, r.phase.blank, r.phase.block)
    case Ok(c) => r.(table := c.table, session := c.session, tag := Some(c.serial), phase := Idle,
                     tagAt := r.phase.tagAt, dataAt := r.phase.dataAt, exact := r.phase.exact)
    case Err(e) => r.(tag := None, phase := Idle, dataAt := None, exact := false, error := Some(e))
  }

  ghost predicate Enabled(w: World, s: Step) {
    if s.Refresh? then Normal(s.load.roas, s.load.aspas)
    else s.id in w.routers && var r := w.routers[s.id];
      match s
      case ResetRead(_) => r.phase.Idle? || r.phase.MustReset?
      case FirstRead(_) => r.phase.Idle? && r.tag.Some?
      case SecondRead(_, p) =>
        && r.phase.Between?
        && (Known(w.cache, r.phase.q) ==> IsReply(Since(w.cache, r.phase.q), p))
      case Deliver(_) => r.phase.Sending?
      case Drop(_) => true
  }

  ghost function Do(w: World, s: Step): World
    requires Enabled(w, s) && |w.versions| > 0
  {
    var n := |w.versions| - 1;
    match s
    case Refresh(l) => w.(cache := Refreshed(w.cache, l.roas, l.aspas), versions := Extended(w.versions, View(l.roas, l.aspas)))
    case ResetRead(id) => w.(routers := w.routers[id := OnReset(w.cache, n, w.routers[id])])
    case FirstRead(id) => w.(routers := w.routers[id := OnFirstRead(w.cache, n, w.routers[id])])
    case SecondRead(id, p) => w.(routers := w.routers[id := OnSecondRead(w.cache, w.versions, w.routers[id], p)])
    case Deliver(id) => w.(routers := w.routers[id := OnDeliver(w.routers[id])])
    case Drop(id) => w.(routers := w.routers[id := w.routers[id].(phase := Idle)])
  }

  /** No router asks for diffs across a whole serial cycle. */
  ghost predicate WithinCycle(w: World, s: Step)
    requires Enabled(w, s)
  {
    s.SecondRead? ==> |w.versions| - 1 < w.routers[s.id].tagAt + TWO_32
  }

  /** Both locked reads of a Serial Query see the same serial. */
  ghost predicate Atomic(w: World, s: Step)
    requires Enabled(w, s)
  {
    s.SecondRead? ==> w.routers[s.id].phase.serial == w.cache.serial
  }

  /** The ASPA part of a reply is one that cancellation by customer gets right. */
  ghost predicate Faithful(w: World, s: Step)
    requires Enabled(w, s)
  {
    s.SecondRead? ==> var r := w.routers[s.id];
      Known(w.cache, r.phase.q) && r.tagAt < |w.versions| ==>
        AspaFaithful(Since(w.cache, r.phase.q), w.versions[r.tagAt].aspas, w.versions[|w.versions| - 1].aspas)
  }

  // ---------------------------------------------------------------- the invariant

  /** What the router committed last, if it belongs to this session. */
  ghost predicate CommittedInv(session: uint16, vs: seq<Version>, r: Router) {
    r.tag.Some? && r.session == session ==>
      && r.tagAt < |vs|
      && r.tag.value == SerialOf(r.tagAt)
      && (r.dataAt.Some? ==>
            && r.tagAt <= r.dataAt.value < |vs|
            && Holds(r.version, r.table, vs[r.dataAt.value], r.exact))
  }

  /** What a block will do to the router it is being sent to. */
  ghost predicate SendingInv(session: uint16, vs: seq<Version>, r: Router)
    requires r.phase.Sending?
  {
    var Sending(blank, block, tagAt, dataAt, exact) := r.phase;
    var outcome := Receive(r.table, blank, block);
    && tagAt < |vs|
    && (outcome.Ok? ==> outcome.value.session == session && outcome.value.serial == SerialOf(tagAt))
    && (dataAt.Some? ==>
          && tagAt <= dataAt.value < |vs|
          && outcome.Ok?
          && Holds(r.version, outcome.value.table, vs[dataAt.value], exact))
  }

  ghost predicate RouterInv(session: uint16, vs: seq<Version>, r: Router) {
    && CommittedInv(session, vs, r)
    && match r.phase
       case Between(q, serial, at) =>
         && r.tag == Some(q) && r.session == session
         && r.tagAt <= at < |vs| && serial == SerialOf(at)
       case Sending(_, _, _, _, _) => SendingInv(session, vs, r)
       case _ => true
  }

  ghost predicate Inv(w: World) {
    && Tracks(w.cache, w.versions)
    && forall id | id in w.routers :: RouterInv(w.cache.session, w.versions, w.routers[id])
  }

  lemma RouterInvGrows(session: uint16, vs: seq<Version>, vs': seq<Version>, r: Router)
    requires RouterInv(session, vs, r) && vs <= vs'
    ensures RouterInv(session, vs', r)
  {
    assert forall i | 0 <= i < |vs| :: vs'[i] == vs[i];
  }

  lemma OnResetInv(c: CacheState, vs: seq<Version>, r: Router)
    requires Tracks(c, vs) && RouterInv(c.session, vs, r)
    ensures RouterInv(c.session, vs, OnReset(c, |vs| - 1, r))
  {
    hide Describes;
    FullDataApplies(r.version, c.roas, c.aspas);
    ReceiveBlock(r.table, true, r.version, c.session, c.serial, FullPayload(r.version, c.roas, c.aspas));
  }

  lemma OnFirstReadInv(c: CacheState, vs: seq<Version>, r: Router)
    requires Tracks(c, vs) && RouterInv(c.session, vs, r) && r.tag.Some?
    ensures RouterInv(c.session, vs, OnFirstRead(c, |vs| - 1, r))
  {
  }

  /** The records since a version in the window lead from it to the current one. */
  lemma SinceChains(c: CacheState, vs: seq<Version>, m: nat)
    requires Tracks(c, vs) && m < |vs| <= m + TWO_32
    ensures Known(c, SerialOf(m)) <==> |vs| - 1 - m <= |c.history|
    ensures Known(c, SerialOf(m)) ==> Chain(Since(c, SerialOf(m)), vs[m..])
  {
    hide Chain, Known, Since;
    LagOf(|vs| - 1, m);
    KnownIffInWindow(c, vs, SerialOf(m));
    if Known(c, SerialOf(m)) {
      WindowChains(c, vs, SerialOf(m));
    }
  }

  lemma OnSecondReadInv(c: CacheState, vs: seq<Version>, r: Router, p: Reply)
    requires Tracks(c, vs) && RouterInv(c.session, vs, r) && r.phase.Between?
    requires |vs| <= r.tagAt + TWO_32
    requires Known(c, r.phase.q) ==> IsReply(Since(c, r.phase.q), p)
    ensures RouterInv(c.session, vs, OnSecondRead(c, vs, r, p))
  {
    if Known(c, r.phase.q) {
      if Labelled(vs, r, false) {
        SecondReadOutcome(c, vs, r, StartExact(vs, r), p);
      }
      SecondReadSends(c, vs, r, p);
    }
  }

  lemma SecondReadSends(c: CacheState, vs: seq<Version>, r: Router, p: Reply)
    requires r.phase.Between? && Known(c, r.phase.q)
    requires r.tagAt <= r.phase.at < |vs| && r.phase.serial == SerialOf(r.phase.at)
    requires Labelled(vs, r, false) ==>
      var out := ApplyAll(r.table, DiffPayload(r.version, p));
      var n := |vs| - 1;
      var faithful := AspaFaithful(Since(c, r.phase.q), vs[r.tagAt].aspas, vs[n].aspas);
      out.Ok? && Holds(r.version, out.value, vs[n], StartExact(vs, r) && faithful)
    ensures SendingInv(c.session, vs, OnSecondRead(c, vs, r, p))
  {
    hide Labelled, StartExact, AspaFaithful, Holds;
    ReceiveBlock(r.table, false, r.version, c.session, r.phase.serial, DiffPayload(r.version, p));
  }

  /** A router whose table has the content its serial labels moves to the version of the second read. */
  lemma SecondReadOutcome(c: CacheState, vs: seq<Version>, r: Router, exact: bool, p: Reply)
    requires Tracks(c, vs) && CommittedInv(c.session, vs, r) && r.tag.Some? && r.session == c.session
    requires |vs| <= r.tagAt + TWO_32 && Labelled(vs, r, false) && (exact ==> StartExact(vs, r))
    requires Known(c, r.tag.value) && IsReply(Since(c, r.tag.value), p)
    ensures var recs := Since(c, r.tag.value);
      var n := |vs| - 1;
      var out := ApplyAll(r.table, DiffPayload(r.version, p));
      && out.Ok?
      && Holds(r.version, out.value, vs[n], exact && AspaFaithful(recs, vs[r.tagAt].aspas, vs[n].aspas))
  {
    hide Delta, IsReply, Known, Since, DiffPayload;
    assert Holds(r.version, r.table, vs[r.tagAt], exact);
    var m := r.tagAt;
    var recs := Since(c, r.tag.value);
    SinceChains(c, vs, m);
    var tail := vs[m..];
    assert tail[0] == vs[m] && tail[|recs|] == vs[|vs| - 1];
    assert ValidKeys(vs[m].roas) && ValidKeys(vs[|vs| - 1].roas);
    ReplyApplies(r.version, r.table, recs, tail, p);
    AspaReplyRebuildsIff(recs, tail, p);
  }

  lemma OnDeliverInv(session: uint16, vs: seq<Version>, r: Router)
    requires RouterInv(session, vs, r) && r.phase.Sending?
    ensures RouterInv(session, vs, OnDeliver(r))
  {
  }

  /** Every step keeps the invariant, whatever falls between the two reads of a Serial Query. */
  lemma StepInv(w: World, s: Step)
    requires Inv(w) && Enabled(w, s) && WithinCycle(w, s)
    ensures Inv(Do(w, s))
  {
    match s {
      case Refresh(l) =>
        RefreshTracks(w.cache, w.versions, l.roas, l.aspas);
        var w' := Do(w, s);
        forall id | id in w'.routers ensures RouterInv(w'.cache.session, w'.versions, w'.routers[id]) {
          RouterInvGrows(w.cache.session, w.versions, w'.versions, w.routers[id]);
        }
      case ResetRead(id) => OnResetInv(w.cache, w.versions, w.routers[id]);
      case FirstRead(id) => OnFirstReadInv(w.cache, w.versions, w.routers[id]);
      case SecondRead(id, p) => OnSecondReadInv(w.cache, w.versions, w.routers[id], p);
      case Deliver(id) => OnDeliverInv(w.cache.session, w.versions, w.routers[id]);
      case Drop(id) =>
    }
  }

  // ---------------------------------------------------------------- whole runs

  /** Routers start with no data, or with data of another session. */
  ghost predicate Init(w: World) {
    && Tracks(w.cache, w.versions)
    && forall id | id in w.routers :: var r := w.routers[id];
         r.phase.Idle? && r.error.None? && (r.tag.None? || r.session != w.cache.session)
  }

  ghost predicate LegalRun(w: World, steps: seq<Step>) {
    steps == [] ||
    var front := steps[..|steps| - 1];
    var s := steps[|steps| - 1];
    LegalRun(w, front) && var u := Exec(w, front); Enabled(u, s) && WithinCycle(u, s)
  }

  ghost function Exec(w: World, steps: seq<Step>): World
    decreases |steps|, 0
  {
    if steps == [] then w
    else
      var u := Exec(w, steps[..|steps| - 1]);
      var s := steps[|steps| - 1];
      if |u.versions| > 0 && Enabled(u, s) then Do(u, s) else u
  }

  ghost predicate AllAtomic(w: World, steps: seq<Step>)
    requires LegalRun(w, steps)
  {
    steps == [] ||
    (AllAtomic(w, steps[..|steps| - 1]) && Atomic(Exec(w, steps[..|steps| - 1]), steps[|steps| - 1]))
  }

  ghost predicate AllFaithful(w: World, steps: seq<Step>)
    requires LegalRun(w, steps)
  {
    steps == [] ||
    (AllFaithful(w, steps[..|steps| - 1]) && Faithful(Exec(w, steps[..|steps| - 1]), steps[|steps| - 1]))
  }

  /** In every run, with no atomicity assumed, the invariant holds. */
  lemma {:induction false} RunInv(w: World, steps: seq<Step>)
    requires Init(w) && LegalRun(w, steps)
    ensures Inv(Exec(w, steps))
    ensures Exec(w, steps).cache.session == w.cache.session
  {
    if steps != [] {
      RunInv(w, steps[..|steps| - 1]);
      StepInv(Exec(w, steps[..|steps| - 1]), steps[|steps| - 1]);
    }
  }

  /** The table and the label are of one version, and nothing has gone wrong. */
  ghost predicate InStep(session: uint16, r: Router) {
    && r.error.None?
    && (r.tag.Some? && r.session == session ==> r.dataAt == Some(r.tagAt))
    && (r.phase.Sending? ==> r.phase.dataAt == Some(r.phase.tagAt))
  }

  ghost predicate AllInStep(w: World) {
    forall id | id in w.routers :: InStep(w.cache.session, w.routers[id])
  }

  lemma StepInStep(w: World, s: Step)
    requires Inv(w) && Enabled(w, s) && WithinCycle(w, s) && Atomic(w, s) && AllInStep(w)
    ensures AllInStep(Do(w, s))
  {
    hide AspaFaithful, Known, Since, IsReply, FullPayload, DiffPayload;
    if s.SecondRead? {
      var r := w.routers[s.id];
      var n := |w.versions| - 1;
      LagOf(n, r.phase.at);
      assert r.phase.at == n;
    } else if s.Deliver? {
      assert SendingInv(w.cache.session, w.versions, w.routers[s.id]);
    }
  }

  lemma {:induction false} RunInStep(w: World, steps: seq<Step>)
    requires Init(w) && LegalRun(w, steps) && AllAtomic(w, steps)
    ensures AllInStep(Exec(w, steps))
  {
    if steps != [] {
      var front := steps[..|steps| - 1];
      RunInStep(w, front);
      RunInv(w, front);
      StepInStep(Exec(w, front), steps[|steps| - 1]);
    }
  }

  /**
   * Convergence. In every interleaving of refreshes and queries of any number of routers in which the two reads of
   * each Serial Query agree, no router ever sees a protocol error, and whatever serial a router of this session has
   * been given labels a version whose ROAs, and for version 2 whose ASPA customers, are exactly the router's.
   */
  lemma AtomicRunsConverge(w: World, steps: seq<Step>, id: nat)
    requires Init(w) && LegalRun(w, steps) && AllAtomic(w, steps) && id in Exec(w, steps).routers
    ensures var w' := Exec(w, steps);
      var r := w'.routers[id];
      && r.error.None?
      && (r.tag.Some? && r.session == w.cache.session ==>
            && r.tagAt < |w'.versions|
            && r.tag.value == SerialOf(r.tagAt)
            && r.table.roas == w'.versions[r.tagAt].roas
            && (r.version >= 2 ==> r.table.aspas.Keys == w'.versions[r.tagAt].aspas.Keys))
  {
    RunInv(w, steps);
    RunInStep(w, steps);
    assert InStep(w.cache.session, Exec(w, steps).routers[id]);
  }

  /** Both convergence and the providers: every ASPA table known to be right stays right. */
  ghost predicate AllExact(w: World) {
    forall id | id in w.routers :: var r := w.routers[id];
      && (r.tag.Some? && r.session == w.cache.session ==> r.exact)
      && (r.phase.Sending? ==> r.phase.exact)
  }

  lemma {:induction false} RunExact(w: World, steps: seq<Step>)
    requires Init(w) && LegalRun(w, steps) && AllAtomic(w, steps) && AllFaithful(w, steps)
    ensures AllExact(Exec(w, steps))
  {
    hide Tracks, AspaFaithful, Receive, Known, Since, IsReply, FullPayload, DiffPayload;
    if steps != [] {
      var front, s := steps[..|steps| - 1], steps[|steps| - 1];
      RunExact(w, front);
      RunInv(w, front);
      RunInStep(w, front);
      var u := Exec(w, front);
      if s.SecondRead? {
        assert InStep(u.cache.session, u.routers[s.id]);
      }
    }
  }

  /** If moreover every reply is `AspaFaithful`, version 2 routers hold the full ASPA table of their serial. */
  lemma FaithfulRunsConverge(w: World, steps: seq<Step>, id: nat)
    requires Init(w) && LegalRun(w, steps) && AllAtomic(w, steps) && AllFaithful(w, steps)
    requires id in Exec(w, steps).routers
    ensures var w' := Exec(w, steps);
      var r := w'.routers[id];
      r.tag.Some? && r.session == w.cache.session && r.version >= 2 ==>
        && r.tagAt < |w'.versions|
        && r.tag.value == SerialOf(r.tagAt)
        && r.table == w'.versions[r.tagAt]
  {
    AtomicRunsConverge(w, steps, id);
    RunInv(w, steps);
    RunInStep(w, steps);
    RunExact(w, steps);
    assert InStep(w.cache.session, Exec(w, steps).routers[id]);
  }

  // ---------------------------------------------------------------- runs in which the two reads may disagree

  /**
   * One exchange a router has committed: the versions its two reads saw, both the same for a Reset Query, and whether
   * the table it left has the content of the first, which is the version the new serial labels.
   */
  datatype Exchange = Exchange(at: nat, n: nat, held: bool)

  /**
   * What a run did to one router: the Reset Query it last committed and the Serial Queries committed since, and the
   * versions read so far by the exchange under way. An error makes the router start over.
   */
  datatype Log = Log(committed: seq<Exchange>, at: nat, n: nat)

  ghost function LogOf(w: World, steps: seq<Step>, id: nat): Log
    requires LegalRun(w, steps)
  {
    if steps == [] then Log([], 0, 0)
    else
      var front, s := steps[..|steps| - 1], steps[|steps| - 1];
      Logged(Exec(w, front), s, id, LogOf(w, front, id))
  }

  ghost function Logged(u: World, s: Step, id: nat, log: Log): Log
    requires Enabled(u, s)
  {
    if s.Refresh? || s.id != id || u.versions == [] then log
    else
      var now := |u.versions| - 1;
      match s
      case ResetRead(_) => log.(at := now, n := now)
      case FirstRead(_) => log.(at := now)
      case SecondRead(_, _) => log.(n := now)
      case Deliver(_) => log.(committed := Committed(u.versions, u.routers[id], log))
      case Drop(_) => log
  }

  ghost function Committed(vs: seq<Version>, r: Router, log: Log): seq<Exchange>
    requires r.phase.Sending?
  {
    var r' := OnDeliver(r);
    var held := log.at < |vs| && Holds(r'.version, r'.table, vs[log.at], false);
    var e := Exchange(log.at, log.n, held);
    if r'.tag.None? then [] else if r.phase.blank then [e] else log.committed + [e]
  }

  /** Both reads saw the same content, as far as a session of this version shows it. */
  ghost predicate SameReads(version: uint8, vs: seq<Version>, e: Exchange) {
    e.at < |vs| && e.n < |vs| && Holds(version, vs[e.n], vs[e.at], false)
  }

  ghost predicate AllSame(version: uint8, vs: seq<Version>, es: seq<Exchange>) {
    forall i | 0 <= i < |es| :: SameReads(version, vs, es[i])
  }

  /** Every exchange since the last Reset Query, except perhaps the last one, read the same content twice. */
  ghost predicate SameButLast(version: uint8, vs: seq<Version>, es: seq<Exchange>) {
    es == [] || AllSame(version, vs, es[..|es| - 1])
  }

  /** As long as all exchanges before it were untorn, an exchange keeps the label true iff it is untorn itself. */
  ghost predicate HeldWhileSame(version: uint8, vs: seq<Version>, es: seq<Exchange>) {
    forall i | 0 <= i < |es| && AllSame(version, vs, es[..i]) :: es[i].held <==> SameReads(version, vs, es[i])
  }

  ghost predicate InTrace(vs: seq<Version>, es: seq<Exchange>) {
    forall i | 0 <= i < |es| :: es[i].at <= es[i].n < |vs|
  }

  /** The history variables say no more than the log of the run does. */
  ghost predicate LogInv(session: uint16, vs: seq<Version>, r: Router, log: Log) {
    && InTrace(vs, log.committed) && HeldWhileSame(r.version, vs, log.committed)
    && (r.tag.Some? && r.session == session ==> CommittedLog(vs, r, log.committed))
    && (r.phase.Between? ==> log.at == r.phase.at)
    && (r.phase.Sending? ==> SendingLog(vs, r, log))
  }

  ghost predicate CommittedLog(vs: seq<Version>, r: Router, es: seq<Exchange>) {
    && es != []
    && r.tagAt == es[|es| - 1].at
    && (r.dataAt.Some? <==> SameButLast(r.version, vs, es))
    && (r.dataAt.Some? ==> r.dataAt.value == es[|es| - 1].n)
  }

  ghost predicate SendingLog(vs: seq<Version>, r: Router, log: Log)
    requires r.phase.Sending?
  {
    && log.at <= log.n < |vs|
    && r.phase.tagAt == log.at
    && (r.phase.dataAt.Some? ==> r.phase.dataAt.value == log.n)
    && (r.phase.dataAt.Some? <==> r.phase.blank || AllSame(r.version, vs, log.committed))
  }

  lemma AppendedSame(version: uint8, vs: seq<Version>, es: seq<Exchange>, e: Exchange)
    ensures AllSame(version, vs, es + [e]) <==> AllSame(version, vs, es) && SameReads(version, vs, e)
    ensures SameButLast(version, vs, es + [e]) <==> AllSame(version, vs, es)
  {
    hide SameReads;
    var fs := es + [e];
    assert fs[..|es|] == es && fs[|es|] == e;
    if AllSame(version, vs, fs) {
      assert forall i | 0 <= i < |es| :: es[i] == fs[i];
    }
  }

  lemma AppendedHeld(version: uint8, vs: seq<Version>, es: seq<Exchange>, e: Exchange)
    requires HeldWhileSame(version, vs, es)
    requires AllSame(version, vs, es) ==> (e.held <==> SameReads(version, vs, e))
    ensures HeldWhileSame(version, vs, es + [e])
  {
    hide SameReads, AllSame;
    var fs := es + [e];
    forall i | 0 <= i < |fs| && AllSame(version, vs, fs[..i]) ensures fs[i].held <==> SameReads(version, vs, fs[i]) {
      if i < |es| {
        assert fs[..i] == es[..i];
      } else {
        assert fs[..i] == es;
      }
    }
  }

  lemma LogGrows(session: uint16, vs: seq<Version>, vs': seq<Version>, r: Router, log: Log)
    requires LogInv(session, vs, r, log) && vs <= vs'
    ensures LogInv(session, vs', r, log)
  {
    hide Holds;
    SameGrows(r.version, vs, vs', log.committed);
    forall i | 0 <= i < |log.committed|
      ensures SameReads(r.version, vs', log.committed[i]) <==> SameReads(r.version, vs, log.committed[i])
      ensures AllSame(r.version, vs', log.committed[..i]) <==> AllSame(r.version, vs, log.committed[..i])
    {
      SameGrows(r.version, vs, vs', log.committed[..i]);
      SameReadsGrows(r.version, vs, vs', log.committed[i]);
    }
  }

  lemma SameReadsGrows(version: uint8, vs: seq<Version>, vs': seq<Version>, e: Exchange)
    requires vs <= vs' && e.at < |vs| && e.n < |vs|
    ensures SameReads(version, vs', e) <==> SameReads(version, vs, e)
  {
    assert vs'[e.at] == vs[e.at] && vs'[e.n] == vs[e.n];
  }

  lemma SameGrows(version: uint8, vs: seq<Version>, vs': seq<Version>, es: seq<Exchange>)
    requires vs <= vs' && InTrace(vs, es)
    ensures InTrace(vs', es) && (AllSame(version, vs', es) <==> AllSame(version, vs, es))
  {
    hide SameReads;
    forall i | 0 <= i < |es| ensures SameReads(version, vs', es[i]) <==> SameReads(version, vs, es[i]) {
      SameReadsGrows(version, vs, vs', es[i]);
    }
  }

  lemma StepLog(w: World, s: Step, id: nat, log: Log)
    requires Inv(w) && Enabled(w, s) && WithinCycle(w, s) && id in w.routers
    requires LogInv(w.cache.session, w.versions, w.routers[id], log)
    ensures id in Do(w, s).routers
    ensures LogInv(w.cache.session, Do(w, s).versions, Do(w, s).routers[id], Logged(w, s, id, log))
  {
    TraceIsThere(w);
    hide Tracks, LogInv, RouterInv, OnReset, OnSecondRead, OnDeliver;
    var session, vs, r := w.cache.session, w.versions, w.routers[id];
    if s.Refresh? {
      LogGrows(session, vs, Do(w, s).versions, r, log);
    } else if s.id == id {
      match s {
        case ResetRead(_) => ResetLog(session, vs, r, OnReset(w.cache, |vs| - 1, r), log);
        case FirstRead(_) => FirstReadLog(w.cache, vs, r, log);
        case SecondRead(_, p) => SecondReadLog(w.cache, vs, r, p, log);
        case Deliver(_) => DeliverLog(session, vs, r, log);
        case Drop(_) => DropLog(session, vs, r, log);
      }
    }
  }

  lemma ResetLog(session: uint16, vs: seq<Version>, r: Router, r': Router, log: Log)
    requires LogInv(session, vs, r, log) && |vs| > 0
    requires r'.phase.Sending? && r'.phase.blank && r'.phase.tagAt == |vs| - 1 && r'.phase.dataAt == Some(|vs| - 1)
    requires r' == r.(phase := r'.phase)
    ensures LogInv(session, vs, r', log.(at := |vs| - 1, n := |vs| - 1))
  {
    hide AllSame, SameButLast, HeldWhileSame;
  }

  lemma FirstReadLog(c: CacheState, vs: seq<Version>, r: Router, log: Log)
    requires LogInv(c.session, vs, r, log) && r.phase.Idle? && r.tag.Some? && |vs| > 0
    ensures LogInv(c.session, vs, OnFirstRead(c, |vs| - 1, r), log.(at := |vs| - 1))
  {
    hide AllSame, SameButLast, HeldWhileSame;
  }

  lemma DropLog(session: uint16, vs: seq<Version>, r: Router, log: Log)
    requires LogInv(session, vs, r, log)
    ensures LogInv(session, vs, r.(phase := Idle), log)
  {
    hide AllSame, SameButLast, HeldWhileSame;
  }

  lemma SecondReadLog(c: CacheState, vs: seq<Version>, r: Router, p: Reply, log: Log)
    requires LogInv(c.session, vs, r, log) && RouterInv(c.session, vs, r) && r.phase.Between? && |vs| > 0
    ensures LogInv(c.session, vs, OnSecondRead(c, vs, r, p), log.(n := |vs| - 1))
  {
    hide AspaFaithful, Holds, Known, Since, HeldWhileSame, StartExact;
    var es := log.committed;
    var last := es[|es| - 1];
    assert es == es[..|es| - 1] + [last];
    AppendedSame(r.version, vs, es[..|es| - 1], last);
    assert Labelled(vs, r, false) <==> AllSame(r.version, vs, es);
  }

  lemma DeliverLog(session: uint16, vs: seq<Version>, r: Router, log: Log)
    requires LogInv(session, vs, r, log) && RouterInv(session, vs, r) && r.phase.Sending?
    ensures LogInv(session, vs, OnDeliver(r), log.(committed := Committed(vs, r, log)))
  {
    hide AllSame, SameButLast, HeldWhileSame, SameReads;
    var r' := OnDeliver(r);
    var es := if r.phase.blank then [] else log.committed;
    if r'.tag.None? {
      NothingLogged(r.version, vs);
    } else {
      var e := Exchange(log.at, log.n, Holds(r'.version, r'.table, vs[log.at], false));
      if r.phase.dataAt.Some? {
        HeldIff(r.version, vs, r'.table, e);
      }
      NothingLogged(r.version, vs);
      JoinLog(session, vs, r', es, e, log);
      assert [] + [e] == [e];
    }
  }

  lemma NothingLogged(version: uint8, vs: seq<Version>)
    ensures InTrace(vs, []) && HeldWhileSame(version, vs, []) && AllSame(version, vs, [])
  {
  }

  lemma HeldIff(version: uint8, vs: seq<Version>, t: Version, e: Exchange)
    requires e.at < |vs| && e.n < |vs| && Holds(version, t, vs[e.n], false)
    ensures Holds(version, t, vs[e.at], false) <==> SameReads(version, vs, e)
  {
  }

  lemma JoinLog(session: uint16, vs: seq<Version>, r: Router, es: seq<Exchange>, e: Exchange, log: Log)
    requires r.phase.Idle? && InTrace(vs, es) && HeldWhileSame(r.version, vs, es) && e.at <= e.n < |vs|
    requires r.tagAt == e.at && (r.dataAt.Some? ==> r.dataAt.value == e.n)
    requires r.dataAt.Some? <==> AllSame(r.version, vs, es)
    requires AllSame(r.version, vs, es) ==> (e.held <==> SameReads(r.version, vs, e))
    ensures LogInv(session, vs, r, log.(committed := es + [e]))
  {
    hide AllSame, SameButLast, HeldWhileSame, SameReads;
    AppendedSame(r.version, vs, es, e);
    AppendedHeld(r.version, vs, es, e);
  }

  lemma {:induction false} RunLog(w: World, steps: seq<Step>, id: nat)
    requires Init(w) && LegalRun(w, steps) && id in w.routers
    ensures id in Exec(w, steps).routers
    ensures LogInv(w.cache.session, Exec(w, steps).versions, Exec(w, steps).routers[id], LogOf(w, steps, id))
  {
    hide LogInv, Tracks, Logged;
    if steps == [] {
      EmptyLog(w.cache.session, w.versions, w.routers[id]);
    } else {
      var front, s := steps[..|steps| - 1], steps[|steps| - 1];
      RunLog(w, front, id);
      RunInv(w, front);
      TraceIsThere(Exec(w, front));
      StepLog(Exec(w, front), s, id, LogOf(w, front, id));
    }
  }

  lemma TraceIsThere(w: World)
    requires Inv(w)
    ensures |w.versions| > 0 && w.cache.serial == SerialOf(|w.versions| - 1)
  {
  }

  lemma EmptyLog(session: uint16, vs: seq<Version>, r: Router)
    requires r.phase.Idle? && (r.tag.None? || r.session != session)
    ensures LogInv(session, vs, r, Log([], 0, 0))
  {
    NothingLogged(r.version, vs);
  }

  /**
   * In every run: if all Serial Queries a router has committed since its last Reset Query, except perhaps the last,
   * read the same content twice, then its table is exactly the version of the last second read, never older than the
   * one its serial labels; and it has the content of the labelled version iff the last query read that content twice.
   * The two versions may differ and still agree (`Hazards.ThereAndBack`); `Hazards.StaleSerialRun` shows that an
   * earlier query that read two contents can leave a table older than its serial.
   */
  lemma LastQueryMayLead(w: World, steps: seq<Step>, id: nat)
    requires Init(w) && LegalRun(w, steps) && id in w.routers
    ensures id in Exec(w, steps).routers
    ensures var w' := Exec(w, steps);
      var r, log := w'.routers[id], LogOf(w, steps, id).committed;
      r.tag.Some? && r.session == w.cache.session && SameButLast(r.version, w'.versions, log) ==>
        && log != [] && var e := log[|log| - 1];
        && e.at <= e.n < |w'.versions|
        && r.tag.value == SerialOf(e.at)
        && Holds(r.version, r.table, w'.versions[e.n], false)
        && (Holds(r.version, r.table, w'.versions[e.at], false) <==> SameReads(r.version, w'.versions, e))
  {
    RunInv(w, steps);
    RunLog(w, steps, id);
    var w', log := Exec(w, steps), LogOf(w, steps, id);
    var r := w'.routers[id];
    if r.tag.Some? && r.session == w.cache.session && SameButLast(r.version, w'.versions, log.committed) {
      KnownVersion(w.cache.session, w'.versions, r, log);
    }
  }

  lemma KnownVersion(session: uint16, vs: seq<Version>, r: Router, log: Log)
    requires CommittedInv(session, vs, r) && LogInv(session, vs, r, log) && SameButLast(r.version, vs, log.committed)
    requires r.tag.Some? && r.session == session
    ensures log.committed != [] && var e := log.committed[|log.committed| - 1];
      && e.at <= e.n < |vs|
      && r.tag.value == SerialOf(e.at)
      && Holds(r.version, r.table, vs[e.n], false)
      && (Holds(r.version, r.table, vs[e.at], false) <==> SameReads(r.version, vs, e))
  {
    hide AllSame, SameButLast, HeldWhileSame;
  }

  /**
   * In every run, a router's serial stops naming what the router holds exactly at the first Serial Query, since its
   * last Reset Query, whose two reads saw different contents: it names it after all of them iff all read one content.
   */
  lemma LabelsHoldIff(w: World, steps: seq<Step>, id: nat)
    requires Init(w) && LegalRun(w, steps) && id in w.routers
    ensures id in Exec(w, steps).routers
    ensures var w' := Exec(w, steps);
      var version, log := w'.routers[id].version, LogOf(w, steps, id).committed;
      && HeldWhileSame(version, w'.versions, log)
      && ((forall e | e in log :: e.held) <==> AllSame(version, w'.versions, log))
  {
    RunLog(w, steps, id);
    var w', log := Exec(w, steps), LogOf(w, steps, id).committed;
    AllHeldIff(w'.routers[id].version, w'.versions, log);
  }

  lemma AllHeldIff(version: uint8, vs: seq<Version>, es: seq<Exchange>)
    requires HeldWhileSame(version, vs, es)
    ensures (forall e | e in es :: e.held) <==> AllSame(version, vs, es)
  {
    hide SameReads;
    if AllSame(version, vs, es) {
      forall i | 0 <= i < |es| ensures es[i].held {
        assert AllSame(version, vs, es[..i]);
      }
    }
    if forall e | e in es :: e.held {
      HeldPrefix(version, vs, es, |es|);
      assert es[..|es|] == es;
    }
  }

  lemma {:induction false} HeldPrefix(version: uint8, vs: seq<Version>, es: seq<Exchange>, i: nat)
    requires HeldWhileSame(version, vs, es) && i <= |es| && forall e | e in es :: e.held
    ensures AllSame(version, vs, es[..i])
  {
    hide SameReads;
    if i > 0 {
      HeldPrefix(version, vs, es, i - 1);
      assert es[i - 1] in es;
      assert es[..i] == es[..i - 1] + [es[i - 1]];
    }
  }
}
