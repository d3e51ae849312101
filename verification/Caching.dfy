/** The cache object, on real arrays: which of them a refresh may write, and that each method does what `History` says. */
module Caching {
  import opened Words
  import opened Slices
  import opened Tables
  import opened Roas
  import opened History
  import opened Aggregation
  import Aspas

  /** `cacheState`: slices of the cache's own arrays, not copies. */
  datatype Snapshot = Snapshot(
    serial: uint32, session: uint16, roas: array<Roa>, roasLen: nat, aspas: array<Aspa>, aspasLen: nat)

  /** What one refresh fetched from each upstream, in order of arrival; `None` for a failed fetch. */
  datatype Fetch = Fetch(roas: seq<Option<seq<Roa>>>, aspas: seq<Option<seq<Aspa>>>, now: int, nowAspas: int)

  /** The successful fetches, one after another. */
  function Combined<T>(parts: seq<Option<seq<T>>>): seq<T> {
    if parts == [] then []
    else
      var front := Combined(parts[..|parts| - 1]);
      match parts[|parts| - 1]
      case Some(s) => front + s
      case None => front
  }

  /** Some upstream delivered `x`. */
  ghost predicate Delivered<T(!new)>(parts: seq<Option<seq<T>>>, x: T) {
    exists i | 0 <= i < |parts| :: parts[i].Some? && x in parts[i].value
  }

  function TotalLength<T>(parts: seq<Option<seq<T>>>): nat {
    if parts == [] then 0
    else (if parts[0].Some? then |parts[0].value| else 0) + TotalLength(parts[1..])
  }

  /** Each delivered list is there whole, between those that arrived before it and those that arrived after it. */
  lemma {:induction false} CombinedAround<T>(parts: seq<Option<seq<T>>>, i: nat)
    requires i < |parts|
    ensures Combined(parts) ==
      Combined(parts[..i]) + (if parts[i].Some? then parts[i].value else []) + Combined(parts[i + 1..])
    decreases |parts|
  {
    var n := |parts| - 1;
    if i < n {
      var front := parts[..n];
      CombinedAround(front, i);
      assert front[..i] == parts[..i] && front[i] == parts[i];
      assert parts[i + 1..][..n - i - 1] == front[i + 1..];
      assert parts[i + 1..][n - i - 1] == parts[n];
    } else {
      assert parts[..i] == parts[..n];
      assert Combined(parts[i + 1..]) == [];
    }
  }

  /** The combined list holds exactly what the successful fetches delivered, and is as long as all of them together. */
  lemma {:induction false} CombinedMembers<T(!new)>(parts: seq<Option<seq<T>>>)
    ensures forall x :: x in Combined(parts) <==> Delivered(parts, x)
    ensures |Combined(parts)| == TotalLength(parts)
  {
    if parts != [] {
      CombinedAround(parts, 0);
      CombinedMembers(parts[1..]);
      assert Combined(parts[..0]) == [];
      forall x ensures x in Combined(parts) <==> Delivered(parts, x) {
        if Delivered(parts[1..], x) {
          var i :| 0 <= i < |parts| - 1 && parts[1..][i].Some? && x in parts[1..][i].value;
          assert parts[i + 1] == parts[1..][i];
        }
        if Delivered(parts, x) {
          var i :| 0 <= i < |parts| && parts[i].Some? && x in parts[i].value;
          assert i > 0 ==> parts[1..][i - 1] == parts[i];
        }
      }
    }
  }

  method Combine<T(!new)>(parts: seq<Option<seq<T>>>) returns (a: array<T>)
    ensures fresh(a) && a[..] == Combined(parts)
    ensures forall x :: x in a[..] <==> Delivered(parts, x)
    ensures a.Length == TotalLength(parts)
  {
    CombinedMembers(parts);
    var all: seq<T> := [];
    for i := 0 to |parts|
      invariant all == Combined(parts[..i])
    {
      assert parts[..i + 1][..i] == parts[..i];
      if parts[i].Some? {
        all := all + parts[i].value;
      }
    }
    assert parts[..|parts|] == parts;
    a := new T[|all|](i requires 0 <= i < |all| => all[i]);
    assert a[..] == all;
  }

  class Cache {
    var roas: array<Roa>
    var roasLen: nat
    var aspas: array<Aspa>
    var aspasLen: nat
    var history: seq<Record>
    var serial: uint32
    const session: uint16

    /** Every version held so far. */
    ghost var versions: seq<Version>

    ghost predicate InRange()
      reads this
    {
      roasLen <= roas.Length && aspasLen <= aspas.Length
    }

    ghost function State(): CacheState
      requires InRange()
      reads this, roas, aspas
    {
      CacheState(roas[..roasLen], aspas[..aspasLen], history, serial, session)
    }

    ghost predicate Valid()
      reads this, roas, aspas
    {
      InRange() && Tracks(State(), versions)
    }

    /** `newCache`. */
    constructor (session: uint16)
      ensures Valid() && State() == Fresh([], [], session) && |versions| == 1
      ensures fresh(roas) && fresh(aspas)
    {
      this.session := session;
      roas, roasLen := new Roa[0], 0;
      aspas, aspasLen := new Aspa[0], 0;
      history, serial := [], 1;
      versions := [View([], [])];
      new;
      FreshTracks([], [], session);
    }

    /** The `replaceRoas` and `replaceAspas` of `Start`, before any refresh. */
    method Replace(a: array<Roa>, n: nat, b: array<Aspa>, m: nat)
      requires Valid() && history == [] && |versions| == 1
      requires n <= a.Length && m <= b.Length && Normal(a[..n], b[..m])
      modifies this
      ensures Valid() && roas == a && aspas == b
      ensures State() == Fresh(a[..n], b[..m], session) && versions == [View(a[..n], b[..m])]
    {
      roas, roasLen, aspas, aspasLen := a, n, b, m;
      versions := [View(a[..n], b[..m])];
      FreshTracks(a[..n], b[..m], session);
    }

    method UpdateDiffs(a: array<Roa>, n: nat, add: seq<Roa>, del: seq<Roa>,
                       b: array<Aspa>, m: nat, addAspa: seq<Aspa>, delAspa: seq<Aspa>)
      requires n <= a.Length && m <= b.Length && |history| <= MAX_HISTORY
      modifies this`roas, this`roasLen, this`aspas, this`aspasLen, this`history
      ensures roas == a && roasLen == n && aspas == b && aspasLen == m
      ensures history == Trim(old(history) + [Record(serial, Wrap32(serial + 1), add, del, addAspa, delAspa)])
      ensures |history| == if |old(history)| < 10 then |old(history)| + 1 else 10
    {
      roas, roasLen, aspas, aspasLen := a, n, b, m;
      history := history + [Record(serial, Wrap32(serial + 1), add, del, addAspa, delAspa)];
      if |history| > MAX_HISTORY {
        history := history[1..];
      }
    }

    method IncrementSerial()
      modifies this`serial
      ensures serial == Wrap32(old(serial) + 1)
      ensures serial == if old(serial) == 0xFFFF_FFFF then 0 else old(serial) + 1
    {
      serial := Wrap32(serial + 1);
    }

    /**
     * `updateCache`: filters its arguments in place, then diffs them against the cached lists. An argument may be the
     * cache's own array, whose old content is then already overwritten when the diff reads it. For normalised
     * arguments the trace invariant survives exactly when every such array had no live entry behind an expired one.
     */
    method UpdateCache(a: array<Roa>, n: nat, b: array<Aspa>, m: nat, now: int, nowAspas: int)
      requires Valid() && n <= a.Length && m <= b.Length
      requires (a == roas ==> n == roasLen) && (b == aspas ==> m == aspasLen)
      modifies this, a, b
      ensures InRange() && roas in {old(roas), a} && aspas in {old(aspas), b}
      ensures a[..] == Compacted(RoaAlive(now), old(a[..n])) + old(a[n..])
      ensures b[..] == Compacted(Aspas.AspaAlive(nowAspas), old(b[..m])) + old(b[m..])
      ensures var own := Own(a == old(roas), RoaAlive(now), b == old(aspas), Aspas.AspaAlive(nowAspas));
        var r, s := Filter(RoaAlive(now), old(a[..n])), Filter(Aspas.AspaAlive(nowAspas), old(b[..m]));
        && State() == Refreshed(Overwritten(old(State()), own), r, s)
        && versions == Extended(old(versions), View(r, s))
        && (old(Normal(a[..n], b[..m])) ==>
              && (Valid() <==> Harmless(old(State()), own))
              && (Valid() ==>
                    && Moved(old(State()), State(), View(r, s))
                    && LiveContent(old(a[..n]), now, old(b[..m]), nowAspas, View(State().roas, State().aspas))))
    {
      hide Tracks;
      ghost var own := Own(a == roas, RoaAlive(now), b == aspas, Aspas.AspaAlive(nowAspas));
      ghost var c, vs := State(), versions;
      CachedIsNormal(c, vs);
      ghost var normal := Normal(a[..n], b[..m]);
      if normal {
        Roas.FilterKeepsNormal(RoaAlive(now), a[..n]);
        Aspas.FilterKeepsNormal(Aspas.AspaAlive(nowAspas), b[..m]);
      }
      var n', m' := FilterBoth(a, n, b, m, now, nowAspas);
      ghost var r, s := a[..n'], b[..m'];
      UpdateLocked(a, n', b, m');
      if normal {
        OwnArrays(c, vs, own, r, s);
        LiveLists(old(a[..n]), now, old(b[..m]), nowAspas);
      }
    }

    /** The two in-place filters at the head of `updateCache`, and what they do to the cached lists. */
    method FilterBoth(a: array<Roa>, n: nat, b: array<Aspa>, m: nat, now: int, nowAspas: int) returns (n': nat, m': nat)
      requires InRange() && n <= a.Length && m <= b.Length
      requires (a == roas ==> n == roasLen) && (b == aspas ==> m == aspasLen)
      modifies a, b
      ensures n' <= n && a[..n'] == Filter(RoaAlive(now), old(a[..n]))
      ensures m' <= m && b[..m'] == Filter(Aspas.AspaAlive(nowAspas), old(b[..m]))
      ensures a[..] == Compacted(RoaAlive(now), old(a[..n])) + old(a[n..])
      ensures b[..] == Compacted(Aspas.AspaAlive(nowAspas), old(b[..m])) + old(b[m..])
      ensures State() == Overwritten(old(State()), Own(a == roas, RoaAlive(now), b == aspas, Aspas.AspaAlive(nowAspas)))
    {
      hide Filter;
      n' := FilterExpired(a, n, now);
      m' := Aspas.FilterExpiredAspas(b, m, nowAspas);
      if a == roas {
        assert a[..n] == a[..][..n] == Compacted(RoaAlive(now), old(a[..n]));
      }
      if b == aspas {
        assert b[..m] == b[..][..m] == Compacted(Aspas.AspaAlive(nowAspas), old(b[..m]));
      }
    }

    /** The part of `updateCache` that holds the lock. */
    method UpdateLocked(a: array<Roa>, n: nat, b: array<Aspa>, m: nat)
      requires InRange() && |history| <= MAX_HISTORY && |versions| > 0 && n <= a.Length && m <= b.Length
      modifies this
      ensures InRange() && roas in {old(roas), a} && aspas in {old(aspas), b}
      ensures State() == Refreshed(old(State()), a[..n], b[..m])
      ensures versions == Extended(old(versions), View(a[..n], b[..m]))
    {
      hide Refreshed;
      DiffAndStore(a, n, b, m);
      versions := Extended(versions, View(a[..n], b[..m]));
    }

    /**
     * `UpdateROAs`: the given ROAs and the cache's own ASPAs. The result is a tracked cache exactly when no live ASPA
     * follows an expired one; the array written is one that readers may hold.
     */
    method UpdateRoas(a: array<Roa>, n: nat, now: int, nowAspas: int)
      requires Valid() && n <= a.Length && (a == roas ==> n == roasLen)
      modifies this, a, aspas
      ensures InRange()
      ensures var keep, cached := Aspas.AspaAlive(nowAspas), old(aspas[..aspasLen]);
        var r, live := Filter(RoaAlive(now), old(a[..n])), Filter(keep, cached);
        && (a != old(roas) ==> State() == Refreshed(old(State()).(aspas := Compacted(keep, cached)), r, live))
        && versions == Extended(old(versions), View(r, live))
        && old(aspas)[..] == Compacted(keep, cached) + old(aspas[aspasLen..])
        && (old(StrictlySorted(a[..n]) && AllValid(a[..n])) ==>
              (Valid() <==>
                && KeptFirst(keep, cached)
                && (a == old(roas) ==> KeptFirst(RoaAlive(now), old(roas[..roasLen])))))
    {
      hide Tracks, Refreshed, Moved;
      CachedIsNormal(State(), versions);
      UpdateCache(a, n, aspas, aspasLen, now, nowAspas);
    }

    /** `UpdateASPAs`: the given ASPAs and the cache's own ROAs. */
    method UpdateAspas(b: array<Aspa>, m: nat, now: int, nowAspas: int)
      requires Valid() && m <= b.Length && (b == aspas ==> m == aspasLen)
      modifies this, b, roas
      ensures InRange()
      ensures var keep, cached := RoaAlive(now), old(roas[..roasLen]);
        var live, s := Filter(keep, cached), Filter(Aspas.AspaAlive(nowAspas), old(b[..m]));
        && (b != old(aspas) ==> State() == Refreshed(old(State()).(roas := Compacted(keep, cached)), live, s))
        && versions == Extended(old(versions), View(live, s))
        && old(roas)[..] == Compacted(keep, cached) + old(roas[roasLen..])
        && (old(Aspas.CustomerSorted(b[..m]) && Aspas.AllValid(b[..m])) ==>
              (Valid() <==>
                && KeptFirst(keep, cached)
                && (b == old(aspas) ==> KeptFirst(Aspas.AspaAlive(nowAspas), old(aspas[..aspasLen])))))
    {
      hide Tracks, Refreshed, Moved;
      CachedIsNormal(State(), versions);
      UpdateCache(roas, roasLen, b, m, now, nowAspas);
    }

    /** Diffs against the cached lists, and stores and counts the new ones if anything differs. */
    method DiffAndStore(a: array<Roa>, n: nat, b: array<Aspa>, m: nat)
      requires InRange() && |history| <= MAX_HISTORY && n <= a.Length && m <= b.Length
      modifies this`roas, this`roasLen, this`aspas, this`aspasLen, this`history, this`serial
      ensures InRange() && roas in {old(roas), a} && aspas in {old(aspas), b}
      ensures State() == Refreshed(old(State()), a[..n], b[..m])
    {
      hide DiffOf, Wrap32;
      ghost var c := State();
      var add, del := MakeDiff(a[..n], roas[..roasLen]);
      var addAspa, delAspa := Aspas.MakeAspaDiff(b[..m], aspas[..aspasLen]);
      assert DiffRecord(c, a[..n], b[..m]) == Record(serial, Wrap32(serial + 1), add, del, addAspa, delAspa);
      if |add| > 0 || |del| > 0 || |addAspa| > 0 || |delAspa| > 0 {
        UpdateDiffs(a, n, add, del, b, m, addAspa, delAspa);
        IncrementSerial();
      }
    }

    /**
     * `TriggerRefresh`: everything in place happens on newly built arrays, so of what existed before only the cache
     * object itself is written. It fails, changing nothing, iff upstreams are configured and none delivered a ROA.
     * `nr` and `na` are the normalised lists before expiry.
     */
    method TriggerRefresh(f: Fetch) returns (ok: bool, ghost nr: seq<Roa>, ghost na: seq<Aspa>)
      requires Valid()
      modifies this
      ensures Valid()
      ensures ok <==> f.roas == [] || exists r :: Delivered(f.roas, r)
      ensures !ok ==> State() == old(State()) && versions == old(versions)
      ensures roas == old(roas) || fresh(roas)
      ensures aspas == old(aspas) || fresh(aspas)
      ensures old(versions) <= versions
      ensures ok ==>
        && Normal(nr, na)
        && NormalisedRoas(f.roas, nr) && NormalisedAspas(f.aspas, na)
        && KeySet(nr) == ValidKeySet(Combined(f.roas))
        && Distilled(Aspas.ASPA_KIND, Combined(f.aspas), na)
        && State() == Refreshed(old(State()), Filter(RoaAlive(f.now), nr), Filter(Aspas.AspaAlive(f.nowAspas), na))
        && LiveContent(nr, f.now, na, f.nowAspas, View(State().roas, State().aspas))
      ensures RefreshStep(f, old(State()), State())
    {
      hide Tracks, Refreshed, RefreshStep, LiveContent, Delivered, NormalisedRoas, NormalisedAspas, Distilled, Combined, Moved;
      nr, na := [], [];
      var a := Combine(f.roas);
      ghost var roas0 := a[..];
      assert a.Length > 0 ==> roas0[0] in roas0;
      if a.Length == 0 && |f.roas| > 0 {
        NothingFetched(f, State());
        return false, nr, na;
      }
      var n := GetSetOfValidatedRoas(a);
      var b := Combine(f.aspas);
      ghost var aspas0 := b[..];
      var m := Aspas.DeduplicateAspasInPlace(b);
      nr, na := a[..n], b[..m];
      FetchedRoas(f.roas, roas0, nr);
      FetchedAspas(f.aspas, aspas0, na);
      UpdateCache(a, n, b, m, f.now, f.nowAspas);
      StepDone(f, old(State()), nr, na, State());
      ok := true;
    }

    /** `getState`. */
    method GetState() returns (s: Snapshot)
      requires Valid()
      ensures s == Snapshot(serial, session, roas, roasLen, aspas, aspasLen)
      ensures s.serial == SerialOf(|versions| - 1)
      ensures View(s.roas[..s.roasLen], s.aspas[..s.aspasLen]) == versions[|versions| - 1]
    {
      s := Snapshot(serial, session, roas, roasLen, aspas, aspasLen);
    }

    /**
     * `getDiffsFrom`: found iff `q` is at most one window behind, and then the difference between the current version
     * and the one that many versions before it.
     */
    method GetDiffsFrom(q: uint32) returns (p: Reply, found: bool)
      requires Valid()
      ensures found <==> Known(State(), q)
      ensures found <==> Lag(State(), q) <= |history|
      ensures found ==> IsReply(Since(State(), q), p)
      ensures found ==> IsDifference(versions, Lag(State(), q), p)
    {
      hide Tracks, IsReply, Tidy, IsDifference;
      p, found := FindDiffs(q);
      if found {
        ReplyFromTrace(State(), versions, q, p);
      }
    }

    method FindDiffs(q: uint32) returns (p: Reply, found: bool)
      requires Valid()
      ensures found <==> Known(State(), q)
      ensures found <==> Lag(State(), q) <= |history|
      ensures found ==> IsReply(Since(State(), q), p)
    {
      hide Tracks, IsReply, Tidy;
      KnownIffInWindow(State(), versions, q);
      p := Reply([], [], [], []);
      if q == serial {
        UpToDate(p);
        return p, true;
      }
      var start := 0;
      while start < |history| && history[start].from != q
        invariant start <= |history|
        invariant forall k | 0 <= k < start :: history[k].from != q
      {
        start := start + 1;
      }
      if start == |history| {
        return p, false;
      }
      assert IndexFrom(history, q) == start;
      RecordsAreTidy(State(), versions);
      p := Aggregate(history[start..]);
      found := true;
    }
  }

  /** `p` lists what the last version of `vs` has and lacks against the one `lag` before it, each item once. */
  ghost predicate IsDifference(vs: seq<Version>, lag: nat, p: Reply) {
    lag < |vs| &&
    var v, w := vs[|vs| - 1 - lag], vs[|vs| - 1];
    && DistinctGroups(ROA_KIND, p.add) && DistinctGroups(ROA_KIND, p.del)
    && DistinctGroups(Aspas.ASPA_KIND, p.addAspa) && DistinctGroups(Aspas.ASPA_KIND, p.delAspa)
    && KeySet(p.add) == w.roas - v.roas && KeySet(p.del) == v.roas - w.roas
    && Aspas.Customers(p.addAspa) == w.aspas.Keys - v.aspas.Keys
    && Aspas.Customers(p.delAspa) == v.aspas.Keys - w.aspas.Keys
  }

  lemma ReplyFromTrace(c: CacheState, vs: seq<Version>, q: uint32, p: Reply)
    requires Tracks(c, vs) && Known(c, q) && IsReply(Since(c, q), p)
    ensures IsDifference(vs, Lag(c, q), p)
  {
    hide Tracks, Known, Since, Chain;
    WindowChains(c, vs, q);
    var tail := vs[|vs| - 1 - Lag(c, q)..];
    assert |tail| == |Since(c, q)| + 1;
    ReplyIsVersionDifference(Since(c, q), tail, p);
  }

  lemma RecordsAreTidy(c: CacheState, vs: seq<Version>)
    requires Tracks(c, vs)
    ensures forall r | r in c.history :: Tidy(r)
  {
    forall k | 0 <= k < |c.history| ensures Tidy(c.history[k]) {
      assert Describes(c.history[k], vs, |vs| - 1 - |c.history| + k);
    }
  }

  /** Which arguments of an update are the cache's own arrays, and what each expiry filter keeps. */
  datatype Own = Own(roas: bool, keepRoa: Roa -> bool, aspas: bool, keepAspa: Aspa -> bool)

  /** The cached lists after the in-place filters have run over those of them that were handed in. */
  ghost function Overwritten(c: CacheState, own: Own): CacheState {
    c.(roas := if own.roas then Compacted(own.keepRoa, c.roas) else c.roas,
       aspas := if own.aspas then Compacted(own.keepAspa, c.aspas) else c.aspas)
  }

  /** No live entry follows an expired one in a list that was handed in. */
  ghost predicate Harmless(c: CacheState, own: Own) {
    && (own.roas ==> KeptFirst(own.keepRoa, c.roas))
    && (own.aspas ==> KeptFirst(own.keepAspa, c.aspas))
  }

  /** The content became `v`, and serial and history moved iff that is a change. */
  ghost predicate Moved(c: CacheState, c': CacheState, v: Version) {
    && View(c'.roas, c'.aspas) == v
    && (c'.serial == c.serial <==> v == View(c.roas, c.aspas))
    && (c'.history == c.history <==> v == View(c.roas, c.aspas))
  }

  /** An unexpired entry of `a` has the key `k`; expiry is in Unix seconds, the clock in nanoseconds. */
  ghost predicate LiveRoa(a: seq<Roa>, now: int, k: RoaKey) {
    exists r | r in a :: k == RoaKey(r.prefix, r.asn, r.maxMask) && (r.expires == 0 || r.expires * 1_000_000_000 > now)
  }

  /** An unexpired entry of `b` lists the customer `c` with the providers `p`. */
  ghost predicate LiveAspa(b: seq<Aspa>, now: int, c: uint32, p: Aspas.Providers) {
    exists x | x in b :: x.customer == c && x.providers == p && (x.expires == 0 || x.expires * 1_000_000_000 > now)
  }

  /** `v` is what the unexpired entries of two lists say. */
  ghost predicate LiveContent(a: seq<Roa>, now: int, b: seq<Aspa>, nowAspas: int, v: Version) {
    && (forall k :: k in v.roas <==> LiveRoa(a, now, k))
    && (forall c, p :: Aspas.Maps(v.aspas, c, p) <==> LiveAspa(b, nowAspas, c, p))
  }

  lemma LiveLists(a: seq<Roa>, now: int, b: seq<Aspa>, nowAspas: int)
    requires Normal(a, b)
    ensures LiveContent(a, now, b, nowAspas, View(Filter(RoaAlive(now), a), Filter(Aspas.AspaAlive(nowAspas), b)))
  {
    hide Filter, Aspas.ProviderMap;
    var r, s := Filter(RoaAlive(now), a), Filter(Aspas.AspaAlive(nowAspas), b);
    FilterMembers(RoaAlive(now), a);
    FilterMembers(Aspas.AspaAlive(nowAspas), b);
    Aspas.FilterKeepsNormal(Aspas.AspaAlive(nowAspas), b);
    forall c, p ensures Aspas.Maps(Aspas.ProviderMap(s), c, p) <==> LiveAspa(b, nowAspas, c, p) {
      Aspas.MapOfSorted(s, c, p);
      assert Aspas.Lists(s, c, p) <==> LiveAspa(b, nowAspas, c, p);
    }
    forall k ensures k in KeySet(r) <==> LiveRoa(a, now, k) {
      if LiveRoa(a, now, k) {
        var x :| x in a && k == RoaKey(x.prefix, x.asn, x.maxMask) &&
          (x.expires == 0 || x.expires * 1_000_000_000 > now);
        assert x in r && x.Key() == k;
      }
    }
  }

  /** The keys of `nr` are those of all delivered ROAs that obey RFC 6482 and have a maxLength other than 0. */
  ghost predicate NormalisedRoas(parts: seq<Option<seq<Roa>>>, nr: seq<Roa>) {
    && (forall k :: k in KeySet(nr) <==>
          RfcRule(k) && k.maxMask != 0 &&
          exists r :: Delivered(parts, r) && k == RoaKey(r.prefix, r.asn, r.maxMask))
    && forall r | r in nr :: Delivered(parts, r)
  }

  /** One entry for each customer delivered with providers, and no delivered entry of the customer precedes it. */
  ghost predicate NormalisedAspas(parts: seq<Option<seq<Aspa>>>, na: seq<Aspa>) {
    && (forall x | x in na ::
          && Delivered(parts, x) && x.customer != 0 && x.providers != []
          && forall y | Delivered(parts, y) && y.customer == x.customer && y.providers != [] ::
               x.providers == y.providers || Aspas.Precedes(x.providers, y.providers))
    && (forall y | Delivered(parts, y) && y.customer != 0 && y.providers != [] :: y.customer in Aspas.Customers(na))
  }

  /** What a refresh with the fetch `f` makes of the cache `c`. */
  ghost predicate RefreshStep(f: Fetch, c: CacheState, c': CacheState) {
    if f.roas == [] || exists r :: Delivered(f.roas, r) then
      exists nr, na :: NormalisedRoas(f.roas, nr) && NormalisedAspas(f.aspas, na) && Normal(nr, na) &&
        c' == Refreshed(c, Filter(RoaAlive(f.now), nr), Filter(Aspas.AspaAlive(f.nowAspas), na))
    else c' == c
  }

  lemma NothingFetched(f: Fetch, c: CacheState)
    requires f.roas != [] && forall r :: !Delivered(f.roas, r)
    ensures RefreshStep(f, c, c)
  {
  }

  lemma StepDone(f: Fetch, c: CacheState, nr: seq<Roa>, na: seq<Aspa>, c': CacheState)
    requires f.roas == [] || exists r :: Delivered(f.roas, r)
    requires NormalisedRoas(f.roas, nr) && NormalisedAspas(f.aspas, na) && Normal(nr, na)
    requires c' == Refreshed(c, Filter(RoaAlive(f.now), nr), Filter(Aspas.AspaAlive(f.nowAspas), na))
    ensures RefreshStep(f, c, c')
  {
    hide Delivered, NormalisedRoas, NormalisedAspas, Normal, Refreshed, Filter;
  }

  lemma FetchedRoas(parts: seq<Option<seq<Roa>>>, all: seq<Roa>, nr: seq<Roa>)
    requires forall x :: x in all <==> Delivered(parts, x)
    requires KeySet(nr) == ValidKeySet(all) && forall r | r in nr :: r in all
    ensures NormalisedRoas(parts, nr)
  {
    hide Delivered;
    forall r: Roa ensures r.IsValid() <==> RfcRule(r.Key()) && r.maxMask != 0 {
      ValidityIsTheRule(r);
    }
    forall k ensures k in KeySet(nr) <==>
      RfcRule(k) && k.maxMask != 0 && exists r :: Delivered(parts, r) && k == RoaKey(r.prefix, r.asn, r.maxMask)
    {
      if k in KeySet(nr) {
        var r :| r in all && r.IsValid() && r.Key() == k;
        assert Delivered(parts, r);
      }
    }
  }

  lemma FetchedAspas(parts: seq<Option<seq<Aspa>>>, all: seq<Aspa>, na: seq<Aspa>)
    requires forall x :: x in all <==> Delivered(parts, x)
    requires forall x | x in na :: Aspas.Picked(all, x)
    requires forall y | y in all && y.customer != 0 && y.providers != [] :: y.customer in Aspas.Customers(na)
    ensures NormalisedAspas(parts, na)
  {
    hide Delivered, Aspas.Precedes;
  }

  lemma CachedIsNormal(c: CacheState, vs: seq<Version>)
    requires Tracks(c, vs)
    ensures Normal(c.roas, c.aspas) && |c.history| <= MAX_HISTORY && |vs| > 0
  {
  }

  lemma LastRecord(c: CacheState, vs: seq<Version>)
    requires Tracks(c, vs) && |c.history| > 0
    ensures |vs| > 1 && Delta(c.history[|c.history| - 1], vs[|vs| - 2], vs[|vs| - 1])
  {
    assert Describes(c.history[|c.history| - 1], vs, |vs| - 2);
  }

  /**
   * An update over the cache's own arrays keeps the trace invariant if and only if it is harmless; otherwise the
   * record it pushes is not the difference between the old content and the new.
   */
  lemma OwnArrays(c: CacheState, vs: seq<Version>, own: Own, r: seq<Roa>, s: seq<Aspa>)
    requires Tracks(c, vs) && Normal(r, s)
    requires (own.roas ==> r == Filter(own.keepRoa, c.roas)) && (own.aspas ==> s == Filter(own.keepAspa, c.aspas))
    ensures var c' := Refreshed(Overwritten(c, own), r, s);
      && (Tracks(c', Extended(vs, View(r, s))) <==> Harmless(c, own))
      && (Harmless(c, own) ==> Moved(c, c', View(r, s)))
      && (!Harmless(c, own) ==>
            |c'.history| > 0 && !Delta(c'.history[|c'.history| - 1], View(c.roas, c.aspas), View(r, s)))
  {
    hide Tracks, Delta, Describes, Normal, View, DiffRecord;
    if Harmless(c, own) {
      HarmlessChangesNothing(c, own);
      RefreshTracks(c, vs, r, s);
      HistoryMovesIff(c, vs, r, s);
    } else {
      HarmfulRecord(c, vs, own, r, s);
      HarmfulPush(c, vs, Overwritten(c, own), r, s);
    }
  }

  lemma HarmlessChangesNothing(c: CacheState, own: Own)
    requires Harmless(c, own)
    ensures Overwritten(c, own) == c
  {
    if own.roas {
      KeptFirstIsPrefix(own.keepRoa, c.roas);
    }
    if own.aspas {
      KeptFirstIsPrefix(own.keepAspa, c.aspas);
    }
  }

  /** A push of a record that is no difference breaks the invariant. */
  lemma HarmfulPush(c: CacheState, vs: seq<Version>, over: CacheState, r: seq<Roa>, s: seq<Aspa>)
    requires Tracks(c, vs) && over.history == c.history && View(r, s) != View(c.roas, c.aspas)
    requires var rec := DiffRecord(over, r, s); HasDiff(rec) && !Delta(rec, View(c.roas, c.aspas), View(r, s))
    ensures var c' := Refreshed(over, r, s);
      && !Tracks(c', Extended(vs, View(r, s)))
      && |c'.history| > 0 && !Delta(c'.history[|c'.history| - 1], View(c.roas, c.aspas), View(r, s))
  {
    hide Delta, Normal, View, DiffRecord;
    var c' := Refreshed(over, r, s);
    var h := c'.history;
    assert h[|h| - 1] == DiffRecord(over, r, s);
    var vs' := Extended(vs, View(r, s));
    if Tracks(c', vs') {
      LastRecord(c', vs');
    }
  }

  lemma HarmfulRecord(c: CacheState, vs: seq<Version>, own: Own, r: seq<Roa>, s: seq<Aspa>)
    requires Tracks(c, vs) && Normal(r, s) && !Harmless(c, own)
    requires (own.roas ==> r == Filter(own.keepRoa, c.roas)) && (own.aspas ==> s == Filter(own.keepAspa, c.aspas))
    ensures View(r, s) != View(c.roas, c.aspas)
    ensures var rec := DiffRecord(Overwritten(c, own), r, s);
      HasDiff(rec) && !Delta(rec, View(c.roas, c.aspas), View(r, s))
  {
    hide DiffOf, Compacted;
    if own.roas && !KeptFirst(own.keepRoa, c.roas) {
      StaleRoas(own.keepRoa, c.roas);
    } else {
      StaleAspas(own.keepAspa, c.aspas);
    }
  }

  lemma StaleRoas(keep: Roa -> bool, cached: seq<Roa>)
    requires StrictlySorted(cached) && !KeptFirst(keep, cached)
    ensures var live := Filter(keep, cached);
      var d := DiffOf(ROA_KIND, live, Compacted(keep, cached));
      KeySet(live) != KeySet(cached) && d.del != [] && KeySet(d.del) != KeySet(cached) - KeySet(live)
  {
    Roas.OwnArrayRefresh(keep, cached);
  }

  lemma StaleAspas(keep: Aspa -> bool, cached: seq<Aspa>)
    requires Aspas.CustomerSorted(cached) && !KeptFirst(keep, cached)
    ensures var live := Filter(keep, cached);
      var d := DiffOf(Aspas.ASPA_KIND, live, Compacted(keep, cached));
      && Aspas.ProviderMap(live) != Aspas.ProviderMap(cached)
      && d.del != []
      && Aspas.ProviderMap(d.del) != Aspas.Changed(Aspas.ProviderMap(live), Aspas.ProviderMap(cached))
  {
    var live := Filter(keep, cached);
    Aspas.OwnArrayRefresh(keep, cached);
    Aspas.FilteredChange(keep, cached);
    Aspas.MapKeys(cached);
    Aspas.MapKeys(live);
    Aspas.MapKeys(DiffOf(Aspas.ASPA_KIND, live, Compacted(keep, cached)).del);
  }

  /** The window itself tells a refresh that changed something: its last `to` moves. */
  lemma HistoryMovesIff(c: CacheState, vs: seq<Version>, roas: seq<Roa>, aspas: seq<Aspa>)
    requires Tracks(c, vs) && Normal(roas, aspas)
    ensures Refreshed(c, roas, aspas).history == c.history <==> View(roas, aspas) == View(c.roas, c.aspas)
  {
    RefreshTracks(c, vs, roas, aspas);
    var c' := Refreshed(c, roas, aspas);
    HistoryChains(c, vs);
    HistoryChains(c', Extended(vs, View(roas, aspas)));
  }

  /**
   * A snapshot taken from the cache still shows the version it was taken at, after any number of later refreshes:
   * none of them writes an array that existed before.
   */
  method SnapshotSurvives(cache: Cache, fetches: seq<Fetch>) returns (s: Snapshot)
    requires cache.Valid()
    modifies cache
    ensures cache.Valid() && old(cache.versions) <= cache.versions
    ensures s.roas == old(cache.roas) && s.roas[..] == old(cache.roas[..])
    ensures s.aspas == old(cache.aspas) && s.aspas[..] == old(cache.aspas[..])
    ensures s.roasLen <= s.roas.Length && s.aspasLen <= s.aspas.Length
    ensures View(s.roas[..s.roasLen], s.aspas[..s.aspasLen]) == old(cache.versions[|cache.versions| - 1])
    ensures s.serial == SerialOf(old(|cache.versions|) - 1)
  {
    s := cache.GetState();
    for i := 0 to |fetches|
      invariant cache.Valid() && old(cache.versions) <= cache.versions
    {
      var ok, nr, na := cache.TriggerRefresh(fetches[i]);
    }
  }

  /**
   * `UpdateROAs` with an expired ASPA in front of a live one: the cache keeps the live customer, and its record tells
   * routers to withdraw it and to keep the expired one.
   */
  method OwnArrayWithdrawsLive(session: uint16, now: int) returns (cache: Cache)
    requires now >= 1_000_000_000
    ensures var dead, live := Aspas.Aspa(65000, [1], 1), Aspas.Aspa(65001, [1], 0);
      && cache.InRange() && !cache.Valid()
      && cache.State() == CacheState([], [live], [Record(1, 2, [], [], [], [live])], 2, session)
      && cache.versions == [View([], [dead, live]), View([], [live])]
  {
    hide Tracks, Normal, Filter, Compacted, Refreshed, View, KeptFirst, StrictlySorted, AllValid;
    var dead, live := Aspas.Aspa(65000, [1], 1), Aspas.Aspa(65001, [1], 0);
    cache := new Cache(session);
    var a, b := new Roa[0], new Aspa[] [dead, live];
    assert a[..0] == [] && b[..2] == [dead, live];
    SampleViews();
    cache.Replace(a, 0, b, 2);
    var none := new Roa[0];
    assert none[..0] == [];
    SampleExpiry(session, now);
    cache.UpdateRoas(none, 0, now, now);
  }

  lemma SampleExpiry(session: uint16, now: int)
    requires now >= 1_000_000_000
    ensures var dead, live := Aspas.Aspa(65000, [1], 1), Aspas.Aspa(65001, [1], 0);
      var keep, c := Aspas.AspaAlive(now), Fresh([], [dead, live], session);
      && Filter(keep, [dead, live]) == [live] && !KeptFirst(keep, [dead, live])
      && Refreshed(c.(aspas := Compacted(keep, [dead, live])), [], [live]) ==
           CacheState([], [live], [Record(1, 2, [], [], [], [live])], 2, session)
  {
    var dead, live := Aspas.Aspa(65000, [1], 1), Aspas.Aspa(65001, [1], 0);
    var keep := Aspas.AspaAlive(now);
    assert keep([dead, live][1]) && !keep([dead, live][0]);
    assert [dead, live][..1] == [dead] && [dead][..0] == [];
    assert Filter(keep, [dead]) == [];
    PushAgainstOwn(Fresh([], [dead, live], session), live);
    assert Compacted(keep, [dead, live]) == [live] + [live];
  }

  /** A list diffed against itself with its last entry repeated: that entry is deleted. */
  lemma PushAgainstOwn(c: CacheState, live: Aspa)
    requires c.roas == [] && c.history == [] && c.serial == 1
    ensures Refreshed(c.(aspas := [live] + [live]), [], [live]) ==
              CacheState([], [live], [Record(1, 2, [], [], [], [live])], 2, c.session)
  {
    hide DiffOf;
    Aspas.AspaKindIsLawful();
    DiffAgainstExtension(Aspas.ASPA_KIND, [live], [live]);
    NothingToDiff();
    assert [] + [Record(1, 2, [], [], [], [live])] == [Record(1, 2, [], [], [], [live])];
  }

  lemma NothingToDiff()
    ensures DiffOf(ROA_KIND, [], []) == Diff([], [])
  {
  }

  lemma SampleViews()
    ensures Normal([], [Aspas.Aspa(65000, [1], 1), Aspas.Aspa(65001, [1], 0)]) && StrictlySorted([]) && AllValid([])
    ensures forall keep: Roa -> bool :: Filter(keep, []) == []
    ensures View([], [Aspas.Aspa(65000, [1], 1), Aspas.Aspa(65001, [1], 0)]) != View([], [Aspas.Aspa(65001, [1], 0)])
  {
    var dead, live := Aspas.Aspa(65000, [1], 1), Aspas.Aspa(65001, [1], 0);
    Aspas.MapKeys([dead, live]);
    Aspas.MapKeys([live]);
    assert dead in [dead, live];
    assert 65000 in Aspas.Customers([dead, live]) && 65000 !in Aspas.Customers([live]);
  }
}
