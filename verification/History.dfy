/**
 * The versioned cache as a value: full lists, a bounded window of diff records and a wrapping serial,
 * together with the trace of every version it has held.
 */
module History {
  import opened Words
  import opened Tables
  import opened Roas
  import Aspas

  type Aspa = Aspas.Aspa
  type AspaTable = map<uint32, Aspas.Providers>

  const MAX_HISTORY: nat := 10

  /** What a data set means to a router. */
  datatype Version = Version(roas: set<RoaKey>, aspas: AspaTable)

  datatype Record = Record(from: uint32, to: uint32, add: seq<Roa>, del: seq<Roa>, addAspa: seq<Aspa>, delAspa: seq<Aspa>)

  datatype CacheState = CacheState(
    roas: seq<Roa>, aspas: seq<Aspa>, history: seq<Record>, serial: uint32, session: uint16)

  function View(roas: seq<Roa>, aspas: seq<Aspa>): Version {
    Version(KeySet(roas), Aspas.ProviderMap(aspas))
  }

  /** The lists `GetSetOfValidatedROAs` and `DeduplicateASPAsInPlace` leave, and expiry filtering keeps. */
  ghost predicate Normal(roas: seq<Roa>, aspas: seq<Aspa>) {
    && StrictlySorted(roas) && AllValid(roas)
    && Aspas.CustomerSorted(aspas) && Aspas.AllValid(aspas)
  }

  /** `newCache` followed by the initial `replaceRoas` and `replaceAspas`. */
  function Fresh(roas: seq<Roa>, aspas: seq<Aspa>, session: uint16): CacheState {
    CacheState(roas, aspas, [], 1, session)
  }

  function Trim(h: seq<Record>): seq<Record> {
    if |h| > MAX_HISTORY then h[1..] else h
  }

  /** The record of the difference between `c` and the new lists. */
  function DiffRecord(c: CacheState, roas: seq<Roa>, aspas: seq<Aspa>): Record {
    var d := DiffOf(ROA_KIND, roas, c.roas);
    var e := DiffOf(Aspas.ASPA_KIND, aspas, c.aspas);
    Record(c.serial, Wrap32(c.serial + 1), d.add, d.del, e.add, e.del)
  }

  predicate HasDiff(r: Record) {
    |r.add| > 0 || |r.del| > 0 || |r.addAspa| > 0 || |r.delAspa| > 0
  }

  /** `updateDiffs` and `incrementSerial`. */
  function Pushed(c: CacheState, roas: seq<Roa>, aspas: seq<Aspa>, r: Record): CacheState {
    CacheState(roas, aspas, Trim(c.history + [r]), Wrap32(c.serial + 1), c.session)
  }

  /** The locked part of `updateCache`: diff, and on any difference record it and bump the serial. */
  function Refreshed(c: CacheState, roas: seq<Roa>, aspas: seq<Aspa>): CacheState {
    var r := DiffRecord(c, roas, aspas);
    if HasDiff(r) then Pushed(c, roas, aspas, r) else c
  }

  // ---------------------------------------------------------------- the trace invariant

  /** The serial that labels the `n`-th version. */
  function SerialOf(n: nat): uint32 {
    Wrap32(n + 1)
  }

  /** `r` is the difference between two versions, each change listed once. */
  ghost predicate Delta(r: Record, v: Version, w: Version) {
    && StrictlySorted(r.add) && StrictlySorted(r.del)
    && KeySet(r.add) == w.roas - v.roas
    && KeySet(r.del) == v.roas - w.roas
    && Aspas.CustomerSorted(r.addAspa) && Aspas.CustomerSorted(r.delAspa)
    && Aspas.ProviderMap(r.addAspa) == Aspas.Changed(v.aspas, w.aspas)
    && Aspas.ProviderMap(r.delAspa) == Aspas.Changed(w.aspas, v.aspas)
  }

  /** `r` leads from the `m`-th version to the next. */
  ghost predicate Describes(r: Record, vs: seq<Version>, m: nat)
    requires m + 1 < |vs|
  {
    r.from == SerialOf(m) && r.to == SerialOf(m + 1) && Delta(r, vs[m], vs[m + 1])
  }

  function Min(a: nat, b: nat): nat {
    if a < b then a else b
  }

  /** The cache `c` is at the end of the version trace `vs`, and its window describes the last steps of it. */
  ghost predicate Tracks(c: CacheState, vs: seq<Version>) {
    && |vs| > 0
    && (forall m | 0 <= m < |vs| :: ValidKeys(vs[m].roas))
    && Normal(c.roas, c.aspas)
    && View(c.roas, c.aspas) == vs[|vs| - 1]
    && c.serial == SerialOf(|vs| - 1)
    && |c.history| == Min(MAX_HISTORY, |vs| - 1)
    && forall k | 0 <= k < |c.history| :: Describes(c.history[k], vs, |vs| - 1 - |c.history| + k)
  }

  ghost predicate ValidKeys(ks: set<RoaKey>) {
    forall k | k in ks :: ValidKey(k)
  }

  lemma NormalKeysAreValid(roas: seq<Roa>)
    requires AllValid(roas)
    ensures ValidKeys(KeySet(roas))
  {
    forall r | r in roas ensures ValidKey(r.Key()) {
      ValidityIsTheRule(r);
    }
  }

  /** The trace after a refresh: it grows iff the content differs. */
  function Extended(vs: seq<Version>, v: Version): seq<Version>
    requires |vs| > 0
  {
    if v == vs[|vs| - 1] then vs else vs + [v]
  }

  lemma FreshTracks(roas: seq<Roa>, aspas: seq<Aspa>, session: uint16)
    requires Normal(roas, aspas)
    ensures Tracks(Fresh(roas, aspas, session), [View(roas, aspas)])
  {
    NormalKeysAreValid(roas);
  }

  /** The four diff lists of a refresh describe the step between the two contents, and are empty iff they agree. */
  lemma DiffsDescribe(c: CacheState, roas: seq<Roa>, aspas: seq<Aspa>)
    requires Normal(c.roas, c.aspas) && Normal(roas, aspas)
    ensures Delta(DiffRecord(c, roas, aspas), View(c.roas, c.aspas), View(roas, aspas))
    ensures HasDiff(DiffRecord(c, roas, aspas)) <==> View(roas, aspas) != View(c.roas, c.aspas)
  {
    var d := DiffOf(ROA_KIND, roas, c.roas);
    var e := DiffOf(Aspas.ASPA_KIND, aspas, c.aspas);
    DiffIsSetDifference(roas, c.roas);
    Aspas.DiffIsMapDifference(aspas, c.aspas);
    EmptyKeySet(d.add);
    EmptyKeySet(d.del);
    EmptyProviderMap(e.add);
    EmptyProviderMap(e.del);
    var v, w := View(c.roas, c.aspas), View(roas, aspas);
    if v.aspas == w.aspas {
      assert Aspas.Changed(v.aspas, w.aspas) == map[] && Aspas.Changed(w.aspas, v.aspas) == map[];
    }
    if Aspas.Changed(v.aspas, w.aspas) == map[] && Aspas.Changed(w.aspas, v.aspas) == map[] {
      NothingChanged(v.aspas, w.aspas);
    }
  }

  lemma NothingChanged(v: AspaTable, w: AspaTable)
    requires Aspas.Changed(v, w) == map[] && Aspas.Changed(w, v) == map[]
    ensures v == w
  {
    forall c ensures c in v <==> c in w {
      assert c !in Aspas.Changed(v, w) && c !in Aspas.Changed(w, v);
    }
    forall c | c in v ensures v[c] == w[c] {
      assert c !in Aspas.Changed(v, w);
    }
  }

  lemma EmptyKeySet(s: seq<Roa>)
    ensures KeySet(s) == {} <==> s == []
  {
    if s != [] {
      assert s[0].Key() in KeySet(s);
    }
  }

  lemma EmptyProviderMap(s: seq<Aspa>)
    ensures Aspas.ProviderMap(s) == map[] <==> s == []
  {
    if s != [] {
      assert s[0].customer in Aspas.ProviderMap(s);
    }
  }

  /** Every refresh keeps the trace invariant, and moves serial, history and trace iff the content changed. */
  lemma RefreshTracks(c: CacheState, vs: seq<Version>, roas: seq<Roa>, aspas: seq<Aspa>)
    requires Tracks(c, vs) && Normal(roas, aspas)
    ensures Tracks(Refreshed(c, roas, aspas), Extended(vs, View(roas, aspas)))
    ensures View(Refreshed(c, roas, aspas).roas, Refreshed(c, roas, aspas).aspas) == View(roas, aspas)
    ensures Refreshed(c, roas, aspas) == c <==> View(roas, aspas) == View(c.roas, c.aspas)
    ensures Refreshed(c, roas, aspas).serial == c.serial <==> View(roas, aspas) == View(c.roas, c.aspas)
  {
    hide Delta;
    var r := DiffRecord(c, roas, aspas);
    DiffsDescribe(c, roas, aspas);
    NextSerial(|vs| - 1);
    if HasDiff(r) {
      PushTracks(c, vs, roas, aspas, r);
    }
  }

  /** Pushing a record that leads to the new content extends both the window and the trace. */
  lemma PushTracks(c: CacheState, vs: seq<Version>, roas: seq<Roa>, aspas: seq<Aspa>, r: Record)
    requires Tracks(c, vs) && Normal(roas, aspas)
    requires r.from == c.serial && r.to == Wrap32(c.serial + 1) && Delta(r, vs[|vs| - 1], View(roas, aspas))
    ensures Tracks(Pushed(c, roas, aspas, r), vs + [View(roas, aspas)])
  {
    var vs' := vs + [View(roas, aspas)];
    NextSerial(|vs| - 1);
    NormalKeysAreValid(roas);
    assert Describes(r, vs', |vs| - 1);
    hide Delta, ValidKeys, View, Describes, Normal, SerialOf;
    var h := c.history + [r];
    forall k | 0 <= k < |h| ensures Describes(h[k], vs', |vs'| - 1 - |h| + k) {
      if k < |c.history| {
        assert Describes(c.history[k], vs, |vs| - 1 - |c.history| + k);
        DescribesGrows(c.history[k], vs, View(roas, aspas), |vs| - 1 - |c.history| + k);
      }
    }
    WindowSlides(h, vs');
  }

  lemma DescribesGrows(r: Record, vs: seq<Version>, v: Version, m: nat)
    requires m + 1 < |vs| && Describes(r, vs, m)
    ensures Describes(r, vs + [v], m)
  {
    hide Delta;
  }

  lemma WindowSlides(h: seq<Record>, vs: seq<Version>)
    requires 0 < |h| <= MAX_HISTORY + 1 && |h| < |vs|
    requires forall k | 0 <= k < |h| :: Describes(h[k], vs, |vs| - 1 - |h| + k)
    ensures forall k | 0 <= k < |Trim(h)| :: Describes(Trim(h)[k], vs, |vs| - 1 - |Trim(h)| + k)
  {
    hide Describes;
    forall k | 0 <= k < |Trim(h)| ensures Describes(Trim(h)[k], vs, |vs| - 1 - |Trim(h)| + k) {
      var j := |h| - |Trim(h)| + k;
      assert Trim(h)[k] == h[j];
      assert Describes(h[j], vs, |vs| - 1 - |h| + j);
    }
  }

  lemma NextSerial(n: nat)
    ensures Wrap32(SerialOf(n) + 1) == SerialOf(n + 1)
    ensures SerialOf(n + 1) != SerialOf(n)
  {
  }

  // ---------------------------------------------------------------- runs of refreshes

  datatype Load = Load(roas: seq<Roa>, aspas: seq<Aspa>)

  function AfterLoads(c: CacheState, loads: seq<Load>): CacheState {
    if loads == [] then c
    else var l := loads[|loads| - 1];
      Refreshed(AfterLoads(c, loads[..|loads| - 1]), l.roas, l.aspas)
  }

  function VersionsAfter(vs: seq<Version>, loads: seq<Load>): (r: seq<Version>)
    requires |vs| > 0
    ensures |r| > 0
  {
    if loads == [] then vs
    else var l := loads[|loads| - 1];
      Extended(VersionsAfter(vs, loads[..|loads| - 1]), View(l.roas, l.aspas))
  }

  /** After every run of refreshes, however often the serial wraps, the cache tracks the full trace. */
  lemma {:induction false} RunTracks(c: CacheState, vs: seq<Version>, loads: seq<Load>)
    requires Tracks(c, vs)
    requires forall l | l in loads :: Normal(l.roas, l.aspas)
    ensures Tracks(AfterLoads(c, loads), VersionsAfter(vs, loads))
    ensures vs <= VersionsAfter(vs, loads)
  {
    hide Refreshed;
    if loads != [] {
      var front := loads[..|loads| - 1];
      assert forall l | l in front :: l in loads;
      RunTracks(c, vs, front);
      var l := loads[|loads| - 1];
      RefreshTracks(AfterLoads(c, front), VersionsAfter(vs, front), l.roas, l.aspas);
    }
  }

  // ---------------------------------------------------------------- finding the start record

  /** The first record from `q`, or the length of `h`. */
  function IndexFrom(h: seq<Record>, q: uint32): (i: nat)
    ensures i <= |h|
    ensures i < |h| ==> h[i].from == q
    ensures forall k | 0 <= k < i :: h[k].from != q
  {
    if h == [] || h[0].from == q then 0 else 1 + IndexFrom(h[1..], q)
  }

  predicate Known(c: CacheState, q: uint32) {
    q == c.serial || IndexFrom(c.history, q) < |c.history|
  }

  /** The records a Serial Query from `q` aggregates. */
  function Since(c: CacheState, q: uint32): seq<Record>
    requires Known(c, q)
  {
    if q == c.serial then [] else c.history[IndexFrom(c.history, q)..]
  }

  /** How many versions `q` is behind, in serial arithmetic. */
  function Lag(c: CacheState, q: uint32): nat {
    (c.serial - q) % TWO_32
  }

  /** The window as a chain: `to` meets `from`, the last `to` is the serial, and no serial starts two records. */
  lemma HistoryChains(c: CacheState, vs: seq<Version>)
    requires Tracks(c, vs)
    ensures |c.history| == if |vs| - 1 < 10 then |vs| - 1 else 10
    ensures forall k | 0 < k < |c.history| :: c.history[k - 1].to == c.history[k].from
    ensures |c.history| > 0 ==> c.history[|c.history| - 1].to == c.serial
    ensures forall k | 0 <= k < |c.history| :: Lag(c, c.history[k].from) == |c.history| - k
    ensures forall j, k | 0 <= j < k < |c.history| :: c.history[j].from != c.history[k].from
  {
    forall k | 0 <= k < |c.history|
      ensures Lag(c, c.history[k].from) == |c.history| - k
      ensures k > 0 ==> c.history[k - 1].to == c.history[k].from
      ensures k == |c.history| - 1 ==> c.history[k].to == c.serial
    {
      var m := |vs| - 1 - |c.history| + k;
      assert Describes(c.history[k], vs, m);
      if k > 0 {
        assert Describes(c.history[k - 1], vs, m - 1);
      }
      LagOf(|vs| - 1, m);
    }
  }

  lemma LagOf(n: nat, m: nat)
    requires m <= n < m + TWO_32
    ensures (SerialOf(n) - SerialOf(m)) % TWO_32 == n - m
  {
  }

  /** A Serial Query can be answered exactly when the asked serial is at most one window behind. */
  lemma KnownIffInWindow(c: CacheState, vs: seq<Version>, q: uint32)
    requires Tracks(c, vs)
    ensures Known(c, q) <==> Lag(c, q) <= |c.history|
    ensures Known(c, q) ==> Since(c, q) == c.history[|c.history| - Lag(c, q)..]
  {
    HistoryChains(c, vs);
    KnownByLag(c, q);
  }

  lemma KnownByLag(c: CacheState, q: uint32)
    requires forall k | 0 <= k < |c.history| :: Lag(c, c.history[k].from) == |c.history| - k
    ensures Known(c, q) <==> Lag(c, q) <= |c.history|
    ensures Known(c, q) ==> Since(c, q) == c.history[|c.history| - Lag(c, q)..]
  {
    var h := c.history;
    var i := IndexFrom(h, q);
    SameLagSameSerial(c, c.serial, q);
    if i < |h| {
      assert Lag(c, h[i].from) == |h| - i;
    } else if 0 < Lag(c, q) <= |h| {
      var k := |h| - Lag(c, q);
      SameLagSameSerial(c, h[k].from, q);
    }
  }

  lemma SameLagSameSerial(c: CacheState, p: uint32, q: uint32)
    ensures Lag(c, p) == Lag(c, q) <==> p == q
    ensures Lag(c, c.serial) == 0
  {
  }
}
