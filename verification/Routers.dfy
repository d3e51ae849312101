/** A router's side of the protocol: how a response block changes the table it holds. */
module Routers {
  import opened Words
  import opened Tables
  import opened Roas
  import opened History
  import opened Aggregation
  import opened Pdus
  import Aspas

  // ---------------------------------------------------------------- the blocks the cache sends

  function RoaPdus(version: uint8, flags: uint8, s: seq<Roa>): (ps: seq<Pdu>)
    ensures |ps| == |s|
  {
    if s == [] then [] else RoaPdus(version, flags, s[..|s| - 1]) + [RoaPdu(version, flags, s[|s| - 1].Key())]
  }

  function AspaPdus(version: uint8, flags: uint8, s: seq<Aspa>): (ps: seq<Pdu>)
    ensures |ps| == |s|
  {
    if s == [] then []
    else var a := s[|s| - 1];
      AspaPdus(version, flags, s[..|s| - 1]) + [Pdu.Aspa(version, flags, a.customer, a.providers)]
  }

  /** ASPA PDUs only go to version 2 sessions. */
  function AspaPdusFor(version: uint8, flags: uint8, s: seq<Aspa>): seq<Pdu> {
    if version >= 2 then AspaPdus(version, flags, s) else []
  }

  /** The payload of `sendDiffs`. */
  function DiffPayload(version: uint8, p: Reply): seq<Pdu> {
    RoaPdus(version, ANNOUNCE, p.add) + AspaPdusFor(version, ANNOUNCE, p.addAspa) +
    RoaPdus(version, WITHDRAW, p.del) + AspaPdusFor(version, WITHDRAW, p.delAspa)
  }

  /** The payload of `sendAllData`. */
  function FullPayload(version: uint8, roas: seq<Roa>, aspas: seq<Aspa>): seq<Pdu> {
    RoaPdus(version, ANNOUNCE, roas) + AspaPdusFor(version, ANNOUNCE, aspas)
  }

  const REFRESH_INTERVAL: uint32 := 3600
  const RETRY_INTERVAL: uint32 := 600
  const EXPIRE_INTERVAL: uint32 := 7200

  /** Cache Response, payload, End of Data. */
  function DataBlock(version: uint8, session: uint16, serial: uint32, payload: seq<Pdu>): seq<Pdu> {
    [CacheResponse(version, session)] + payload +
    [EndOfData(version, session, serial, REFRESH_INTERVAL, RETRY_INTERVAL, EXPIRE_INTERVAL)]
  }

  // ---------------------------------------------------------------- applying a block

  /** One payload PDU; the errors are Duplicate Announcement and Withdrawal of Unknown Record. */
  function Apply(t: Version, p: Pdu): Result<Version, uint16> {
    if p.Aspa? then
      if p.flags % 2 == ANNOUNCE then Ok(t.(aspas := t.aspas[p.customer := p.providers]))
      else if p.customer in t.aspas then Ok(t.(aspas := t.aspas - {p.customer}))
      else Err(UNKNOWN_WITHDRAWAL)
    else if p.Ipv4Prefix? || p.Ipv6Prefix? then
      match PduKey(p)
      case None => Err(CORRUPT_DATA)
      case Some(k) =>
        if p.flags % 2 == ANNOUNCE then (if k in t.roas then Err(DUPLICATE) else Ok(t.(roas := t.roas + {k})))
        else if k in t.roas then Ok(t.(roas := t.roas - {k}))
        else Err(UNKNOWN_WITHDRAWAL)
    else
      Err(CORRUPT_DATA)
  }

  function ApplyAll(t: Version, ps: seq<Pdu>): Result<Version, uint16> {
    if ps == [] then Ok(t)
    else match ApplyAll(t, ps[..|ps| - 1])
      case Ok(u) => Apply(u, ps[|ps| - 1])
      case Err(e) => Err(e)
  }

  lemma {:induction false} ApplyAllConcat(t: Version, ps: seq<Pdu>, qs: seq<Pdu>)
    requires ApplyAll(t, ps).Ok?
    ensures ApplyAll(t, ps + qs) == ApplyAll(ApplyAll(t, ps).value, qs)
  {
    if qs == [] {
      assert ps + qs == ps;
    } else {
      assert (ps + qs)[..|ps + qs| - 1] == ps + qs[..|qs| - 1];
      ApplyAllConcat(t, ps, qs[..|qs| - 1]);
    }
  }

  lemma LastKey(s: seq<Roa>)
    requires s != [] && DistinctGroups(ROA_KIND, s)
    ensures DistinctGroups(ROA_KIND, s[..|s| - 1])
    ensures KeySet(s) == KeySet(s[..|s| - 1]) + {s[|s| - 1].Key()}
    ensures s[|s| - 1].Key() !in KeySet(s[..|s| - 1])
  {
    var n := |s| - 1;
    assert s == s[..n] + [s[n]];
    forall i | 0 <= i < n ensures s[i].Key() != s[n].Key() {
      assert ROA_KIND.group(s[i]) != ROA_KIND.group(s[n]);
    }
  }

  lemma ApplyOne(t: Version, version: uint8, k: RoaKey)
    requires ValidKey(k)
    ensures k !in t.roas ==> Apply(t, RoaPdu(version, ANNOUNCE, k)) == Ok(t.(roas := t.roas + {k}))
    ensures k in t.roas ==> Apply(t, RoaPdu(version, WITHDRAW, k)) == Ok(t.(roas := t.roas - {k}))
  {
    RoaPduRoundTrip(version, ANNOUNCE, k);
    RoaPduRoundTrip(version, WITHDRAW, k);
  }

  lemma {:induction false} AnnouncesApply(t: Version, version: uint8, s: seq<Roa>)
    requires DistinctGroups(ROA_KIND, s) && ValidKeys(KeySet(s)) && KeySet(s) !! t.roas
    ensures ApplyAll(t, RoaPdus(version, ANNOUNCE, s)) == Ok(Version(t.roas + KeySet(s), t.aspas))
  {
    if s == [] {
      assert t.roas + KeySet(s) == t.roas;
    } else {
      var front, k := s[..|s| - 1], s[|s| - 1].Key();
      LastKey(s);
      AnnouncesApply(t, version, front);
      ApplyOne(Version(t.roas + KeySet(front), t.aspas), version, k);
      var ps := RoaPdus(version, ANNOUNCE, s);
      assert ps[..|ps| - 1] == RoaPdus(version, ANNOUNCE, front);
      assert t.roas + KeySet(front) + {k} == t.roas + KeySet(s);
    }
  }

  lemma {:induction false} WithdrawsApply(t: Version, version: uint8, s: seq<Roa>)
    requires DistinctGroups(ROA_KIND, s) && ValidKeys(KeySet(s)) && KeySet(s) <= t.roas
    ensures ApplyAll(t, RoaPdus(version, WITHDRAW, s)) == Ok(Version(t.roas - KeySet(s), t.aspas))
  {
    if s == [] {
      assert t.roas - KeySet(s) == t.roas;
    } else {
      var front, k := s[..|s| - 1], s[|s| - 1].Key();
      LastKey(s);
      WithdrawsApply(t, version, front);
      ApplyOne(Version(t.roas - KeySet(front), t.aspas), version, k);
      var ps := RoaPdus(version, WITHDRAW, s);
      assert ps[..|ps| - 1] == RoaPdus(version, WITHDRAW, front);
      assert t.roas - KeySet(front) - {k} == t.roas - KeySet(s);
    }
  }

  lemma {:induction false} AspaAnnouncesApply(t: Version, version: uint8, s: seq<Aspa>)
    ensures ApplyAll(t, AspaPdus(version, ANNOUNCE, s)) == Ok(t.(aspas := Announced(t.aspas, s)))
  {
    if s != [] {
      AspaAnnouncesApply(t, version, s[..|s| - 1]);
      var ps := AspaPdus(version, ANNOUNCE, s);
      assert ps[..|ps| - 1] == AspaPdus(version, ANNOUNCE, s[..|s| - 1]);
    }
  }

  lemma {:induction false} AspaWithdrawsApply(t: Version, version: uint8, s: seq<Aspa>)
    requires DistinctGroups(Aspas.ASPA_KIND, s) && Aspas.Customers(s) <= t.aspas.Keys
    ensures ApplyAll(t, AspaPdus(version, WITHDRAW, s)) == Ok(t.(aspas := t.aspas - Aspas.Customers(s)))
  {
    if s == [] {
      assert Aspas.Customers(s) == {};
      assert t.aspas - Aspas.Customers(s) == t.aspas;
    } else {
      var n := |s| - 1;
      LastCustomer(s);
      LastCustomerIsNew(s);
      AspaWithdrawsApply(t, version, s[..n]);
      var ps := AspaPdus(version, WITHDRAW, s);
      assert ps[..|ps| - 1] == AspaPdus(version, WITHDRAW, s[..n]);
      assert t.aspas - Aspas.Customers(s[..n]) - {s[n].customer} == t.aspas - Aspas.Customers(s);
    }
  }

  lemma LastCustomerIsNew(s: seq<Aspa>)
    requires s != [] && DistinctGroups(Aspas.ASPA_KIND, s)
    ensures DistinctGroups(Aspas.ASPA_KIND, s[..|s| - 1])
    ensures s[|s| - 1].customer !in Aspas.Customers(s[..|s| - 1])
  {
    var n := |s| - 1;
    forall a | a in s[..n] ensures a.customer != s[n].customer {
      var i :| 0 <= i < n && s[i] == a;
      assert Aspas.ASPA_KIND.group(s[i]) != Aspas.ASPA_KIND.group(s[n]);
    }
  }

  // ---------------------------------------------------------------- what a table stands for

  /** `t` is what a session of this version knows of `v`; with `exact`, the providers agree as well. */
  ghost predicate Holds(version: uint8, t: Version, v: Version, exact: bool) {
    && t.roas == v.roas
    && (version >= 2 ==> t.aspas.Keys == v.aspas.Keys && (exact ==> t.aspas == v.aspas))
  }

  lemma AnnounceStage(version: uint8, t: Version, s: seq<Roa>, s': seq<Aspa>)
    requires DistinctGroups(ROA_KIND, s) && ValidKeys(KeySet(s)) && KeySet(s) !! t.roas
    ensures ApplyAll(t, RoaPdus(version, ANNOUNCE, s) + AspaPdusFor(version, ANNOUNCE, s')) ==
              Ok(Version(t.roas + KeySet(s), if version >= 2 then Announced(t.aspas, s') else t.aspas))
  {
    AnnouncesApply(t, version, s);
    AspaAnnouncesApply(Version(t.roas + KeySet(s), t.aspas), version, s');
    ApplyAllConcat(t, RoaPdus(version, ANNOUNCE, s), AspaPdusFor(version, ANNOUNCE, s'));
  }

  lemma WithdrawStage(version: uint8, t: Version, s: seq<Roa>, s': seq<Aspa>)
    requires DistinctGroups(ROA_KIND, s) && ValidKeys(KeySet(s)) && KeySet(s) <= t.roas
    requires DistinctGroups(Aspas.ASPA_KIND, s') && (version >= 2 ==> Aspas.Customers(s') <= t.aspas.Keys)
    ensures ApplyAll(t, RoaPdus(version, WITHDRAW, s) + AspaPdusFor(version, WITHDRAW, s')) ==
              Ok(Version(t.roas - KeySet(s), if version >= 2 then t.aspas - Aspas.Customers(s') else t.aspas))
  {
    WithdrawsApply(t, version, s);
    if version >= 2 {
      AspaWithdrawsApply(Version(t.roas - KeySet(s), t.aspas), version, s');
    }
    ApplyAllConcat(t, RoaPdus(version, WITHDRAW, s), AspaPdusFor(version, WITHDRAW, s'));
  }

  /**
   * A router that holds the start version applies the whole reply without a duplicate announcement or an unknown
   * withdrawal, and ends with the ROAs and the ASPA customers of the end version.
   */
  lemma ReplyApplies(version: uint8, t: Version, recs: seq<Record>, vs: seq<Version>, p: Reply)
    requires Chain(recs, vs) && IsReply(recs, p)
    requires ValidKeys(vs[0].roas) && ValidKeys(vs[|recs|].roas)
    requires Holds(version, t, vs[0], false)
    ensures ApplyAll(t, DiffPayload(version, p)) ==
              Ok(Version(vs[|recs|].roas, if version >= 2 then AspaOutcome(t.aspas, p) else t.aspas))
    ensures version >= 2 ==> AspaOutcome(t.aspas, p).Keys == vs[|recs|].aspas.Keys
  {
    ReplyIsVersionDifference(recs, vs, p);
    DifferenceApplies(version, t, vs[|recs|], p);
  }

  /** The four lists of `p` are the differences between what `t` holds and `w`, each item once. */
  ghost predicate LeadsTo(version: uint8, t: Version, w: Version, p: Reply) {
    && DistinctGroups(ROA_KIND, p.add) && DistinctGroups(ROA_KIND, p.del)
    && DistinctGroups(Aspas.ASPA_KIND, p.delAspa)
    && KeySet(p.add) == w.roas - t.roas && KeySet(p.del) == t.roas - w.roas
    && (version >= 2 ==>
          && Aspas.Customers(p.addAspa) == w.aspas.Keys - t.aspas.Keys
          && Aspas.Customers(p.delAspa) == t.aspas.Keys - w.aspas.Keys)
  }

  lemma DifferenceApplies(version: uint8, t: Version, w: Version, p: Reply)
    requires LeadsTo(version, t, w, p) && ValidKeys(t.roas) && ValidKeys(w.roas)
    ensures ApplyAll(t, DiffPayload(version, p)) ==
              Ok(Version(w.roas, if version >= 2 then AspaOutcome(t.aspas, p) else t.aspas))
    ensures version >= 2 ==> AspaOutcome(t.aspas, p).Keys == w.aspas.Keys
  {
    hide RoaPdus, AspaPdusFor, ApplyAll, Announced;
    AnnouncedKeys(t.aspas, p.addAspa);
    AnnounceStage(version, t, p.add, p.addAspa);
    var u := Version(t.roas + KeySet(p.add), if version >= 2 then Announced(t.aspas, p.addAspa) else t.aspas);
    WithdrawStage(version, u, p.del, p.delAspa);
    assert u.roas - KeySet(p.del) == w.roas;
    var a, b := RoaPdus(version, ANNOUNCE, p.add), AspaPdusFor(version, ANNOUNCE, p.addAspa);
    var c, d := RoaPdus(version, WITHDRAW, p.del), AspaPdusFor(version, WITHDRAW, p.delAspa);
    ApplyAllConcat(t, a + b, c + d);
    assert a + b + c + d == (a + b) + (c + d);
  }

  lemma {:induction false} AnnouncedKeys(t: AspaTable, s: seq<Aspa>)
    ensures Announced(t, s).Keys == t.Keys + Aspas.Customers(s)
  {
    if s == [] {
      assert Aspas.Customers(s) == {};
    } else {
      AnnouncedKeys(t, s[..|s| - 1]);
      LastCustomer(s);
    }
  }

  /** The full data, announced to an empty table, gives exactly the version it was read from. */
  lemma FullDataApplies(version: uint8, roas: seq<Roa>, aspas: seq<Aspa>)
    requires Normal(roas, aspas)
    ensures ApplyAll(Version({}, map[]), FullPayload(version, roas, aspas)).Ok?
    ensures Holds(version, ApplyAll(Version({}, map[]), FullPayload(version, roas, aspas)).value, View(roas, aspas), true)
  {
    SortedIsStrict(roas);
    NormalKeysAreValid(roas);
    AnnounceStage(version, Version({}, map[]), roas, aspas);
    AnnouncedFromEmpty(aspas);
  }

  lemma AnnouncedFromEmpty(s: seq<Aspa>)
    requires Aspas.CustomerSorted(s)
    ensures Announced(map[], s) == Aspas.ProviderMap(s)
  {
    Aspas.SortedIsStrict(s);
    Aspas.MapKeys(s);
    var e: AspaTable := map[];
    forall c
      ensures c in Announced(e, s) <==> c in Aspas.ProviderMap(s)
      ensures c in Aspas.ProviderMap(s) ==> Announced(e, s)[c] == Aspas.ProviderMap(s)[c]
    {
      AnnouncedAt(e, s, c);
      if c in Aspas.ProviderMap(s) {
        Aspas.MapOfSorted(s, c, Announced(e, s)[c]);
      }
    }
    assert Announced(e, s).Keys == Aspas.ProviderMap(s).Keys;
  }

  // ---------------------------------------------------------------- receiving a block

  datatype Commit = Commit(table: Version, session: uint16, serial: uint32)

  /** The router commits at End of Data; a Reset Query is answered into an empty table. */
  function Receive(held: Version, blank: bool, block: seq<Pdu>): Result<Commit, uint16> {
    if |block| < 2 || !block[0].CacheResponse? || !block[|block| - 1].EndOfData? then
      Err(CORRUPT_DATA)
    else
      match ApplyAll(if blank then Version({}, map[]) else held, block[1..|block| - 1])
      case Ok(t) => Ok(Commit(t, block[|block| - 1].session, block[|block| - 1].serial))
      case Err(e) => Err(e)
  }

  lemma ReceiveBlock(held: Version, blank: bool, version: uint8, session: uint16, serial: uint32, payload: seq<Pdu>)
    ensures Receive(held, blank, DataBlock(version, session, serial, payload)) ==
              match ApplyAll(if blank then Version({}, map[]) else held, payload)
              case Ok(t) => Ok(Commit(t, session, serial))
              case Err(e) => Err(e)
  {
    var block := DataBlock(version, session, serial, payload);
    assert block[1..|block| - 1] == payload;
  }
}
