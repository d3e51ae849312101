/** `getDiffsFrom` after it has found its start record: cancelling opposite changes by counting. */
module Aggregation {
  import opened Words
  import opened Tables
  import opened Roas
  import opened History
  import Aspas

  datatype Reply = Reply(add: seq<Roa>, del: seq<Roa>, addAspa: seq<Aspa>, delAspa: seq<Aspa>)

  function Ind(b: bool): int {
    if b then 1 else 0
  }

  /** Additions minus deletions of `k` over `recs`. */
  function NetRoa(recs: seq<Record>, k: RoaKey): int {
    if recs == [] then 0
    else var r := recs[|recs| - 1];
      NetRoa(recs[..|recs| - 1], k) + Ind(k in KeySet(r.add)) - Ind(k in KeySet(r.del))
  }

  function NetAspa(recs: seq<Record>, c: uint32): int {
    if recs == [] then 0
    else var r := recs[|recs| - 1];
      NetAspa(recs[..|recs| - 1], c) + Ind(c in Aspas.ProviderMap(r.addAspa)) - Ind(c in Aspas.ProviderMap(r.delAspa))
  }

  /** The providers in the entry of `c` seen last, a record's deletions being read after its additions. */
  function LastProviders(recs: seq<Record>, c: uint32): Option<Aspas.Providers> {
    if recs == [] then None
    else var r := recs[|recs| - 1];
      if c in Aspas.ProviderMap(r.delAspa) then Some(Aspas.ProviderMap(r.delAspa)[c])
      else if c in Aspas.ProviderMap(r.addAspa) then Some(Aspas.ProviderMap(r.addAspa)[c])
      else LastProviders(recs[..|recs| - 1], c)
  }

  ghost predicate DistinctGroups<T, G>(kind: Kind<T, G>, s: seq<T>) {
    forall i, j | 0 <= i < j < |s| :: kind.group(s[i]) != kind.group(s[j])
  }

  /** An answer for `recs`, in whatever order the maps were walked. */
  ghost predicate IsReply(recs: seq<Record>, p: Reply) {
    && DistinctGroups(ROA_KIND, p.add) && DistinctGroups(ROA_KIND, p.del)
    && DistinctGroups(Aspas.ASPA_KIND, p.addAspa) && DistinctGroups(Aspas.ASPA_KIND, p.delAspa)
    && (forall k :: k in KeySet(p.add) <==> NetRoa(recs, k) > 0)
    && (forall k :: k in KeySet(p.del) <==> NetRoa(recs, k) < 0)
    && (forall c :: c in Aspas.Customers(p.addAspa) <==> NetAspa(recs, c) > 0)
    && (forall c :: c in Aspas.Customers(p.delAspa) <==> NetAspa(recs, c) < 0)
    && (forall a | a in p.addAspa :: LastProviders(recs, a.customer) == Some(a.providers))
    && (forall a | a in p.delAspa :: LastProviders(recs, a.customer) == Some(a.providers))
  }

  /** A router that is up to date is told nothing. */
  lemma UpToDate(p: Reply)
    ensures IsReply([], p) <==> p == Reply([], [], [], [])
  {
    EmptyKeySet(p.add);
    EmptyKeySet(p.del);
    NoCustomers(p.addAspa);
    NoCustomers(p.delAspa);
    if IsReply([], p) {
      assert KeySet(p.add) == {} && KeySet(p.del) == {};
      assert Aspas.Customers(p.addAspa) == {} && Aspas.Customers(p.delAspa) == {};
    }
  }

  lemma NoCustomers(s: seq<Aspa>)
    ensures Aspas.Customers(s) == {} <==> s == []
  {
    if s != [] {
      assert s[0].customer in Aspas.Customers(s);
    }
  }

  // ---------------------------------------------------------------- the counting loops

  function Count<K>(m: map<K, int>, k: K): int {
    if k in m then m[k] else 0
  }

  /** What one counting loop does to the counts. */
  ghost predicate Counted<T(!new), G(!new)>(kind: Kind<T, G>, list: seq<T>, step: int,
                                            net0: map<G, int>, net: map<G, int>)
  {
    && (forall g | g in Groups(kind, list) :: Count(net, g) == Count(net0, g) + step)
    && (forall g | g !in Groups(kind, list) :: Count(net, g) == Count(net0, g))
  }

  /** What one counting loop does to the remembered entries. */
  ghost predicate Latest<T(!new), G(!new)>(kind: Kind<T, G>, list: seq<T>, data0: map<G, T>, data: map<G, T>) {
    && (forall x | x in list :: kind.group(x) in data && data[kind.group(x)] == x)
    && (forall g | g in data && g !in Groups(kind, list) :: g in data0 && data[g] == data0[g])
  }

  /** One inner loop: counts each entry of `list` by `step` and remembers it as the latest of its group. */
  method Tally<T(!new), G(==, !new)>(kind: Kind<T, G>, list: seq<T>, step: int, net0: map<G, int>, data0: map<G, T>)
    returns (net: map<G, int>, data: map<G, T>)
    requires Strict(kind, list) && net0.Keys == data0.Keys
    ensures net.Keys == data.Keys == net0.Keys + Groups(kind, list)
    ensures Counted(kind, list, step, net0, net) && Latest(kind, list, data0, data)
  {
    hide Counted, Latest, Strict, Groups, Count;
    net, data := net0, data0;
    NothingTallied(kind, step, net0, data0);
    assert list[..0] == [];
    for i := 0 to |list|
      invariant net.Keys == data.Keys == net0.Keys + Groups(kind, list[..i])
      invariant Counted(kind, list[..i], step, net0, net)
      invariant Latest(kind, list[..i], data0, data)
    {
      var g := kind.group(list[i]);
      NextGroup(kind, list, i);
      CountNext(kind, list, i, step, net0, net);
      LatestNext(kind, list, i, data0, data);
      net := net[g := Count(net, g) + step];
      data := data[g := list[i]];
    }
    assert list[..|list|] == list;
  }

  lemma NothingTallied<T(!new), G(!new)>(kind: Kind<T, G>, step: int, net: map<G, int>, data: map<G, T>)
    ensures Counted(kind, [], step, net, net) && Latest(kind, [], data, data) && Groups(kind, []) == {}
  {
  }

  lemma CountNext<T(!new), G(!new)>(kind: Kind<T, G>, list: seq<T>, i: nat, step: int,
                                    net0: map<G, int>, net: map<G, int>)
    requires Strict(kind, list) && i < |list| && Counted(kind, list[..i], step, net0, net)
    ensures var g := kind.group(list[i]); Counted(kind, list[..i + 1], step, net0, net[g := Count(net, g) + step])
  {
    NextGroup(kind, list, i);
  }

  lemma LatestNext<T(!new), G(!new)>(kind: Kind<T, G>, list: seq<T>, i: nat, data0: map<G, T>, data: map<G, T>)
    requires Strict(kind, list) && i < |list| && Latest(kind, list[..i], data0, data)
    ensures Latest(kind, list[..i + 1], data0, data[kind.group(list[i]) := list[i]])
  {
    NextGroup(kind, list, i);
    assert list[..i + 1] == list[..i] + [list[i]];
    forall x | x in list[..i] ensures kind.group(x) != kind.group(list[i]) {
      assert kind.group(x) in Groups(kind, list[..i]);
    }
  }

  lemma NextGroup<T, G>(kind: Kind<T, G>, list: seq<T>, i: nat)
    requires Strict(kind, list) && i < |list|
    ensures Groups(kind, list[..i + 1]) == Groups(kind, list[..i]) + {kind.group(list[i])}
    ensures kind.group(list[i]) !in Groups(kind, list[..i])
  {
    assert list[..i + 1] == list[..i] + [list[i]];
    forall x | x in list[..i] ensures kind.group(x) != kind.group(list[i]) {
      var j :| 0 <= j < i && list[j] == x;
    }
  }

  /** Walking the count map, in any order, into additions and deletions. */
  method Collect<T, G(==)>(kind: Kind<T, G>, net: map<G, int>, data: map<G, T>) returns (add: seq<T>, del: seq<T>)
    requires net.Keys == data.Keys
    requires forall g | g in data :: kind.group(data[g]) == g
    ensures DistinctGroups(kind, add) && DistinctGroups(kind, del)
    ensures forall g :: g in Groups(kind, add) <==> Count(net, g) > 0
    ensures forall g :: g in Groups(kind, del) <==> Count(net, g) < 0
    ensures forall x | x in add :: kind.group(x) in data && data[kind.group(x)] == x
    ensures forall x | x in del :: kind.group(x) in data && data[kind.group(x)] == x
  {
    add, del := [], [];
    var todo := net.Keys;
    while todo != {}
      invariant todo <= net.Keys
      invariant DistinctGroups(kind, add) && DistinctGroups(kind, del)
      invariant forall g :: g in Groups(kind, add) <==> g !in todo && Count(net, g) > 0
      invariant forall g :: g in Groups(kind, del) <==> g !in todo && Count(net, g) < 0
      invariant forall x | x in add :: kind.group(x) in data && data[kind.group(x)] == x
      invariant forall x | x in del :: kind.group(x) in data && data[kind.group(x)] == x
      decreases todo
    {
      var g :| g in todo;
      var x := data[g];
      if net[g] > 0 {
        GroupsOfAppend(kind, add, x);
        NewGroup(kind, add, x);
        add := add + [x];
      } else if net[g] < 0 {
        GroupsOfAppend(kind, del, x);
        NewGroup(kind, del, x);
        del := del + [x];
      }
      todo := todo - {g};
    }
  }

  lemma NewGroup<T, G>(kind: Kind<T, G>, s: seq<T>, x: T)
    requires DistinctGroups(kind, s) && kind.group(x) !in Groups(kind, s)
    ensures DistinctGroups(kind, s + [x])
  {
    forall i | 0 <= i < |s| ensures kind.group(s[i]) != kind.group(x) {
      assert s[i] in s;
    }
  }

  /** Each record lists a key or customer at most once on either side. */
  ghost predicate Tidy(r: Record) {
    && StrictlySorted(r.add) && StrictlySorted(r.del)
    && Aspas.CustomerSorted(r.addAspa) && Aspas.CustomerSorted(r.delAspa)
  }

  /** The aggregation loop of `getDiffsFrom`. */
  method Aggregate(recs: seq<Record>) returns (p: Reply)
    requires forall r | r in recs :: Tidy(r)
    ensures IsReply(recs, p)
  {
    var roaNet: map<RoaKey, int>, roaData: map<RoaKey, Roa> := map[], map[];
    var aspaNet: map<uint32, int>, aspaData: map<uint32, Aspa> := map[], map[];
    for i := 0 to |recs|
      invariant RoaCounts(recs[..i], roaNet, roaData)
      invariant AspaCounts(recs[..i], aspaNet, aspaData)
    {
      var r := recs[i];
      assert Tidy(r);
      assert recs[..i + 1] == recs[..i] + [r];
      roaNet, roaData := TallyRoas(recs[..i], r, roaNet, roaData);
      aspaNet, aspaData := TallyAspas(recs[..i], r, aspaNet, aspaData);
    }
    assert recs[..|recs|] == recs;
    var add, del := Collect(ROA_KIND, roaNet, roaData);
    var addAspa, delAspa := Collect(Aspas.ASPA_KIND, aspaNet, aspaData);
    p := Reply(add, del, addAspa, delAspa);
    CollectedIsReply(recs, p, roaNet, roaData, aspaNet, aspaData);
  }

  lemma CollectedIsReply(recs: seq<Record>, p: Reply, roaNet: map<RoaKey, int>, roaData: map<RoaKey, Roa>,
                         aspaNet: map<uint32, int>, aspaData: map<uint32, Aspa>)
    requires RoaCounts(recs, roaNet, roaData) && AspaCounts(recs, aspaNet, aspaData)
    requires DistinctGroups(ROA_KIND, p.add) && DistinctGroups(ROA_KIND, p.del)
    requires DistinctGroups(Aspas.ASPA_KIND, p.addAspa) && DistinctGroups(Aspas.ASPA_KIND, p.delAspa)
    requires forall g :: g in Groups(ROA_KIND, p.add) <==> Count(roaNet, g) > 0
    requires forall g :: g in Groups(ROA_KIND, p.del) <==> Count(roaNet, g) < 0
    requires forall g :: g in Groups(Aspas.ASPA_KIND, p.addAspa) <==> Count(aspaNet, g) > 0
    requires forall g :: g in Groups(Aspas.ASPA_KIND, p.delAspa) <==> Count(aspaNet, g) < 0
    requires forall x | x in p.addAspa :: Aspas.ASPA_KIND.group(x) in aspaData && aspaData[Aspas.ASPA_KIND.group(x)] == x
    requires forall x | x in p.delAspa :: Aspas.ASPA_KIND.group(x) in aspaData && aspaData[Aspas.ASPA_KIND.group(x)] == x
    ensures IsReply(recs, p)
  {
    SortedIsStrict(p.add);
    SortedIsStrict(p.del);
    Aspas.SortedIsStrict(p.addAspa);
    Aspas.SortedIsStrict(p.delAspa);
    forall a | a in p.addAspa || a in p.delAspa ensures LastProviders(recs, a.customer) == Some(a.providers) {
      assert Aspas.ASPA_KIND.group(a) == a.customer;
    }
  }

  /** What the ROA count maps hold after `recs`. */
  ghost predicate RoaCounts(recs: seq<Record>, net: map<RoaKey, int>, data: map<RoaKey, Roa>) {
    && net.Keys == data.Keys
    && (forall k :: Count(net, k) == NetRoa(recs, k))
    && (forall k | k in data :: data[k].Key() == k)
  }

  ghost predicate AspaCounts(recs: seq<Record>, net: map<uint32, int>, data: map<uint32, Aspa>) {
    && net.Keys == data.Keys
    && (forall c :: Count(net, c) == NetAspa(recs, c))
    && (forall c | c in data :: data[c].customer == c && LastProviders(recs, c) == Some(data[c].providers))
  }

  method TallyRoas(ghost done: seq<Record>, r: Record, net0: map<RoaKey, int>, data0: map<RoaKey, Roa>)
    returns (net: map<RoaKey, int>, data: map<RoaKey, Roa>)
    requires Tidy(r) && RoaCounts(done, net0, data0)
    ensures RoaCounts(done + [r], net, data)
  {
    SortedIsStrict(r.add);
    SortedIsStrict(r.del);
    net, data := Tally(ROA_KIND, r.add, 1, net0, data0);
    ghost var net1, data1 := net, data;
    assert forall k | k in data1 :: data1[k].Key() == k by { LatestHasKey(r.add, data0, data1); }
    net, data := Tally(ROA_KIND, r.del, -1, net, data);
    LatestHasKey(r.del, data1, data);
    assert (done + [r])[..|done|] == done;
  }

  lemma LatestHasKey(list: seq<Roa>, data0: map<RoaKey, Roa>, data: map<RoaKey, Roa>)
    requires forall k | k in data0 :: data0[k].Key() == k
    requires forall x | x in list :: ROA_KIND.group(x) in data && data[ROA_KIND.group(x)] == x
    requires forall g | g in data && g !in Groups(ROA_KIND, list) :: g in data0 && data[g] == data0[g]
    ensures forall k | k in data :: data[k].Key() == k
  {
    forall k | k in data ensures data[k].Key() == k {
      if k in Groups(ROA_KIND, list) {
        var x :| x in list && ROA_KIND.group(x) == k;
        assert data[k] == x;
      }
    }
  }

  method TallyAspas(ghost done: seq<Record>, r: Record, net0: map<uint32, int>, data0: map<uint32, Aspa>)
    returns (net: map<uint32, int>, data: map<uint32, Aspa>)
    requires Tidy(r) && AspaCounts(done, net0, data0)
    ensures AspaCounts(done + [r], net, data)
  {
    hide Counted, Latest, LastProviders, NetAspa;
    net, data := TallyList(r.addAspa, 1, net0, data0);
    ghost var net1, data1 := net, data;
    net, data := TallyList(r.delAspa, -1, net, data);
    AspaNetStep(done, r, net0, net1, net);
    AspaDataStep(done, r, data0, data1, data);
  }

  method TallyList(list: seq<Aspa>, step: int, net0: map<uint32, int>, data0: map<uint32, Aspa>)
    returns (net: map<uint32, int>, data: map<uint32, Aspa>)
    requires Aspas.CustomerSorted(list) && net0.Keys == data0.Keys
    ensures net.Keys == data.Keys
    ensures Counted(Aspas.ASPA_KIND, list, step, net0, net) && Latest(Aspas.ASPA_KIND, list, data0, data)
  {
    Aspas.SortedIsStrict(list);
    net, data := Tally(Aspas.ASPA_KIND, list, step, net0, data0);
  }

  lemma AspaNetStep(done: seq<Record>, r: Record, net0: map<uint32, int>, net1: map<uint32, int>, net: map<uint32, int>)
    requires forall c :: Count(net0, c) == NetAspa(done, c)
    requires Counted(Aspas.ASPA_KIND, r.addAspa, 1, net0, net1) && Counted(Aspas.ASPA_KIND, r.delAspa, -1, net1, net)
    ensures forall c :: Count(net, c) == NetAspa(done + [r], c)
  {
    Aspas.MapKeys(r.addAspa);
    Aspas.MapKeys(r.delAspa);
    Aspas.SortedIsStrict(r.addAspa);
    Aspas.SortedIsStrict(r.delAspa);
    assert (done + [r])[..|done|] == done;
  }

  lemma AspaDataStep(done: seq<Record>, r: Record, data0: map<uint32, Aspa>, data1: map<uint32, Aspa>,
                     data: map<uint32, Aspa>)
    requires Tidy(r)
    requires forall c | c in data0 :: data0[c].customer == c && LastProviders(done, c) == Some(data0[c].providers)
    requires Latest(Aspas.ASPA_KIND, r.addAspa, data0, data1) && Latest(Aspas.ASPA_KIND, r.delAspa, data1, data)
    ensures forall c | c in data :: data[c].customer == c && LastProviders(done + [r], c) == Some(data[c].providers)
  {
    assert (done + [r])[..|done|] == done;
    forall c | c in data ensures data[c].customer == c && LastProviders(done + [r], c) == Some(data[c].providers) {
      LatestAspa(r.addAspa, data0, data1, c);
      LatestAspa(r.delAspa, data1, data, c);
    }
  }

  lemma LatestAspa(list: seq<Aspa>, data0: map<uint32, Aspa>, data: map<uint32, Aspa>, c: uint32)
    requires Aspas.CustomerSorted(list) && Latest(Aspas.ASPA_KIND, list, data0, data)
    ensures c in Aspas.ProviderMap(list) ==>
              c in data && data[c].customer == c && data[c].providers == Aspas.ProviderMap(list)[c]
    ensures c !in Aspas.ProviderMap(list) && c in data ==> c in data0 && data[c] == data0[c]
  {
    Aspas.MapKeys(list);
    Aspas.SortedIsStrict(list);
    if c in Aspas.ProviderMap(list) {
      Aspas.MapOfSorted(list, c, Aspas.ProviderMap(list)[c]);
      var x :| x in list && x.customer == c && x.providers == Aspas.ProviderMap(list)[c];
      assert Aspas.ASPA_KIND.group(x) == c;
    }
  }

  // ---------------------------------------------------------------- what the counts mean

  /** `recs` leads through the versions `vs`. */
  ghost predicate Chain(recs: seq<Record>, vs: seq<Version>) {
    |vs| == |recs| + 1 && forall i | 0 <= i < |recs| :: Delta(recs[i], vs[i], vs[i + 1])
  }

  /** The records since a serial in the window lead from the version it labels to the current one. */
  lemma WindowChains(c: CacheState, vs: seq<Version>, q: uint32)
    requires Tracks(c, vs) && Known(c, q)
    ensures Lag(c, q) == |Since(c, q)| < |vs|
    ensures Chain(Since(c, q), vs[|vs| - 1 - Lag(c, q)..])
  {
    hide Tracks, Chain, Known, Since, Lag;
    KnownIffInWindow(c, vs, q);
    LastRecordsChain(c, vs, Lag(c, q));
  }

  lemma LastRecordsChain(c: CacheState, vs: seq<Version>, lag: nat)
    requires Tracks(c, vs) && lag <= |c.history|
    ensures lag < |vs| && Chain(c.history[|c.history| - lag..], vs[|vs| - 1 - lag..])
  {
    hide Delta, Normal, View, ValidKeys, SerialOf;
    var first := |c.history| - lag;
    var recs, tail := c.history[first..], vs[|vs| - 1 - lag..];
    forall i | 0 <= i < |recs| ensures Delta(recs[i], tail[i], tail[i + 1]) {
      assert Describes(c.history[first + i], vs, |vs| - 1 - |c.history| + (first + i));
    }
  }

  /** The counts telescope: only the two end versions matter. */
  lemma {:induction false} NetTelescopes(recs: seq<Record>, vs: seq<Version>)
    requires Chain(recs, vs)
    ensures forall k :: NetRoa(recs, k) == Ind(k in vs[|recs|].roas) - Ind(k in vs[0].roas)
    ensures forall c :: NetAspa(recs, c) == Ind(c in vs[|recs|].aspas) - Ind(c in vs[0].aspas)
  {
    if recs != [] {
      var n := |recs| - 1;
      FrontChain(recs, vs);
      NetTelescopes(recs[..n], vs[..n + 1]);
      assert Delta(recs[n], vs[n], vs[n + 1]);
    }
  }

  lemma FrontChain(recs: seq<Record>, vs: seq<Version>)
    requires Chain(recs, vs) && recs != []
    ensures Chain(recs[..|recs| - 1], vs[..|recs|])
  {
    forall i | 0 <= i < |recs| - 1 ensures Delta(recs[..|recs| - 1][i], vs[..|recs|][i], vs[..|recs|][i + 1]) {
      assert Delta(recs[i], vs[i], vs[i + 1]);
    }
  }

  /**
   * The aggregated ROA reply is the set difference of the two end versions, each key once, so it never announces
   * a key the router has nor withdraws one it lacks; the ASPA customers are the customer-set differences.
   */
  lemma ReplyIsVersionDifference(recs: seq<Record>, vs: seq<Version>, p: Reply)
    requires Chain(recs, vs) && IsReply(recs, p)
    ensures forall k :: NetRoa(recs, k) in {-1, 0, 1}
    ensures KeySet(p.add) == vs[|recs|].roas - vs[0].roas
    ensures KeySet(p.del) == vs[0].roas - vs[|recs|].roas
    ensures Aspas.Customers(p.addAspa) == vs[|recs|].aspas.Keys - vs[0].aspas.Keys
    ensures Aspas.Customers(p.delAspa) == vs[0].aspas.Keys - vs[|recs|].aspas.Keys
  {
    hide Delta, IsReply, NetRoa, NetAspa;
    var v, w := vs[0], vs[|recs|];
    forall k
      ensures NetRoa(recs, k) in {-1, 0, 1}
      ensures k in KeySet(p.add) <==> k in w.roas - v.roas
      ensures k in KeySet(p.del) <==> k in v.roas - w.roas
    {
      RoaReplyAt(recs, vs, p, k);
    }
    forall c
      ensures c in Aspas.Customers(p.addAspa) <==> c in w.aspas.Keys - v.aspas.Keys
      ensures c in Aspas.Customers(p.delAspa) <==> c in v.aspas.Keys - w.aspas.Keys
    {
      AspaReplyAt(recs, vs, p, c);
    }
  }

  lemma RoaReplyAt(recs: seq<Record>, vs: seq<Version>, p: Reply, k: RoaKey)
    requires Chain(recs, vs) && IsReply(recs, p)
    ensures NetRoa(recs, k) == Ind(k in vs[|recs|].roas) - Ind(k in vs[0].roas)
    ensures k in KeySet(p.add) <==> NetRoa(recs, k) > 0
    ensures k in KeySet(p.del) <==> NetRoa(recs, k) < 0
  {
    hide Delta, NetRoa, NetAspa, LastProviders, KeySet, DistinctGroups;
    NetTelescopes(recs, vs);
  }

  lemma AspaReplyAt(recs: seq<Record>, vs: seq<Version>, p: Reply, c: uint32)
    requires Chain(recs, vs) && IsReply(recs, p)
    ensures NetAspa(recs, c) == Ind(c in vs[|recs|].aspas) - Ind(c in vs[0].aspas)
    ensures c in Aspas.Customers(p.addAspa) <==> NetAspa(recs, c) > 0
    ensures c in Aspas.Customers(p.delAspa) <==> NetAspa(recs, c) < 0
  {
    hide Delta, NetRoa, NetAspa, LastProviders, Aspas.Customers, DistinctGroups;
    NetTelescopes(recs, vs);
  }

  /** The converse: whatever lists the differences once, with the remembered providers, is an answer. */
  lemma DifferenceIsReply(recs: seq<Record>, vs: seq<Version>, p: Reply)
    requires Chain(recs, vs)
    requires DistinctGroups(ROA_KIND, p.add) && DistinctGroups(ROA_KIND, p.del)
    requires DistinctGroups(Aspas.ASPA_KIND, p.addAspa) && DistinctGroups(Aspas.ASPA_KIND, p.delAspa)
    requires KeySet(p.add) == vs[|recs|].roas - vs[0].roas
    requires KeySet(p.del) == vs[0].roas - vs[|recs|].roas
    requires Aspas.Customers(p.addAspa) == vs[|recs|].aspas.Keys - vs[0].aspas.Keys
    requires Aspas.Customers(p.delAspa) == vs[0].aspas.Keys - vs[|recs|].aspas.Keys
    requires forall a | a in p.addAspa || a in p.delAspa :: LastProviders(recs, a.customer) == Some(a.providers)
    ensures IsReply(recs, p)
  {
    hide Delta;
    NetTelescopes(recs, vs);
  }

  /** A list of entries as a router sees it, without expiry times. */
  function Keys(s: seq<Roa>): seq<RoaKey> {
    seq(|s|, i requires 0 <= i < |s| => s[i].Key())
  }

  function Entries(s: seq<Aspa>): seq<(uint32, Aspas.Providers)> {
    seq(|s|, i requires 0 <= i < |s| => (s[i].customer, s[i].providers))
  }

  /** Two answers for the same records are permutations of each other, providers included. */
  lemma MapOrderIsIrrelevant(recs: seq<Record>, p: Reply, p': Reply)
    requires IsReply(recs, p) && IsReply(recs, p')
    ensures multiset(Keys(p.add)) == multiset(Keys(p'.add))
    ensures multiset(Keys(p.del)) == multiset(Keys(p'.del))
    ensures multiset(Entries(p.addAspa)) == multiset(Entries(p'.addAspa))
    ensures multiset(Entries(p.delAspa)) == multiset(Entries(p'.delAspa))
  {
    assert KeySet(p.add) == KeySet(p'.add) && KeySet(p.del) == KeySet(p'.del);
    SameKeysPermute(p.add, p'.add);
    SameKeysPermute(p.del, p'.del);
    SameEntriesPermute(recs, p.addAspa, p'.addAspa);
    SameEntriesPermute(recs, p.delAspa, p'.delAspa);
  }

  lemma SameKeysPermute(s: seq<Roa>, t: seq<Roa>)
    requires DistinctGroups(ROA_KIND, s) && DistinctGroups(ROA_KIND, t) && KeySet(s) == KeySet(t)
    ensures multiset(Keys(s)) == multiset(Keys(t))
  {
    KeysOf(s);
    KeysOf(t);
    SameElementsPermute(Keys(s), Keys(t));
  }

  lemma KeysOf(s: seq<Roa>)
    requires DistinctGroups(ROA_KIND, s)
    ensures forall i, j | 0 <= i < j < |s| :: Keys(s)[i] != Keys(s)[j]
    ensures forall k :: k in Keys(s) <==> k in KeySet(s)
  {
    forall i, j | 0 <= i < j < |s| ensures Keys(s)[i] != Keys(s)[j] {
      assert ROA_KIND.group(s[i]) != ROA_KIND.group(s[j]);
    }
    forall r | r in s ensures r.Key() in Keys(s) {
      var i :| 0 <= i < |s| && s[i] == r;
      assert Keys(s)[i] == r.Key();
    }
  }

  lemma SameEntriesPermute(recs: seq<Record>, s: seq<Aspa>, t: seq<Aspa>)
    requires DistinctGroups(Aspas.ASPA_KIND, s) && DistinctGroups(Aspas.ASPA_KIND, t)
    requires forall c :: c in Aspas.Customers(s) <==> c in Aspas.Customers(t)
    requires forall a | a in s :: LastProviders(recs, a.customer) == Some(a.providers)
    requires forall a | a in t :: LastProviders(recs, a.customer) == Some(a.providers)
    ensures multiset(Entries(s)) == multiset(Entries(t))
  {
    EntriesOf(recs, s);
    EntriesOf(recs, t);
    SameElementsPermute(Entries(s), Entries(t));
  }

  lemma EntriesOf(recs: seq<Record>, s: seq<Aspa>)
    requires DistinctGroups(Aspas.ASPA_KIND, s)
    requires forall a | a in s :: LastProviders(recs, a.customer) == Some(a.providers)
    ensures forall i, j | 0 <= i < j < |s| :: Entries(s)[i] != Entries(s)[j]
    ensures forall e :: e in Entries(s) <==> e.0 in Aspas.Customers(s) && LastProviders(recs, e.0) == Some(e.1)
  {
    hide LastProviders;
    forall i, j | 0 <= i < j < |s| ensures Entries(s)[i] != Entries(s)[j] {
      assert Aspas.ASPA_KIND.group(s[i]) != Aspas.ASPA_KIND.group(s[j]);
    }
    forall a | a in s ensures (a.customer, a.providers) in Entries(s) {
      var i :| 0 <= i < |s| && s[i] == a;
      assert Entries(s)[i] == (a.customer, a.providers);
    }
  }

  /** Lists without repetition that have the same elements are permutations of each other. */
  lemma SameElementsPermute<T>(s: seq<T>, t: seq<T>)
    requires forall i, j | 0 <= i < j < |s| :: s[i] != s[j]
    requires forall i, j | 0 <= i < j < |t| :: t[i] != t[j]
    requires forall x :: x in s <==> x in t
    ensures multiset(s) == multiset(t)
  {
    forall x ensures multiset(s)[x] == multiset(t)[x] {
      CountedOnce(s, x);
      CountedOnce(t, x);
    }
  }

  lemma {:induction false} CountedOnce<T>(s: seq<T>, x: T)
    requires forall i, j | 0 <= i < j < |s| :: s[i] != s[j]
    ensures multiset(s)[x] == Ind(x in s)
  {
    if s != [] {
      var front, y := s[..|s| - 1], s[|s| - 1];
      CountedOnce(front, x);
      assert s == front + [y];
      assert y !in front;
    }
  }

  // ---------------------------------------------------------------- when the ASPA reply is right

  /** The last record that lists `c` lists it on both sides: a change of providers. */
  predicate LastTouchSwaps(recs: seq<Record>, c: uint32) {
    recs != [] &&
    var r := recs[|recs| - 1];
    var added, deleted := c in Aspas.ProviderMap(r.addAspa), c in Aspas.ProviderMap(r.delAspa);
    if added || deleted then added && deleted else LastTouchSwaps(recs[..|recs| - 1], c)
  }

  /**
   * Every customer at both ends has the same providers there, and no newly present customer was
   * last touched by a change of providers.
   */
  ghost predicate AspaFaithful(recs: seq<Record>, v: AspaTable, w: AspaTable) {
    && (forall c | c in v && c in w :: v[c] == w[c])
    && (forall c | c in w && c !in v :: !LastTouchSwaps(recs, c))
  }

  lemma {:induction false} LastProvidersMeaning(recs: seq<Record>, vs: seq<Version>, c: uint32)
    requires Chain(recs, vs) && c in vs[|recs|].aspas
    ensures var v, w := vs[0].aspas, vs[|recs|].aspas;
      match LastProviders(recs, c)
      case None => c in v && v[c] == w[c]
      case Some(p) => p == w[c] <==> !LastTouchSwaps(recs, c)
  {
    if recs != [] {
      var n := |recs| - 1;
      assert Delta(recs[n], vs[n], vs[n + 1]);
      var u, w := vs[n].aspas, vs[n + 1].aspas;
      assert Aspas.ProviderMap(recs[n].addAspa) == Aspas.Changed(u, w);
      assert Aspas.ProviderMap(recs[n].delAspa) == Aspas.Changed(w, u);
      if c !in Aspas.Changed(u, w) && c !in Aspas.Changed(w, u) {
        FrontChain(recs, vs);
        LastProvidersMeaning(recs[..n], vs[..n + 1], c);
      }
    }
  }

  /** The providers of a customer in the last of the versions `vs` that lists it. */
  function LastHeld(vs: seq<Version>, c: uint32): Option<Aspas.Providers> {
    if vs == [] then None
    else if c in vs[|vs| - 1].aspas then Some(vs[|vs| - 1].aspas[c])
    else LastHeld(vs[..|vs| - 1], c)
  }

  /** A withdrawn customer is withdrawn with the providers the cache listed for it last. */
  lemma {:induction false} WithdrawnProviders(recs: seq<Record>, vs: seq<Version>, c: uint32)
    requires Chain(recs, vs) && c in vs[0].aspas && c !in vs[|recs|].aspas
    ensures LastProviders(recs, c) == LastHeld(vs, c)
  {
    var n := |recs| - 1;
    assert Delta(recs[n], vs[n], vs[n + 1]);
    var u, w := vs[n].aspas, vs[n + 1].aspas;
    assert Aspas.ProviderMap(recs[n].addAspa) == Aspas.Changed(u, w);
    assert Aspas.ProviderMap(recs[n].delAspa) == Aspas.Changed(w, u);
    assert vs[..|vs| - 1] == vs[..n + 1];
    if c !in u {
      FrontChain(recs, vs);
      WithdrawnProviders(recs[..n], vs[..n + 1], c);
    }
  }

  /** Announcing entries one after another. */
  function Announced(t: AspaTable, s: seq<Aspa>): AspaTable {
    if s == [] then t else Announced(t, s[..|s| - 1])[s[|s| - 1].customer := s[|s| - 1].providers]
  }

  /** Announcing entries with distinct customers: each listed customer gets its providers, the rest stay. */
  lemma {:induction false} AnnouncedAt(t: AspaTable, s: seq<Aspa>, c: uint32)
    requires DistinctGroups(Aspas.ASPA_KIND, s)
    ensures c in Announced(t, s) <==> c in t || c in Aspas.Customers(s)
    ensures c in Announced(t, s) && c in Aspas.Customers(s) ==> Aspas.Lists(s, c, Announced(t, s)[c])
    ensures c in t && c !in Aspas.Customers(s) ==> Announced(t, s)[c] == t[c]
  {
    if s != [] {
      var front, last := s[..|s| - 1], s[|s| - 1];
      AnnouncedAt(t, front, c);
      LastCustomer(s);
      if c == last.customer {
        assert last in s;
      } else if c in Aspas.Customers(front) {
        assert Aspas.Lists(front, c, Announced(t, front)[c]);
      }
    }
  }

  lemma LastCustomer(s: seq<Aspa>)
    requires s != []
    ensures Aspas.Customers(s) == Aspas.Customers(s[..|s| - 1]) + {s[|s| - 1].customer}
    ensures forall a | a in s[..|s| - 1] :: a in s
  {
    assert s == s[..|s| - 1] + [s[|s| - 1]];
  }

  /** The router's ASPA table after a reply: announcements, then withdrawals. */
  function AspaOutcome(t: AspaTable, p: Reply): AspaTable {
    Announced(t, p.addAspa) - Aspas.Customers(p.delAspa)
  }

  /** What a reply makes of one customer of any table `t`. */
  lemma OutcomeAt(recs: seq<Record>, vs: seq<Version>, t: AspaTable, p: Reply, c: uint32)
    requires Chain(recs, vs) && IsReply(recs, p)
    ensures var v, w, out := vs[0].aspas, vs[|recs|].aspas, AspaOutcome(t, p);
      && (c in out <==> (c in t && (c in v ==> c in w)) || (c in w && c !in v))
      && (c in out && (c in w ==> c in v) ==> out[c] == t[c])
      && (c in w && c !in v ==> (out[c] == w[c] <==> !LastTouchSwaps(recs, c)))
  {
    ReplyIsVersionDifference(recs, vs, p);
    AnnouncedAt(t, p.addAspa, c);
    if c in vs[|recs|].aspas && c !in vs[0].aspas {
      var a :| a in p.addAspa && a.customer == c && a.providers == Announced(t, p.addAspa)[c];
      LastProvidersMeaning(recs, vs, c);
    }
  }

  /** What it takes of a table `t` for a reply from `v` to `w` to list every customer of `w` with its providers. */
  ghost predicate ProvidersRight(recs: seq<Record>, t: AspaTable, v: AspaTable, w: AspaTable) {
    && (forall c | c in v && c in w :: c in t && t[c] == w[c])
    && (forall c | c in w && c !in v :: !LastTouchSwaps(recs, c))
  }

  /**
   * A reply turns `t` into a table with the customers of the end version if and only if `t` has those of the start
   * version, customers that the reply announces aside; and into the whole table iff the providers are right too.
   */
  lemma AspaReplyOnAnyTable(recs: seq<Record>, vs: seq<Version>, t: AspaTable, p: Reply)
    requires Chain(recs, vs) && IsReply(recs, p)
    ensures var v, w := vs[0].aspas, vs[|recs|].aspas;
      var right := t.Keys - (w.Keys - v.Keys) == v.Keys;
      var out := AspaOutcome(t, p);
      && (Aspas.Customers(p.delAspa) <= t.Keys + Aspas.Customers(p.addAspa) && out.Keys == w.Keys <==> right)
      && (right ==> (out == w <==> ProvidersRight(recs, t, v, w)))
  {
    hide Delta, IsReply, LastTouchSwaps, AspaOutcome;
    var v, w := vs[0].aspas, vs[|recs|].aspas;
    var out := AspaOutcome(t, p);
    ReplyIsVersionDifference(recs, vs, p);
    forall c
      ensures c in out <==> (c in t && (c in v ==> c in w)) || (c in w && c !in v)
      ensures c in out && (c in w ==> c in v) ==> out[c] == t[c]
      ensures c in w && c !in v ==> (out[c] == w[c] <==> !LastTouchSwaps(recs, c))
    {
      OutcomeAt(recs, vs, t, p, c);
    }
    if t.Keys - (w.Keys - v.Keys) == v.Keys {
      assert forall c | c in v :: c in t;
      assert out.Keys == w.Keys;
    } else if Aspas.Customers(p.delAspa) <= t.Keys + Aspas.Customers(p.addAspa) && out.Keys == w.Keys {
      SameCustomers(t, v, w, out);
    }
  }

  lemma SameCustomers(t: AspaTable, v: AspaTable, w: AspaTable, out: AspaTable)
    requires forall c :: c in out <==> (c in t && (c in v ==> c in w)) || (c in w && c !in v)
    requires v.Keys - w.Keys <= t.Keys + (w.Keys - v.Keys) && out.Keys == w.Keys
    ensures t.Keys - (w.Keys - v.Keys) == v.Keys
  {
    forall c ensures c in t.Keys - (w.Keys - v.Keys) <==> c in v.Keys {
      assert c in out.Keys <==> c in w.Keys;
      assert c in v.Keys - w.Keys ==> c in t.Keys + (w.Keys - v.Keys);
    }
  }

  /**
   * Cancellation is by customer alone, so a reply rebuilds the current ASPA table exactly when `AspaFaithful`.
   */
  lemma AspaReplyRebuildsIff(recs: seq<Record>, vs: seq<Version>, p: Reply)
    requires Chain(recs, vs) && IsReply(recs, p)
    ensures AspaOutcome(vs[0].aspas, p) == vs[|recs|].aspas <==> AspaFaithful(recs, vs[0].aspas, vs[|recs|].aspas)
  {
    hide Delta, IsReply, LastTouchSwaps, AspaOutcome;
    var v, w := vs[0].aspas, vs[|recs|].aspas;
    assert v.Keys - (w.Keys - v.Keys) == v.Keys;
    AspaReplyOnAnyTable(recs, vs, v, p);
  }
}
