/** AS provider authorisations: their order, deduplication, expiry and diff. */
module Aspas {
  import opened Words
  import opened Slices
  import opened Tables
  import Roas

  type Providers = seq<uint32>

  datatype Aspa = Aspa(customer: uint32, providers: Providers, expires: int) {
    predicate Less(other: Aspa) {
      if customer != other.customer then customer < other.customer
      else if |providers| != |other.providers| then |providers| < |other.providers|
      else ProvidersBelow(providers, other.providers)
    }

    predicate Equal(other: Aspa) {
      customer == other.customer && |providers| == |other.providers| && SameProviders(providers, other.providers)
    }

    predicate IsValid() {
      customer != 0 && |providers| > 0
    }
  }

  /** The first differing position decides. */
  predicate ProvidersBelow(p: Providers, q: Providers)
    requires |p| == |q|
  {
    p != [] && if p[0] != q[0] then p[0] < q[0] else ProvidersBelow(p[1..], q[1..])
  }

  /** Equal at every position. */
  predicate SameProviders(p: Providers, q: Providers)
    requires |p| == |q|
  {
    p == [] || (p[0] == q[0] && SameProviders(p[1..], q[1..]))
  }

  lemma {:induction false} ProviderOrder(p: Providers, q: Providers, r: Providers)
    requires |p| == |q| == |r|
    ensures !ProvidersBelow(p, p)
    ensures ProvidersBelow(p, q) && ProvidersBelow(q, r) ==> ProvidersBelow(p, r)
    ensures !ProvidersBelow(p, q) && !ProvidersBelow(q, p) <==> p == q
    ensures SameProviders(p, q) <==> p == q
  {
    if p != [] {
      ProviderOrder(p[1..], q[1..], r[1..]);
      assert p == [p[0]] + p[1..] && q == [q[0]] + q[1..];
    }
  }

  /** `Less` is a strict total order up to expiry, and its ties are exactly what `aspasEqual` accepts. */
  lemma AspaOrder(a: Aspa, b: Aspa, c: Aspa)
    ensures !a.Less(a)
    ensures a.Less(b) && b.Less(c) ==> a.Less(c)
    ensures !a.Less(b) && !b.Less(a) <==> a.Equal(b)
    ensures a.Equal(b) <==> a.customer == b.customer && a.providers == b.providers
  {
    ProviderOrder(a.providers, a.providers, a.providers);
    if |a.providers| == |b.providers| {
      ProviderOrder(a.providers, b.providers, if |c.providers| == |b.providers| then c.providers else b.providers);
    }
  }

  /** Fewer providers, or as many with a smaller one at the first place where the lists differ. */
  ghost predicate Precedes(p: Providers, q: Providers) {
    || |p| < |q|
    || (|p| == |q| && exists i | 0 <= i < |p| :: p[..i] == q[..i] && p[i] < q[i])
  }

  lemma {:induction false} BelowIff(p: Providers, q: Providers)
    requires |p| == |q|
    ensures ProvidersBelow(p, q) <==> Precedes(p, q)
  {
    if p != [] {
      BelowIff(p[1..], q[1..]);
      if p[0] == q[0] {
        if Precedes(p[1..], q[1..]) {
          var i :| 0 <= i < |p| - 1 && p[1..][..i] == q[1..][..i] && p[1..][i] < q[1..][i];
          assert p[..i + 1] == [p[0]] + p[1..][..i] && q[..i + 1] == [q[0]] + q[1..][..i];
          assert p[i + 1] < q[i + 1];
        }
        if Precedes(p, q) {
          var i :| 0 <= i < |p| && p[..i] == q[..i] && p[i] < q[i];
          assert p[1..][..i - 1] == p[..i][1..] && q[1..][..i - 1] == q[..i][1..];
          assert p[1..][i - 1] < q[1..][i - 1];
        }
      } else {
        assert p[..0] == q[..0];
        forall i | 0 < i < |p| ensures p[..i] != q[..i] {
          assert p[..i][0] != q[..i][0];
        }
      }
    }
  }

  /** `Less` compares the customer, then the number of providers, then the providers in turn. */
  lemma LessIff(a: Aspa, b: Aspa)
    ensures a.Less(b) <==> a.customer < b.customer || (a.customer == b.customer && Precedes(a.providers, b.providers))
  {
    if |a.providers| == |b.providers| {
      BelowIff(a.providers, b.providers);
    }
  }

  /** What normalisation leaves of `input` for a customer: one entry that no other of the customer's precedes. */
  ghost predicate Picked(input: seq<Aspa>, x: Aspa) {
    && x in input && x.customer != 0 && x.providers != []
    && forall y | y in input && y.customer == x.customer && y.providers != [] ::
         x.providers == y.providers || Precedes(x.providers, y.providers)
  }

  predicate AspaLess(a: Aspa, b: Aspa) {
    a.Less(b)
  }

  lemma AspaLessIsWeakOrder()
    ensures WeakOrder(AspaLess)
  {
    forall x: Aspa, y: Aspa, z: Aspa
      ensures !AspaLess(x, x)
      ensures AspaLess(x, y) && AspaLess(y, z) ==> AspaLess(x, z)
      ensures !AspaLess(x, y) && !AspaLess(y, z) ==> !AspaLess(x, z)
    {
      AspaOrder(x, y, z);
      AspaOrder(y, x, z);
      AspaOrder(x, z, y);
      AspaOrder(y, z, x);
    }
  }

  const ASPA_KIND: Kind<Aspa, uint32> :=
    Kind(AspaLess, (a: Aspa) => a.customer, (a: Aspa) => a.IsValid(), (a: Aspa, b: Aspa) => a.Equal(b))

  lemma AspaKindIsLawful()
    ensures Lawful(ASPA_KIND)
    ensures forall x, y :: ASPA_KIND.equal(x, y) ==> ASPA_KIND.equal(y, x)
    ensures forall x :: ASPA_KIND.equal(x, x)
  {
    AspaLessIsWeakOrder();
    forall x: Aspa, y: Aspa
      ensures !AspaLess(x, y) && !AspaLess(y, x) ==> x.customer == y.customer
      ensures x.Equal(y) ==> y.Equal(x)
      ensures x.Equal(x)
    {
      AspaOrder(x, y, y);
      AspaOrder(y, x, x);
      AspaOrder(x, x, x);
    }
  }

  function Customers(s: seq<Aspa>): set<uint32> {
    set a | a in s :: a.customer
  }

  ghost predicate CustomerSorted(s: seq<Aspa>) {
    forall i, j | 0 <= i < j < |s| :: s[i].customer < s[j].customer
  }

  ghost predicate AllValid(s: seq<Aspa>) {
    forall a | a in s :: a.IsValid()
  }

  lemma SortedIsStrict(s: seq<Aspa>)
    ensures CustomerSorted(s) <==> Strict(ASPA_KIND, s)
    ensures Groups(ASPA_KIND, s) == Customers(s)
  {
    if Strict(ASPA_KIND, s) {
      forall i, j | 0 <= i < j < |s| ensures s[i].customer < s[j].customer {
        assert ASPA_KIND.less(s[i], s[j]) && ASPA_KIND.group(s[i]) != ASPA_KIND.group(s[j]);
      }
    }
    assert CustomerSorted(s) ==> Strict(ASPA_KIND, s);
  }

  /**
   * `DeduplicateASPAsInPlace`: the first `n` places end up with one entry for each customer other than 0 that has an
   * entry with providers, in customer order: one with the fewest providers, and among those the smallest list.
   */
  method DeduplicateAspasInPlace(a: array<Aspa>) returns (n: nat)
    modifies a
    ensures n <= a.Length
    ensures Distilled(ASPA_KIND, old(a[..]), a[..n])
    ensures CustomerSorted(a[..n]) && AllValid(a[..n])
    ensures forall x | x in a[..n] :: Picked(old(a[..]), x)
    ensures forall y | y in old(a[..]) && y.customer != 0 && y.providers != [] :: y.customer in Customers(a[..n])
  {
    if a.Length == 0 {
      return 0;
    }
    AspaKindIsLawful();
    n := Distil(a, ASPA_KIND);
    DistilledCustomers(old(a[..]), a[..n]);
    DistilledPicks(old(a[..]), a[..n]);
  }

  lemma DistilledPicks(input: seq<Aspa>, out: seq<Aspa>)
    requires Distilled(ASPA_KIND, input, out)
    ensures forall x | x in out :: Picked(input, x)
    ensures forall y | y in input && y.customer != 0 && y.providers != [] :: y.customer in Customers(out)
  {
    hide Distilled, Precedes;
    DistilledCustomers(input, out);
    forall x | x in out ensures Picked(input, x) {
      forall y | y in input && y.customer == x.customer && y.providers != []
        ensures x.providers == y.providers || Precedes(x.providers, y.providers)
      {
        AspaOrder(x, y, y);
        LessIff(x, y);
      }
    }
  }

  lemma DistilledCustomers(input: seq<Aspa>, out: seq<Aspa>)
    requires Distilled(ASPA_KIND, input, out)
    ensures CustomerSorted(out) && AllValid(out)
    ensures forall x | x in out :: x in input
    ensures forall x, y | x in out && y in input && y.IsValid() && y.customer == x.customer :: !y.Less(x)
    ensures forall y | y in input && y.IsValid() :: y.customer in Customers(out)
  {
    SortedIsStrict(out);
    forall x | x in out
      ensures x in input && x.IsValid()
      ensures forall y | y in input && y.IsValid() && y.customer == x.customer :: !y.Less(x)
    {
      assert Minimal(ASPA_KIND, x, input);
      forall y | y in input && y.IsValid() && y.customer == x.customer ensures !y.Less(x) {
        assert ASPA_KIND.valid(y) && ASPA_KIND.group(y) == ASPA_KIND.group(x);
        assert !ASPA_KIND.less(y, x);
      }
    }
    forall y | y in input && y.IsValid() ensures y.customer in Customers(out) {
      assert ASPA_KIND.valid(y);
    }
  }

  /** The deduplicated list is the same for every arrival order, up to expiry. */
  lemma ArrivalOrderIsIrrelevant(input: seq<Aspa>, arranged: seq<Aspa>, s: seq<Aspa>, t: seq<Aspa>)
    requires multiset(input) == multiset(arranged)
    requires Distilled(ASPA_KIND, input, s) && Distilled(ASPA_KIND, arranged, t)
    ensures |s| == |t|
    ensures forall i | 0 <= i < |s| :: s[i].customer == t[i].customer && s[i].providers == t[i].providers
  {
    AspaKindIsLawful();
    DistillationIsUnique(ASPA_KIND, input, arranged, s, t);
    forall i | 0 <= i < |s| ensures s[i].customer == t[i].customer && s[i].providers == t[i].providers {
      assert !ASPA_KIND.less(s[i], t[i]) && !ASPA_KIND.less(t[i], s[i]);
      AspaOrder(s[i], t[i], t[i]);
    }
  }

  function AspaAlive(now: int): Aspa -> bool {
    (a: Aspa) => Roas.Unexpired(a.expires, now)
  }

  /** `filterExpiredASPAs`, on the slice `a[..n]`. */
  method FilterExpiredAspas(a: array<Aspa>, n: nat, now: int) returns (m: nat)
    requires n <= a.Length
    modifies a
    ensures m <= n
    ensures a[..m] == Filter(AspaAlive(now), old(a[..n]))
    ensures a[..] == Compacted(AspaAlive(now), old(a[..n])) + old(a[n..])
    ensures forall x :: x in a[..m] <==> x in old(a[..n]) && (x.expires == 0 || x.expires * 1_000_000_000 > now)
  {
    m := CompactInPlace(a, n, AspaAlive(now));
    FilterMembers(AspaAlive(now), old(a[..n]));
  }

  /** Expiry filtering keeps a list normalised. */
  lemma FilterKeepsNormal(keep: Aspa -> bool, s: seq<Aspa>)
    requires CustomerSorted(s) && AllValid(s)
    ensures CustomerSorted(Filter(keep, s)) && AllValid(Filter(keep, s))
  {
    SortedIsStrict(s);
    FilterKeepsStrict(ASPA_KIND, keep, s);
    SortedIsStrict(Filter(keep, s));
    FilterMembers(keep, s);
  }

  /** The customer-to-providers table a list stands for. */
  function ProviderMap(s: seq<Aspa>): map<uint32, Providers> {
    if s == [] then map[] else ProviderMap(s[1..])[s[0].customer := s[0].providers]
  }

  ghost predicate Maps<K, V>(m: map<K, V>, k: K, v: V) {
    k in m && m[k] == v
  }

  /** `c` is listed with exactly the providers `p`. */
  ghost predicate Lists(s: seq<Aspa>, c: uint32, p: Providers) {
    exists a | a in s :: a.customer == c && a.providers == p
  }

  lemma {:induction false} MapOfSorted(s: seq<Aspa>, c: uint32, p: Providers)
    requires CustomerSorted(s)
    ensures Maps(ProviderMap(s), c, p) <==> Lists(s, c, p)
  {
    if s != [] {
      MapOfSorted(s[1..], c, p);
      assert s == [s[0]] + s[1..];
      if c == s[0].customer {
        assert s[0] in s;
        assert forall a | a in s[1..] :: a.customer != c;
      } else {
        assert Lists(s[1..], c, p) <==> Lists(s, c, p);
      }
    }
  }

  lemma {:induction false} MapKeys(s: seq<Aspa>)
    ensures ProviderMap(s).Keys == Customers(s)
  {
    if s != [] {
      MapKeys(s[1..]);
      assert s == [s[0]] + s[1..];
    }
  }

  /** The entries of `w` that `v` lacks or lists differently. */
  function Changed(v: map<uint32, Providers>, w: map<uint32, Providers>): map<uint32, Providers> {
    map c | c in w && (c !in v || v[c] != w[c]) :: w[c]
  }

  /** `makeASPADiff`. */
  method MakeAspaDiff(new_: seq<Aspa>, old_: seq<Aspa>) returns (add: seq<Aspa>, del: seq<Aspa>)
    ensures Diff(add, del) == DiffOf(ASPA_KIND, new_, old_)
  {
    add, del := MergeDiff(ASPA_KIND, new_, old_);
  }

  /**
   * On customer-sorted lists the additions are the entries the old table lacks or lists differently, the
   * deletions the reverse, and both are customer-sorted.
   */
  lemma DiffIsMapDifference(new_: seq<Aspa>, old_: seq<Aspa>)
    requires CustomerSorted(new_) && CustomerSorted(old_)
    ensures var d := DiffOf(ASPA_KIND, new_, old_);
      && CustomerSorted(d.add) && CustomerSorted(d.del)
      && (forall a | a in d.add :: a in new_)
      && (forall a | a in d.del :: a in old_)
      && ProviderMap(d.add) == Changed(ProviderMap(old_), ProviderMap(new_))
      && ProviderMap(d.del) == Changed(ProviderMap(new_), ProviderMap(old_))
  {
    var d := DiffOf(ASPA_KIND, new_, old_);
    AspaKindIsLawful();
    SortedIsStrict(new_);
    SortedIsStrict(old_);
    DiffIsDifference(ASPA_KIND, new_, old_);
    SortedIsStrict(d.add);
    SortedIsStrict(d.del);
    UncoveredIsChanged(old_, new_, d.add);
    UncoveredIsChanged(new_, old_, d.del);
  }

  lemma UncoveredIsChanged(old_: seq<Aspa>, new_: seq<Aspa>, add: seq<Aspa>)
    requires CustomerSorted(new_) && CustomerSorted(old_) && CustomerSorted(add)
    requires forall a :: a in add <==> a in new_ && !Covers(ASPA_KIND, old_, a)
    ensures ProviderMap(add) == Changed(ProviderMap(old_), ProviderMap(new_))
  {
    var v, w := ProviderMap(old_), ProviderMap(new_);
    forall c, p ensures Maps(ProviderMap(add), c, p) <==> Maps(Changed(v, w), c, p) {
      MapOfSorted(add, c, p);
      MapOfSorted(new_, c, p);
      MapOfSorted(old_, c, p);
      ListedUnlessCovered(old_, new_, add, c, p);
    }
    SameMap(ProviderMap(add), Changed(v, w));
  }

  lemma ListedUnlessCovered(old_: seq<Aspa>, new_: seq<Aspa>, add: seq<Aspa>, c: uint32, p: Providers)
    requires forall a :: a in add <==> a in new_ && !Covers(ASPA_KIND, old_, a)
    ensures Lists(add, c, p) <==> Lists(new_, c, p) && !Lists(old_, c, p)
  {
    if Lists(add, c, p) {
      var a :| a in add && a.customer == c && a.providers == p;
      CoverIsListing(old_, a);
    }
    if Lists(new_, c, p) && !Lists(old_, c, p) {
      var a :| a in new_ && a.customer == c && a.providers == p;
      CoverIsListing(old_, a);
    }
  }

  lemma CoverIsListing(s: seq<Aspa>, a: Aspa)
    ensures Covers(ASPA_KIND, s, a) <==> Lists(s, a.customer, a.providers)
  {
    forall y | y in s
      ensures ASPA_KIND.group(y) == ASPA_KIND.group(a) && ASPA_KIND.equal(a, y) && ASPA_KIND.equal(y, a)
              <==> y.customer == a.customer && y.providers == a.providers
    {
      AspaOrder(a, y, y);
      AspaOrder(y, a, a);
    }
  }

  lemma SameMap<K, V>(m: map<K, V>, n: map<K, V>)
    requires forall k, v :: Maps(m, k, v) <==> Maps(n, k, v)
    ensures m == n
  {
    forall k ensures k in m ==> k in n && n[k] == m[k] {
      if k in m { assert Maps(m, k, m[k]); }
    }
    forall k ensures k in n ==> k in m {
      if k in n { assert Maps(n, k, n[k]); }
    }
  }

  /** Deleting and then adding turns the old table into the new one; both lists name a customer iff it changed. */
  lemma DiffRebuilds(new_: seq<Aspa>, old_: seq<Aspa>)
    requires CustomerSorted(new_) && CustomerSorted(old_)
    ensures var d := DiffOf(ASPA_KIND, new_, old_);
      && ProviderMap(old_) - ProviderMap(d.del).Keys + ProviderMap(d.add) == ProviderMap(new_)
      && forall c :: c in Customers(d.add) && c in Customers(d.del) <==>
           && c in ProviderMap(new_) && c in ProviderMap(old_)
           && ProviderMap(new_)[c] != ProviderMap(old_)[c]
  {
    var d := DiffOf(ASPA_KIND, new_, old_);
    DiffIsMapDifference(new_, old_);
    MapKeys(d.add);
    MapKeys(d.del);
  }

  /**
   * `UpdateROAs` hands the cache's own ASPA array to the in-place expiry filter. The withdrawals computed
   * against the overwritten array are the expired customers if and only if no live entry follows an expired one.
   */
  lemma OwnArrayRefresh(keep: Aspa -> bool, cached: seq<Aspa>)
    requires CustomerSorted(cached)
    ensures var live := Filter(keep, cached);
      var d := DiffOf(ASPA_KIND, live, Compacted(keep, cached));
      && d.add == []
      && (Customers(d.del) == Customers(cached) - Customers(live) <==> KeptFirst(keep, cached))
      && (!KeptFirst(keep, cached) ==> d.del != [] && Customers(live) != Customers(cached))
  {
    var live := Filter(keep, cached);
    AspaKindIsLawful();
    SortedIsStrict(cached);
    SortedIsStrict(live);
    SortedIsStrict(DiffOf(ASPA_KIND, live, Compacted(keep, cached)).del);
    OwnArrayDiff(ASPA_KIND, keep, cached);
  }

  /** What filtering takes out of a table is what it lists differently, since a kept customer keeps its providers. */
  lemma FilteredChange(keep: Aspa -> bool, s: seq<Aspa>)
    requires CustomerSorted(s)
    ensures var live := Filter(keep, s);
      Changed(ProviderMap(live), ProviderMap(s)).Keys == Customers(s) - Customers(live)
  {
    var live := Filter(keep, s);
    SortedIsStrict(s);
    FilterKeepsStrict(ASPA_KIND, keep, s);
    SortedIsStrict(live);
    MapKeys(s);
    MapKeys(live);
    FilterMembers(keep, s);
    forall c | c in ProviderMap(live) ensures c in ProviderMap(s) && ProviderMap(s)[c] == ProviderMap(live)[c] {
      var p := ProviderMap(live)[c];
      MapOfSorted(live, c, p);
      MapOfSorted(s, c, p);
    }
  }
}
