/** Route origin authorisations: their order, validity, normalisation, expiry and diff. */
module Roas {
  import opened Words
  import opened Slices
  import opened Tables

  /** `netip.Addr`: the zero value, or a family with its 32 or 128 bits. */
  datatype Addr = NoAddr | V4(v4: uint32) | V6(hi: uint64, lo: uint64) {
    function BitLen(): nat {
      match this
      case NoAddr => 0
      case V4(_) => 32
      case V6(_, _) => 128
    }

    /** The upper and lower half of the address as a number. */
    function Halves(): (nat, nat) {
      match this
      case NoAddr => (0, 0)
      case V4(n) => (0, n)
      case V6(hi, lo) => (hi, lo)
    }

    /** `netip.Addr.Compare`: by family, then by number. */
    function Compare(other: Addr): int {
      var ((h, l), (h', l')) := (Halves(), other.Halves());
      if BitLen() != other.BitLen() then (if BitLen() < other.BitLen() then -1 else 1)
      else if h != h' then (if h < h' then -1 else 1)
      else if l != l' then (if l < l' then -1 else 1)
      else 0
    }
  }

  datatype RawPrefix = RawPrefix(addr: Addr, bits: int)

  /** `netip.Prefix`: either invalid, with `Bits()` equal to -1, or a length that fits its address. */
  type Prefix = p: RawPrefix | p.bits == -1 || (p.addr != NoAddr && 0 <= p.bits <= p.addr.BitLen())
    witness RawPrefix(NoAddr, -1)

  datatype RoaKey = RoaKey(prefix: Prefix, asn: uint32, maxMask: uint8) {
    predicate Less(other: RoaKey) {
      var c := prefix.addr.Compare(other.prefix.addr);
      if c != 0 then c < 0
      else if prefix.bits != other.prefix.bits then prefix.bits < other.prefix.bits
      else if asn != other.asn then asn < other.asn
      else maxMask < other.maxMask
    }
  }

  /** `expires` is in Unix seconds; 0 means no expiry information. */
  datatype Roa = Roa(prefix: Prefix, asn: uint32, maxMask: uint8, expires: int) {
    function Key(): RoaKey {
      RoaKey(prefix, asn, maxMask)
    }

    predicate IsValid() {
      if maxMask == 0 then false
      else if maxMask < prefix.bits % 0x100 then false
      else if prefix.addr.V4? && maxMask > 32 then false
      else if maxMask > 128 then false
      else true
    }
  }

  /** The rule of section 3.3 of RFC 6482, on true integers: prefix length, maxLength and address length ascend. */
  predicate RfcRule(k: RoaKey) {
    k.prefix.addr != NoAddr && 0 <= k.prefix.bits <= k.maxMask <= k.prefix.addr.BitLen()
  }

  /** The keys the cache accepts. */
  predicate ValidKey(k: RoaKey) {
    RfcRule(k) && k.maxMask != 0
  }

  /**
   * The byte-wide test is the rule and a maxLength other than 0, also for the zero prefix, whose length byte reads
   * as 255.
   */
  lemma ValidityIsTheRule(r: Roa)
    ensures r.IsValid() <==> RfcRule(r.Key()) && r.maxMask != 0
  {
    if r.prefix.bits == -1 {
      assert r.prefix.bits % 0x100 == 255;
    } else {
      assert r.prefix.bits % 0x100 == r.prefix.bits;
    }
  }

  /** What the rule allows and the cache drops is exactly a prefix of length 0 with maxLength 0, such as 0.0.0.0/0. */
  lemma DroppedByTheCache(r: Roa)
    ensures RfcRule(r.Key()) && !r.IsValid() <==> r.prefix.addr != NoAddr && r.prefix.bits == 0 && r.maxMask == 0
    ensures var default := Roa(RawPrefix(V4(0), 0), 64500, 0, 0); RfcRule(default.Key()) && !default.IsValid()
  {
    ValidityIsTheRule(r);
  }

  /** `Less` is a strict total order whose ties are exactly equal keys. */
  lemma KeyOrder(a: RoaKey, b: RoaKey, c: RoaKey)
    ensures !a.Less(a)
    ensures a.Less(b) && b.Less(c) ==> a.Less(c)
    ensures !a.Less(b) && !b.Less(a) <==> a == b
  {
    SameAddr(a.prefix.addr, b.prefix.addr);
    SameAddr(b.prefix.addr, c.prefix.addr);
  }

  /** An address as one number: the family, then its bits. */
  function AddrRank(a: Addr): nat {
    (a.BitLen() * 0x1_0000_0000_0000_0000 + a.Halves().0) * 0x1_0000_0000_0000_0000 + a.Halves().1
  }

  /** A key as one number: address, prefix length, ASN and maxLength, the most significant first. */
  function Rank(k: RoaKey): nat {
    ((AddrRank(k.prefix.addr) * 0x100 + k.prefix.bits + 1) * 0x1_0000_0000 + k.asn) * 0x100 + k.maxMask
  }

  lemma CompareIsByRank(a: Addr, b: Addr)
    ensures a.Compare(b) < 0 <==> AddrRank(a) < AddrRank(b)
    ensures a.Compare(b) == 0 <==> AddrRank(a) == AddrRank(b)
  {
    var ((h, l), (h', l')) := (a.Halves(), b.Halves());
    var (f, f') := (a.BitLen(), b.BitLen());
    Digit(0x1_0000_0000_0000_0000, f, h, f', h');
    Digit(0x1_0000_0000_0000_0000, f * 0x1_0000_0000_0000_0000 + h, l, f' * 0x1_0000_0000_0000_0000 + h', l');
  }

  /** Sorted by `Less` means sorted by that number. */
  lemma LessIsByRank(a: RoaKey, b: RoaKey)
    ensures a.Less(b) <==> Rank(a) < Rank(b)
  {
    hide AddrRank;
    CompareIsByRank(a.prefix.addr, b.prefix.addr);
    var (y, y') := (AddrRank(a.prefix.addr), AddrRank(b.prefix.addr));
    var (z, z') := (y * 0x100 + a.prefix.bits + 1, y' * 0x100 + b.prefix.bits + 1);
    Digit(0x100, y, a.prefix.bits + 1, y', b.prefix.bits + 1);
    Digit(0x1_0000_0000, z, a.asn, z', b.asn);
    Digit(0x100, z * 0x1_0000_0000 + a.asn, a.maxMask, z' * 0x1_0000_0000 + b.asn, b.maxMask);
  }

  lemma Digit(base: nat, x: nat, d: nat, x': nat, d': nat)
    requires d < base && d' < base
    ensures x * base + d < x' * base + d' <==> x < x' || (x == x' && d < d')
    ensures x * base + d == x' * base + d' <==> x == x' && d == d'
  {
    if x < x' {
      assert x' * base >= (x + 1) * base;
    } else if x' < x {
      assert x * base >= (x' + 1) * base;
    }
  }

  lemma SameAddr(a: Addr, b: Addr)
    ensures a.Compare(b) == 0 <==> a == b
  {
  }

  predicate RoaLess(a: Roa, b: Roa) {
    a.Key().Less(b.Key())
  }

  lemma RoaLessIsWeakOrder()
    ensures WeakOrder(RoaLess)
  {
    forall x: Roa, y: Roa, z: Roa
      ensures !RoaLess(x, x)
      ensures RoaLess(x, y) && RoaLess(y, z) ==> RoaLess(x, z)
      ensures !RoaLess(x, y) && !RoaLess(y, z) ==> !RoaLess(x, z)
    {
      KeyOrder(x.Key(), y.Key(), z.Key());
      KeyOrder(y.Key(), x.Key(), z.Key());
      KeyOrder(x.Key(), z.Key(), y.Key());
      KeyOrder(y.Key(), z.Key(), x.Key());
    }
  }

  const ROA_KIND: Kind<Roa, RoaKey> := Kind(RoaLess, (r: Roa) => r.Key(), (r: Roa) => r.IsValid(), (a, b) => true)

  lemma RoaKindIsLawful()
    ensures Lawful(ROA_KIND)
  {
    RoaLessIsWeakOrder();
    forall x: Roa, y: Roa ensures !RoaLess(x, y) && !RoaLess(y, x) ==> x.Key() == y.Key() {
      KeyOrder(x.Key(), y.Key(), y.Key());
    }
  }

  function KeySet(s: seq<Roa>): set<RoaKey> {
    set r | r in s :: r.Key()
  }

  function ValidKeySet(s: seq<Roa>): set<RoaKey> {
    set r | r in s && r.IsValid() :: r.Key()
  }

  ghost predicate StrictlySorted(s: seq<Roa>) {
    forall i, j | 0 <= i < j < |s| :: s[i].Key().Less(s[j].Key())
  }

  ghost predicate AllValid(s: seq<Roa>) {
    forall r | r in s :: r.IsValid()
  }

  lemma SortedIsStrict(s: seq<Roa>)
    ensures StrictlySorted(s) <==> Strict(ROA_KIND, s)
    ensures Groups(ROA_KIND, s) == KeySet(s)
  {
    if StrictlySorted(s) {
      forall i, j | 0 <= i < j < |s| ensures ROA_KIND.less(s[i], s[j]) && ROA_KIND.group(s[i]) != ROA_KIND.group(s[j]) {
        KeyOrder(s[i].Key(), s[j].Key(), s[j].Key());
      }
    }
    if Strict(ROA_KIND, s) {
      forall i, j | 0 <= i < j < |s| ensures s[i].Key().Less(s[j].Key()) {
        assert ROA_KIND.less(s[i], s[j]);
      }
    }
  }

  /** `GetSetOfValidatedROAs`: the first `n` places end up with each valid key of the input once, in key order. */
  method GetSetOfValidatedRoas(a: array<Roa>) returns (n: nat)
    modifies a
    ensures n <= a.Length
    ensures StrictlySorted(a[..n]) && AllValid(a[..n])
    ensures KeySet(a[..n]) == ValidKeySet(old(a[..]))
    ensures forall r | r in a[..n] :: r in old(a[..])
  {
    RoaKindIsLawful();
    n := Distil(a, ROA_KIND);
    DistilledKeys(old(a[..]), a[..n]);
  }

  lemma DistilledKeys(input: seq<Roa>, out: seq<Roa>)
    requires Distilled(ROA_KIND, input, out)
    ensures StrictlySorted(out) && AllValid(out) && KeySet(out) == ValidKeySet(input)
    ensures forall r | r in out :: r in input
  {
    SortedIsStrict(out);
    forall r | r in out ensures r in input && r.IsValid() {
      assert Minimal(ROA_KIND, r, input);
    }
    forall r | r in input && r.IsValid() ensures r.Key() in KeySet(out) {
      assert ROA_KIND.valid(r);
    }
  }

  /** Any two normalised lists of rearranged input carry the same keys in the same order. */
  lemma ArrivalOrderIsIrrelevant(input: seq<Roa>, arranged: seq<Roa>, s: seq<Roa>, t: seq<Roa>)
    requires multiset(input) == multiset(arranged)
    requires StrictlySorted(s) && KeySet(s) == ValidKeySet(input)
    requires StrictlySorted(t) && KeySet(t) == ValidKeySet(arranged)
    ensures |s| == |t| && forall i | 0 <= i < |s| :: s[i].Key() == t[i].Key()
  {
    SameMembers(input, arranged);
    assert ValidKeySet(input) == ValidKeySet(arranged);
    RoaKindIsLawful();
    SortedIsStrict(s);
    SortedIsStrict(t);
    SameGroupsSameOrder(ROA_KIND, s, t);
    forall i | 0 <= i < |s| ensures s[i].Key() == t[i].Key() {
      assert ROA_KIND.group(s[i]) == ROA_KIND.group(t[i]);
    }
  }

  /** `now` is in nanoseconds since the Unix epoch. */
  predicate Unexpired(expires: int, now: int) {
    expires == 0 || expires * 1_000_000_000 > now
  }

  function RoaAlive(now: int): Roa -> bool {
    (r: Roa) => Unexpired(r.expires, now)
  }

  /** `filterExpired`, on the slice `a[..n]`. */
  method FilterExpired(a: array<Roa>, n: nat, now: int) returns (m: nat)
    requires n <= a.Length
    modifies a
    ensures m <= n
    ensures a[..m] == Filter(RoaAlive(now), old(a[..n]))
    ensures a[..] == Compacted(RoaAlive(now), old(a[..n])) + old(a[n..])
    ensures forall r :: r in a[..m] <==> r in old(a[..n]) && (r.expires == 0 || r.expires * 1_000_000_000 > now)
  {
    m := CompactInPlace(a, n, RoaAlive(now));
    FilterMembers(RoaAlive(now), old(a[..n]));
  }

  /** Expiry filtering keeps a list normalised. */
  lemma FilterKeepsNormal(keep: Roa -> bool, s: seq<Roa>)
    requires StrictlySorted(s) && AllValid(s)
    ensures StrictlySorted(Filter(keep, s)) && AllValid(Filter(keep, s))
  {
    SortedIsStrict(s);
    FilterKeepsStrict(ROA_KIND, keep, s);
    SortedIsStrict(Filter(keep, s));
    FilterMembers(keep, s);
  }

  /** `makeDiff`. */
  method MakeDiff(new_: seq<Roa>, old_: seq<Roa>) returns (add: seq<Roa>, del: seq<Roa>)
    ensures Diff(add, del) == DiffOf(ROA_KIND, new_, old_)
  {
    add, del := MergeDiff(ROA_KIND, new_, old_);
  }

  /** On strictly sorted lists the merge walk is set difference in both directions, itself strictly sorted. */
  lemma DiffIsSetDifference(new_: seq<Roa>, old_: seq<Roa>)
    requires StrictlySorted(new_) && StrictlySorted(old_)
    ensures var d := DiffOf(ROA_KIND, new_, old_);
      && StrictlySorted(d.add) && StrictlySorted(d.del)
      && (forall r | r in d.add :: r in new_)
      && (forall r | r in d.del :: r in old_)
      && KeySet(d.add) == KeySet(new_) - KeySet(old_)
      && KeySet(d.del) == KeySet(old_) - KeySet(new_)
      && KeySet(old_) - KeySet(d.del) + KeySet(d.add) == KeySet(new_)
  {
    var d := DiffOf(ROA_KIND, new_, old_);
    RoaKindIsLawful();
    SortedIsStrict(new_);
    SortedIsStrict(old_);
    DiffIsDifference(ROA_KIND, new_, old_);
    SortedIsStrict(d.add);
    SortedIsStrict(d.del);
    CoverIsKey(new_);
    CoverIsKey(old_);
  }

  lemma CoverIsKey(s: seq<Roa>)
    ensures forall r :: Covers(ROA_KIND, s, r) <==> r.Key() in KeySet(s)
  {
    forall r ensures Covers(ROA_KIND, s, r) <==> r.Key() in KeySet(s) {
      if r.Key() in KeySet(s) {
        var y :| y in s && y.Key() == r.Key();
        assert ROA_KIND.group(y) == ROA_KIND.group(r);
      }
    }
  }

  /**
   * `UpdateASPAs` hands the cache's own ROA array to the in-place expiry filter, so the list that the diff
   * then reads as the old one is already overwritten. The withdrawals it computes are the expired keys if and
   * only if no live entry follows an expired one.
   */
  lemma OwnArrayRefresh(keep: Roa -> bool, cached: seq<Roa>)
    requires StrictlySorted(cached)
    ensures var live := Filter(keep, cached);
      var d := DiffOf(ROA_KIND, live, Compacted(keep, cached));
      && d.add == []
      && (KeySet(d.del) == KeySet(cached) - KeySet(live) <==> KeptFirst(keep, cached))
      && (!KeptFirst(keep, cached) ==> d.del != [] && KeySet(live) != KeySet(cached))
  {
    var live := Filter(keep, cached);
    SortedIsStrict(cached);
    SortedIsStrict(live);
    SortedIsStrict(DiffOf(ROA_KIND, live, Compacted(keep, cached)).del);
    OwnArrayDiff(ROA_KIND, keep, cached);
  }
}
