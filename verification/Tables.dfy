/**
 * Sorted tables of grouped entries. ROAs (grouped by key) and ASPAs (grouped by customer) go through the same
 * two loops: keep the first valid entry of each group of a sorted list, and walk two sorted lists to diff them.
 */
module Tables {
  import opened Slices

  /** How one object kind is sorted, grouped, validated and compared within a group. */
  datatype Kind<!T, !G> = Kind(
    less: (T, T) -> bool,
    group: T -> G,
    valid: T -> bool,
    equal: (T, T) -> bool)

  /** Ties share a group, and groups are contiguous in the order. */
  ghost predicate Lawful<T(!new), G>(kind: Kind<T, G>) {
    && WeakOrder(kind.less)
    && (forall x, y :: !kind.less(x, y) && !kind.less(y, x) ==> kind.group(x) == kind.group(y))
    && (forall x, y, z :: kind.group(x) == kind.group(y) && kind.group(x) != kind.group(z) && kind.less(x, z)
                          ==> kind.less(y, z))
    && (forall x, y, z :: kind.group(x) == kind.group(y) && kind.group(x) != kind.group(z) && kind.less(z, x)
                          ==> kind.less(z, y))
  }

  /** One entry per group, ascending. */
  ghost predicate Strict<T, G>(kind: Kind<T, G>, s: seq<T>) {
    forall i, j | 0 <= i < j < |s| :: kind.less(s[i], s[j]) && kind.group(s[i]) != kind.group(s[j])
  }

  ghost function Groups<T, G>(kind: Kind<T, G>, s: seq<T>): set<G> {
    set x | x in s :: kind.group(x)
  }

  /** `x` is a least valid entry of its group. */
  ghost predicate Minimal<T, G>(kind: Kind<T, G>, x: T, input: seq<T>) {
    && x in input && kind.valid(x)
    && forall a | a in input && kind.valid(a) && kind.group(a) == kind.group(x) :: !kind.less(a, x)
  }

  /** A least valid entry for each group that has a valid entry, and nothing else, ascending. */
  ghost predicate Distilled<T, G>(kind: Kind<T, G>, input: seq<T>, out: seq<T>) {
    && Strict(kind, out)
    && (forall x | x in out :: Minimal(kind, x, input))
    && (forall a | a in input && kind.valid(a) :: kind.group(a) in Groups(kind, out))
  }

  /** The scan of a sorted list: keeps a valid entry unless its group is that of the last one kept. */
  function Scan<T, G(==)>(kind: Kind<T, G>, s: seq<T>): (r: seq<T>)
    ensures |r| <= |s|
  {
    if s == [] then [] else
      var kept := Scan(kind, s[..|s| - 1]);
      var x := s[|s| - 1];
      if kind.valid(x) && (kept == [] || kind.group(x) != kind.group(kept[|kept| - 1])) then kept + [x] else kept
  }

  /** Sorts `a`, then keeps the first valid entry of each group in its first `n` places. */
  method Distil<T(!new), G(==)>(a: array<T>, kind: Kind<T, G>) returns (n: nat)
    requires Lawful(kind)
    modifies a
    ensures n <= a.Length
    ensures Distilled(kind, old(a[..]), a[..n])
  {
    SortSlice(a, kind.less);
    ghost var s := a[..];
    n := ScanInPlace(a, kind);
    ScanDistils(kind, s);
    SameInput(kind, s, old(a[..]), a[..n]);
  }

  method ScanInPlace<T, G(==)>(a: array<T>, kind: Kind<T, G>) returns (n: nat)
    modifies a
    ensures n <= a.Length
    ensures a[..n] == Scan(kind, old(a[..]))
  {
    hide Scan;
    ghost var s := a[..];
    n := 0;
    ScanNothing(kind, s[..0]);
    for j := 0 to a.Length
      invariant n <= j
      invariant a[n..] == s[n..]
      invariant a[..n] == Scan(kind, s[..j])
    {
      ScanNext(kind, s, j);
      assert a[j] == a[n..][j - n] == s[j];
      assert n > 0 ==> a[..n][n - 1] == a[n - 1];
      if kind.valid(a[j]) && (n == 0 || kind.group(a[j]) != kind.group(a[n - 1])) {
        a[n] := a[j];
        n := n + 1;
        assert a[..n] == a[..n - 1] + [s[j]];
        assert a[n..] == s[n - 1..][1..];
      }
    }
    assert s[..a.Length] == s;
  }

  lemma ScanNothing<T, G>(kind: Kind<T, G>, s: seq<T>)
    requires s == []
    ensures Scan(kind, s) == []
  {
  }

  lemma ScanNext<T, G>(kind: Kind<T, G>, s: seq<T>, j: nat)
    requires j < |s|
    ensures var kept := Scan(kind, s[..j]);
      Scan(kind, s[..j + 1]) ==
        if kind.valid(s[j]) && (kept == [] || kind.group(s[j]) != kind.group(kept[|kept| - 1])) then kept + [s[j]] else kept
  {
    assert s[..j + 1][..j] == s[..j];
  }

  lemma {:induction false} ScanDistils<T(!new), G>(kind: Kind<T, G>, s: seq<T>)
    requires Lawful(kind) && Ascending(kind.less, s)
    ensures Distilled(kind, s, Scan(kind, s))
  {
    hide Distilled, Lawful;
    if s == [] {
      NothingToDistil(kind);
    } else {
      var j := |s| - 1;
      ScanDistils(kind, s[..j]);
      ScanStep(kind, s, j, Scan(kind, s[..j]));
      assert s[..j + 1] == s;
    }
  }

  lemma NothingToDistil<T, G>(kind: Kind<T, G>)
    ensures Distilled(kind, [], [])
  {
  }

  lemma SameInput<T, G>(kind: Kind<T, G>, s: seq<T>, t: seq<T>, out: seq<T>)
    requires multiset(s) == multiset(t) && Distilled(kind, s, out)
    ensures Distilled(kind, t, out)
  {
    SameMembers(s, t);
    forall x | x in out ensures Minimal(kind, x, t) {
      assert Minimal(kind, x, s);
    }
  }

  lemma SameMembers<T>(s: seq<T>, t: seq<T>)
    requires multiset(s) == multiset(t)
    ensures forall x :: x in s <==> x in t
  {
    assert forall x :: x in s <==> x in multiset(s);
    assert forall x :: x in t <==> x in multiset(t);
  }

  lemma NextPrefix<T>(s: seq<T>, j: nat)
    requires j < |s|
    ensures forall x :: x in s[..j + 1] <==> x in s[..j] || x == s[j]
  {
    assert s[..j + 1] == s[..j] + [s[j]];
  }

  /** One turn of the scan over a sorted list. */
  lemma ScanStep<T(!new), G>(kind: Kind<T, G>, s: seq<T>, j: nat, kept: seq<T>)
    requires Lawful(kind) && j < |s| && Ascending(kind.less, s) && Distilled(kind, s[..j], kept)
    ensures Distilled(kind, s[..j + 1],
              if kind.valid(s[j]) && (kept == [] || kind.group(s[j]) != kind.group(kept[|kept| - 1]))
              then kept + [s[j]] else kept)
  {
    forall x | x in kept ensures Minimal(kind, x, s[..j + 1]) {
      KeptStaysMinimal(kind, s, j, x);
    }
    NextPrefix(s, j);
    if kind.valid(s[j]) {
      if kept == [] || kind.group(s[j]) != kind.group(kept[|kept| - 1]) {
        KeptIsBelow(kind, s, j, kept);
        NewGroupIsMinimal(kind, s, j, kept);
        GroupsOfAppend(kind, kept, s[j]);
      } else {
        assert kept[|kept| - 1] in kept;
      }
    }
  }

  lemma GroupsOfAppend<T, G>(kind: Kind<T, G>, s: seq<T>, x: T)
    ensures Groups(kind, s + [x]) == Groups(kind, s) + {kind.group(x)}
  {
  }

  lemma KeptStaysMinimal<T(!new), G>(kind: Kind<T, G>, s: seq<T>, j: nat, x: T)
    requires j < |s| && Ascending(kind.less, s) && Minimal(kind, x, s[..j])
    ensures Minimal(kind, x, s[..j + 1])
  {
    NextPrefix(s, j);
    var i :| 0 <= i < j && s[i] == x;
  }

  lemma KeptIsBelow<T(!new), G>(kind: Kind<T, G>, s: seq<T>, j: nat, kept: seq<T>)
    requires Lawful(kind) && j < |s| && Ascending(kind.less, s) && Distilled(kind, s[..j], kept)
    requires kept == [] || kind.group(s[j]) != kind.group(kept[|kept| - 1])
    ensures forall i | 0 <= i < |kept| :: kind.less(kept[i], s[j]) && kind.group(kept[i]) != kind.group(s[j])
  {
    if kept != [] {
      var last := kept[|kept| - 1];
      assert last in kept;
      var k :| 0 <= k < j && s[k] == last;
      assert kind.less(last, s[j]);
      forall i | 0 <= i < |kept| - 1
        ensures kind.less(kept[i], s[j]) && kind.group(kept[i]) != kind.group(s[j])
      {
        assert kind.less(kept[i], last);
      }
    }
  }

  lemma NewGroupIsMinimal<T(!new), G>(kind: Kind<T, G>, s: seq<T>, j: nat, kept: seq<T>)
    requires Lawful(kind) && j < |s| && kind.valid(s[j]) && Distilled(kind, s[..j], kept)
    requires forall i | 0 <= i < |kept| :: kind.group(kept[i]) != kind.group(s[j])
    ensures Minimal(kind, s[j], s[..j + 1])
  {
    NextPrefix(s, j);
    assert kind.group(s[j]) !in Groups(kind, kept);
  }

  /**
   * Two distillations of rearranged input have the same length, and agree position by position up to ties.
   */
  lemma DistillationIsUnique<T(!new), G>(kind: Kind<T, G>, input: seq<T>, arranged: seq<T>, s: seq<T>, t: seq<T>)
    requires Lawful(kind) && multiset(input) == multiset(arranged)
    requires Distilled(kind, input, s) && Distilled(kind, arranged, t)
    ensures |s| == |t|
    ensures forall i | 0 <= i < |s| :: kind.group(s[i]) == kind.group(t[i])
    ensures forall i | 0 <= i < |s| :: !kind.less(s[i], t[i]) && !kind.less(t[i], s[i])
  {
    SameInput(kind, arranged, input, t);
    GroupsAreSubset(kind, input, s, t);
    GroupsAreSubset(kind, input, t, s);
    SameGroupsSameOrder(kind, s, t);
    forall i | 0 <= i < |s| ensures !kind.less(s[i], t[i]) && !kind.less(t[i], s[i]) {
      assert s[i] in s && t[i] in t;
      assert Minimal(kind, s[i], input) && Minimal(kind, t[i], input);
    }
  }

  lemma GroupsAreSubset<T, G>(kind: Kind<T, G>, input: seq<T>, s: seq<T>, t: seq<T>)
    requires Distilled(kind, input, s) && Distilled(kind, input, t)
    ensures Groups(kind, s) <= Groups(kind, t)
  {
    forall x | x in s ensures kind.group(x) in Groups(kind, t) {
      assert Minimal(kind, x, input);
    }
  }

  /** A strict table is determined by its groups. */
  lemma {:induction false} SameGroupsSameOrder<T(!new), G>(kind: Kind<T, G>, s: seq<T>, t: seq<T>)
    requires Lawful(kind) && Strict(kind, s) && Strict(kind, t) && Groups(kind, s) == Groups(kind, t)
    ensures |s| == |t|
    ensures forall i | 0 <= i < |s| :: kind.group(s[i]) == kind.group(t[i])
  {
    NoGroups(kind, s);
    NoGroups(kind, t);
    if s != [] {
      var m, n := |s| - 1, |t| - 1;
      LastsShareGroup(kind, s, t);
      DropLast(kind, s);
      DropLast(kind, t);
      SameGroupsSameOrder(kind, s[..m], t[..n]);
      forall i | 0 <= i < |s| ensures kind.group(s[i]) == kind.group(t[i]) {
        if i < m {
          assert kind.group(s[..m][i]) == kind.group(t[..n][i]);
        }
      }
    }
  }

  lemma NoGroups<T, G>(kind: Kind<T, G>, s: seq<T>)
    ensures Groups(kind, s) == {} <==> s == []
  {
    if s != [] {
      assert kind.group(s[0]) in Groups(kind, s);
    }
  }

  lemma DropLast<T, G>(kind: Kind<T, G>, s: seq<T>)
    requires Strict(kind, s) && s != []
    ensures Strict(kind, s[..|s| - 1])
    ensures Groups(kind, s[..|s| - 1]) == Groups(kind, s) - {kind.group(s[|s| - 1])}
  {
    assert s == s[..|s| - 1] + [s[|s| - 1]];
  }

  lemma LastsShareGroup<T(!new), G>(kind: Kind<T, G>, s: seq<T>, t: seq<T>)
    requires Lawful(kind) && Strict(kind, s) && Strict(kind, t) && Groups(kind, s) == Groups(kind, t)
    requires s != [] && t != []
    ensures kind.group(s[|s| - 1]) == kind.group(t[|t| - 1])
  {
    var x, y := s[|s| - 1], t[|t| - 1];
    assert kind.group(x) in Groups(kind, s) && kind.group(y) in Groups(kind, t);
    if kind.group(x) != kind.group(y) {
      BelowLast(kind, s, y);
      BelowLast(kind, t, x);
    }
  }

  lemma BelowLast<T(!new), G>(kind: Kind<T, G>, s: seq<T>, x: T)
    requires Lawful(kind) && Strict(kind, s) && kind.group(x) in Groups(kind, s)
    requires s != [] && kind.group(x) != kind.group(s[|s| - 1])
    ensures kind.less(x, s[|s| - 1])
  {
    var i := FindGroup(kind, s, kind.group(x));
    assert kind.less(s[i], s[|s| - 1]);
  }

  lemma FindGroup<T, G>(kind: Kind<T, G>, s: seq<T>, g: G) returns (i: nat)
    requires g in Groups(kind, s)
    ensures i < |s| && kind.group(s[i]) == g
  {
    var x :| x in s && kind.group(x) == g;
    i :| 0 <= i < |s| && s[i] == x;
  }

  /** Filtering keeps a table strict. */
  lemma {:induction false} FilterKeepsStrict<T(!new), G>(kind: Kind<T, G>, keep: T -> bool, s: seq<T>)
    requires Strict(kind, s)
    ensures Strict(kind, Filter(keep, s))
  {
    if s != [] {
      var front := s[..|s| - 1];
      FilterKeepsStrict(kind, keep, front);
      FilterMembers(keep, front);
      var kept := Filter(keep, front);
      forall i | 0 <= i < |kept|
        ensures kind.less(kept[i], s[|s| - 1]) && kind.group(kept[i]) != kind.group(s[|s| - 1])
      {
        assert kept[i] in front;
      }
    }
  }

  datatype Diff<T> = Diff(add: seq<T>, del: seq<T>)

  /** The merge walk, on any two lists. */
  function DiffOf<T, G(==)>(kind: Kind<T, G>, new_: seq<T>, old_: seq<T>): Diff<T>
    decreases |new_| + |old_|
  {
    if new_ == [] || old_ == [] then
      Diff(new_, old_)
    else if kind.group(new_[0]) == kind.group(old_[0]) then
      var d := DiffOf(kind, new_[1..], old_[1..]);
      if kind.equal(new_[0], old_[0]) then d else Diff([new_[0]] + d.add, [old_[0]] + d.del)
    else if kind.less(new_[0], old_[0]) then
      var d := DiffOf(kind, new_[1..], old_);
      Diff([new_[0]] + d.add, d.del)
    else
      var d := DiffOf(kind, new_, old_[1..]);
      Diff(d.add, [old_[0]] + d.del)
  }

  lemma DiffStep<T, G>(kind: Kind<T, G>, new_: seq<T>, old_: seq<T>, i: nat, j: nat)
    requires i < |new_| && j < |old_|
    ensures var d := DiffOf(kind, new_[i..], old_[j..]);
      if kind.group(new_[i]) == kind.group(old_[j]) then
        var e := DiffOf(kind, new_[i + 1..], old_[j + 1..]);
        d == if kind.equal(new_[i], old_[j]) then e else Diff([new_[i]] + e.add, [old_[j]] + e.del)
      else if kind.less(new_[i], old_[j]) then
        var e := DiffOf(kind, new_[i + 1..], old_[j..]); d == Diff([new_[i]] + e.add, e.del)
      else
        var e := DiffOf(kind, new_[i..], old_[j + 1..]); d == Diff(e.add, [old_[j]] + e.del)
  {
    assert new_[i..][1..] == new_[i + 1..];
    assert old_[j..][1..] == old_[j + 1..];
  }

  /** The two-pointer loop, then its two trailing copies. */
  method MergeDiff<T, G(==)>(kind: Kind<T, G>, new_: seq<T>, old_: seq<T>) returns (add: seq<T>, del: seq<T>)
    ensures Diff(add, del) == DiffOf(kind, new_, old_)
  {
    var i, j;
    add, del, i, j := MergeLoop(kind, new_, old_);
    add := AppendFrom(add, new_, i);
    del := AppendFrom(del, old_, j);
  }

  method MergeLoop<T, G(==)>(kind: Kind<T, G>, new_: seq<T>, old_: seq<T>)
    returns (add: seq<T>, del: seq<T>, i: nat, j: nat)
    ensures i <= |new_| && j <= |old_|
    ensures DiffOf(kind, new_, old_) == Diff(add + new_[i..], del + old_[j..])
  {
    add, del, i, j := [], [], 0, 0;
    ghost var d := DiffOf(kind, new_, old_);
    ghost var rest := d;
    assert new_[0..] == new_ && old_[0..] == old_;
    while i < |new_| && j < |old_|
      invariant i <= |new_| && j <= |old_|
      invariant rest == DiffOf(kind, new_[i..], old_[j..])
      invariant add + rest.add == d.add
      invariant del + rest.del == d.del
      decreases |new_| - i + |old_| - j
    {
      DiffStep(kind, new_, old_, i, j);
      ghost var before := rest;
      if kind.group(new_[i]) == kind.group(old_[j]) {
        rest := DiffOf(kind, new_[i + 1..], old_[j + 1..]);
        if !kind.equal(new_[i], old_[j]) {
          Shift(add, new_[i], rest.add);
          Shift(del, old_[j], rest.del);
          add := add + [new_[i]];
          del := del + [old_[j]];
        }
        i, j := i + 1, j + 1;
      } else if kind.less(new_[i], old_[j]) {
        rest := DiffOf(kind, new_[i + 1..], old_[j..]);
        Shift(add, new_[i], rest.add);
        add := add + [new_[i]];
        i := i + 1;
      } else {
        rest := DiffOf(kind, new_[i..], old_[j + 1..]);
        Shift(del, old_[j], rest.del);
        del := del + [old_[j]];
        j := j + 1;
      }
    }
  }

  lemma Shift<T>(s: seq<T>, x: T, t: seq<T>)
    ensures s + ([x] + t) == s + [x] + t
  {
  }

  /** `s` holds an entry of `x`'s group that compares equal to `x`. */
  ghost predicate Covers<T, G>(kind: Kind<T, G>, s: seq<T>, x: T) {
    exists y | y in s :: kind.group(y) == kind.group(x) && kind.equal(x, y) && kind.equal(y, x)
  }

  /** `d` holds exactly the entries the other side does not cover, on both sides as strict tables. */
  ghost predicate Separates<T(!new), G>(kind: Kind<T, G>, new_: seq<T>, old_: seq<T>, d: Diff<T>) {
    && Strict(kind, d.add) && Strict(kind, d.del)
    && (forall x :: x in d.add <==> x in new_ && !Covers(kind, old_, x))
    && (forall x :: x in d.del <==> x in old_ && !Covers(kind, new_, x))
  }

  /**
   * On strict tables the walk finds exactly the entries the other side does not cover, and both
   * results are strict tables again.
   */
  lemma {:induction false} DiffIsDifference<T(!new), G>(kind: Kind<T, G>, new_: seq<T>, old_: seq<T>)
    requires Lawful(kind) && Strict(kind, new_) && Strict(kind, old_)
    requires forall x, y :: kind.equal(x, y) ==> kind.equal(y, x)
    ensures Separates(kind, new_, old_, DiffOf(kind, new_, old_))
    decreases |new_| + |old_|
  {
    hide Separates, Lawful, Strict;
    if new_ == [] || old_ == [] {
      OneSided(kind, new_, old_);
    } else if kind.group(new_[0]) == kind.group(old_[0]) {
      SplitFirst(kind, new_);
      SplitFirst(kind, old_);
      DiffIsDifference(kind, new_[1..], old_[1..]);
      SeparateEqual(kind, new_, old_, DiffOf(kind, new_[1..], old_[1..]));
    } else if kind.less(new_[0], old_[0]) {
      SplitFirst(kind, new_);
      DiffIsDifference(kind, new_[1..], old_);
      SeparateAdd(kind, new_, old_, DiffOf(kind, new_[1..], old_));
    } else {
      SplitFirst(kind, old_);
      DiffIsDifference(kind, new_, old_[1..]);
      SeparateDel(kind, new_, old_, DiffOf(kind, new_, old_[1..]));
    }
  }

  lemma OneSided<T(!new), G>(kind: Kind<T, G>, new_: seq<T>, old_: seq<T>)
    requires Strict(kind, new_) && Strict(kind, old_) && (new_ == [] || old_ == [])
    ensures Separates(kind, new_, old_, Diff(new_, old_))
  {
  }

  lemma SeparateEqual<T(!new), G>(kind: Kind<T, G>, new_: seq<T>, old_: seq<T>, d: Diff<T>)
    requires Strict(kind, new_) && Strict(kind, old_) && new_ != [] && old_ != []
    requires kind.group(new_[0]) == kind.group(old_[0]) && Separates(kind, new_[1..], old_[1..], d)
    requires forall x, y :: kind.equal(x, y) ==> kind.equal(y, x)
    ensures kind.equal(new_[0], old_[0]) ==> Separates(kind, new_, old_, d)
    ensures !kind.equal(new_[0], old_[0]) ==>
      Separates(kind, new_, old_, Diff([new_[0]] + d.add, [old_[0]] + d.del))
  {
    SplitFirst(kind, new_);
    SplitFirst(kind, old_);
    HeadsShareGroup(kind, new_, old_);
    HeadsShareGroup(kind, old_, new_);
  }

  lemma SeparateAdd<T(!new), G>(kind: Kind<T, G>, new_: seq<T>, old_: seq<T>, d: Diff<T>)
    requires Lawful(kind) && Strict(kind, new_) && Strict(kind, old_) && new_ != [] && old_ != []
    requires kind.group(new_[0]) != kind.group(old_[0]) && kind.less(new_[0], old_[0])
    requires Separates(kind, new_[1..], old_, d)
    ensures Separates(kind, new_, old_, Diff([new_[0]] + d.add, d.del))
  {
    SplitFirst(kind, new_);
    HeadIsBelow(kind, new_, old_);
  }

  lemma SeparateDel<T(!new), G>(kind: Kind<T, G>, new_: seq<T>, old_: seq<T>, d: Diff<T>)
    requires Lawful(kind) && Strict(kind, new_) && Strict(kind, old_) && new_ != [] && old_ != []
    requires kind.group(new_[0]) != kind.group(old_[0]) && !kind.less(new_[0], old_[0])
    requires Separates(kind, new_, old_[1..], d)
    ensures Separates(kind, new_, old_, Diff(d.add, [old_[0]] + d.del))
  {
    SplitFirst(kind, old_);
    HeadIsBelow(kind, old_, new_);
  }

  lemma SplitFirst<T, G>(kind: Kind<T, G>, s: seq<T>)
    requires Strict(kind, s) && s != []
    ensures Strict(kind, s[1..])
    ensures forall x :: x in s <==> x == s[0] || x in s[1..]
    ensures forall x | x in s[1..] :: kind.less(s[0], x) && kind.group(s[0]) != kind.group(x)
  {
    assert s == [s[0]] + s[1..];
    forall x | x in s[1..] ensures kind.less(s[0], x) && kind.group(s[0]) != kind.group(x) {
      var i :| 0 <= i < |s| - 1 && s[1..][i] == x;
      assert kind.less(s[0], s[i + 1]);
    }
  }

  lemma HeadsShareGroup<T, G>(kind: Kind<T, G>, s: seq<T>, t: seq<T>)
    requires Strict(kind, s) && Strict(kind, t) && s != [] && t != []
    requires kind.group(s[0]) == kind.group(t[0])
    requires forall x, y | x in s && y in t :: kind.equal(x, y) ==> kind.equal(y, x)
    ensures forall x | x in s[1..] :: Covers(kind, t, x) == Covers(kind, t[1..], x)
    ensures Covers(kind, t, s[0]) == kind.equal(s[0], t[0])
  {
    SplitFirst(kind, s);
    SplitFirst(kind, t);
  }

  lemma HeadIsBelow<T(!new), G>(kind: Kind<T, G>, s: seq<T>, t: seq<T>)
    requires Lawful(kind) && Strict(kind, s) && Strict(kind, t) && s != [] && t != []
    requires kind.group(s[0]) != kind.group(t[0]) && !kind.less(t[0], s[0])
    ensures kind.less(s[0], t[0])
    ensures !Covers(kind, t, s[0])
    ensures forall y | y in t :: Covers(kind, s, y) == Covers(kind, s[1..], y)
  {
    SplitFirst(kind, s);
    SplitFirst(kind, t);
    var h, g := s[0], t[0];
    forall y | y in t ensures kind.group(y) != kind.group(h) {
      assert kind.group(y) == kind.group(h) && kind.less(g, y) ==> kind.less(g, h);
    }
  }

  lemma {:induction false} DiffAgainstExtension<T(!new), G>(kind: Kind<T, G>, p: seq<T>, t: seq<T>)
    requires forall x :: kind.equal(x, x)
    ensures DiffOf(kind, p, p + t) == Diff([], t)
  {
    if p == [] {
      assert p + t == t;
    } else {
      assert (p + t)[1..] == p[1..] + t;
      DiffAgainstExtension(kind, p[1..], t);
    }
  }

  /**
   * When the old list is the very array that was just filtered in place, the walk reads it overwritten. The
   * deletions it then reports are the dropped groups if and only if no kept entry followed a dropped one.
   */
  lemma OwnArrayDiff<T(!new), G>(kind: Kind<T, G>, keep: T -> bool, s: seq<T>)
    requires Strict(kind, s) && (forall x :: kind.equal(x, x))
    ensures var live := Filter(keep, s);
      var d := DiffOf(kind, live, Compacted(keep, s));
      && d.add == []
      && (Groups(kind, d.del) == Groups(kind, s) - Groups(kind, live) <==> KeptFirst(keep, s))
      && (!KeptFirst(keep, s) ==> d.del != [] && Groups(kind, live) != Groups(kind, s))
  {
    var live := Filter(keep, s);
    var tail := s[|live|..];
    DiffAgainstExtension(kind, live, tail);
    StaleTail(keep, s);
    if KeptFirst(keep, s) {
      KeptFirstIsPrefix(keep, s);
      SplitAt(kind, s, |live|);
    } else {
      FilterMembers(keep, s);
      var i :| |live| <= i < |s| && keep(s[i]);
      assert tail[i - |live|] == s[i];
      assert kind.group(s[i]) in Groups(kind, tail) && kind.group(s[i]) in Groups(kind, live);
      DroppedGroup(kind, keep, s);
    }
  }

  lemma DroppedGroup<T(!new), G>(kind: Kind<T, G>, keep: T -> bool, s: seq<T>)
    requires Strict(kind, s) && !KeptFirst(keep, s)
    ensures Groups(kind, Filter(keep, s)) != Groups(kind, s)
  {
    var i, j :| 0 <= i < j < |s| && keep(s[j]) && !keep(s[i]);
    FilterMembers(keep, s);
    forall x | x in Filter(keep, s) ensures kind.group(x) != kind.group(s[i]) {
      var k :| 0 <= k < |s| && s[k] == x;
      assert if k < i then kind.group(s[k]) != kind.group(s[i]) else kind.group(s[i]) != kind.group(s[k]);
    }
    assert kind.group(s[i]) in Groups(kind, s);
  }

  lemma SplitAt<T, G>(kind: Kind<T, G>, s: seq<T>, m: nat)
    requires Strict(kind, s) && m <= |s|
    ensures Groups(kind, s[m..]) == Groups(kind, s) - Groups(kind, s[..m])
  {
    assert s == s[..m] + s[m..];
    forall x, y | x in s[..m] && y in s[m..] ensures kind.group(x) != kind.group(y) {
      var i :| 0 <= i < m && s[i] == x;
      var j :| 0 <= j < |s| - m && s[m..][j] == y;
      assert kind.group(s[i]) != kind.group(s[m + j]);
    }
  }
}
