/** Slice operations shared by both object kinds: `sort.Slice`, and in-place filtering. */
module Slices {

  /** What `sort.Slice` demands of its comparison. */
  ghost predicate WeakOrder<T(!new)>(less: (T, T) -> bool) {
    && (forall x :: !less(x, x))
    && (forall x, y, z :: less(x, y) && less(y, z) ==> less(x, z))
    && (forall x, y, z :: !less(x, y) && !less(y, z) ==> !less(x, z))
  }

  /** No element is below an earlier one. */
  ghost predicate Ascending<T>(less: (T, T) -> bool, s: seq<T>) {
    forall i, j | 0 <= i < j < |s| :: !less(s[j], s[i])
  }

  function Insert<T>(less: (T, T) -> bool, x: T, s: seq<T>): seq<T> {
    if s == [] || less(x, s[0]) then [x] + s else [s[0]] + Insert(less, x, s[1..])
  }

  lemma {:induction false} InsertMembers<T>(less: (T, T) -> bool, x: T, s: seq<T>)
    ensures multiset(Insert(less, x, s)) == multiset(s) + multiset{x}
  {
    if s != [] && !less(x, s[0]) {
      InsertMembers(less, x, s[1..]);
      assert s == [s[0]] + s[1..];
    }
  }

  lemma {:induction false} InsertKeepsOrder<T(!new)>(less: (T, T) -> bool, x: T, s: seq<T>)
    requires WeakOrder(less) && Ascending(less, s)
    ensures Ascending(less, Insert(less, x, s))
  {
    if s == [] {
    } else if less(x, s[0]) {
      assert forall j | 0 <= j < |s| :: !less(s[j], s[0]);
    } else {
      var rest := Insert(less, x, s[1..]);
      InsertKeepsOrder(less, x, s[1..]);
      InsertMembers(less, x, s[1..]);
      forall j | 0 <= j < |rest| ensures !less(rest[j], s[0]) {
        assert rest[j] in multiset(rest);
        if rest[j] != x {
          assert rest[j] in multiset(s[1..]);
        }
      }
    }
  }

  /** Go's `sort.Slice`: some ascending permutation, with no promise about ties. */
  method SortSlice<T(!new)>(a: array<T>, less: (T, T) -> bool)
    requires WeakOrder(less)
    modifies a
    ensures Ascending(less, a[..])
    ensures multiset(a[..]) == multiset(old(a[..]))
  {
    var s: seq<T> := [];
    for i := 0 to a.Length
      invariant Ascending(less, s)
      invariant multiset(s) == multiset(a[..i])
      invariant |s| == i && a[..] == old(a[..])
    {
      InsertKeepsOrder(less, a[i], s);
      InsertMembers(less, a[i], s);
      assert a[..i + 1] == a[..i] + [a[i]];
      s := Insert(less, a[i], s);
      assert |s| == |multiset(s)|;
    }
    assert a[..a.Length] == a[..] == old(a[..]);
    forall i | 0 <= i < a.Length {
      a[i] := s[i];
    }
    assert a[..] == s;
  }

  /** The elements that pass `keep`, in order. */
  function Filter<T(!new)>(keep: T -> bool, s: seq<T>): (r: seq<T>)
    ensures |r| <= |s|
  {
    if s == [] then [] else
      var r := Filter(keep, s[..|s| - 1]);
      if keep(s[|s| - 1]) then r + [s[|s| - 1]] else r
  }

  lemma {:induction false} FilterMembers<T(!new)>(keep: T -> bool, s: seq<T>)
    ensures forall x :: x in Filter(keep, s) <==> x in s && keep(x)
  {
    if s != [] {
      FilterMembers(keep, s[..|s| - 1]);
      assert s == s[..|s| - 1] + [s[|s| - 1]];
    }
  }

  /** What the array holds after filtering in place: the kept elements, then stale ones. */
  function Compacted<T(!new)>(keep: T -> bool, s: seq<T>): seq<T> {
    var kept := Filter(keep, s);
    kept + s[|kept|..]
  }

  lemma FilterStep<T(!new)>(keep: T -> bool, s: seq<T>, j: nat)
    requires j < |s|
    ensures Filter(keep, s[..j + 1]) == Filter(keep, s[..j]) + if keep(s[j]) then [s[j]] else []
  {
    assert s[..j + 1][..j] == s[..j];
  }

  /** Filters the first `n` elements of `a` in place, as both expiry filters do. */
  method CompactInPlace<T(!new)>(a: array<T>, n: nat, keep: T -> bool) returns (m: nat)
    requires n <= a.Length
    modifies a
    ensures m <= n
    ensures a[..m] == Filter(keep, old(a[..n]))
    ensures a[..] == Compacted(keep, old(a[..n])) + old(a[n..])
  {
    hide Filter, Compacted;
    ghost var s := a[..];
    m := 0;
    for j := 0 to n
      invariant m <= j
      invariant a[..m] == Filter(keep, s[..j])
      invariant a[m..] == s[m..]
    {
      FilterStep(keep, s, j);
      var x := a[j];
      assert x == a[m..][j - m] == s[j];
      if keep(x) {
        a[m] := x;
        m := m + 1;
        assert a[..m] == a[..m - 1] + [x];
        assert a[m..] == s[m - 1..][1..];
      }
    }
    assert a[..] == a[..m] + a[m..];
    CompactedThenRest(keep, s, n);
  }

  lemma CompactedThenRest<T(!new)>(keep: T -> bool, s: seq<T>, n: nat)
    requires n <= |s|
    ensures var kept := Filter(keep, s[..n]); kept + s[|kept|..] == Compacted(keep, s[..n]) + s[n..]
  {
    hide Filter;
  }

  /** No kept element follows a dropped one. */
  ghost predicate KeptFirst<T>(keep: T -> bool, s: seq<T>) {
    forall i, j | 0 <= i < j < |s| && keep(s[j]) :: keep(s[i])
  }

  lemma {:induction false} FilterConcat<T(!new)>(keep: T -> bool, s: seq<T>, t: seq<T>)
    ensures Filter(keep, s + t) == Filter(keep, s) + Filter(keep, t)
  {
    if t == [] {
      assert s + t == s;
    } else {
      assert (s + t)[..|s + t| - 1] == s + t[..|t| - 1];
      FilterConcat(keep, s, t[..|t| - 1]);
    }
  }

  lemma {:induction false} FilterFull<T(!new)>(keep: T -> bool, s: seq<T>)
    ensures |Filter(keep, s)| == |s| <==> forall x | x in s :: keep(x)
    ensures |Filter(keep, s)| == |s| ==> Filter(keep, s) == s
  {
    if s != [] {
      FilterFull(keep, s[..|s| - 1]);
      assert s == s[..|s| - 1] + [s[|s| - 1]];
    }
  }

  lemma {:induction false} FilterNothing<T(!new)>(keep: T -> bool, s: seq<T>)
    requires forall i | 0 <= i < |s| :: !keep(s[i])
    ensures Filter(keep, s) == []
  {
    if s != [] {
      FilterNothing(keep, s[..|s| - 1]);
    }
  }

  lemma {:induction false} KeptFirstIsPrefix<T(!new)>(keep: T -> bool, s: seq<T>)
    requires KeptFirst(keep, s)
    ensures Filter(keep, s) == s[..|Filter(keep, s)|]
    ensures forall i | |Filter(keep, s)| <= i < |s| :: !keep(s[i])
  {
    if s != [] {
      var front := s[..|s| - 1];
      KeptFirstIsPrefix(keep, front);
      if keep(s[|s| - 1]) {
        assert forall x | x in front :: keep(x) by {
          assert forall i | 0 <= i < |front| :: keep(s[i]) && front[i] == s[i];
        }
        FilterFull(keep, front);
      }
    }
  }

  /** The stale tail left by in-place filtering is free of kept elements exactly when nothing had to move. */
  lemma StaleTail<T(!new)>(keep: T -> bool, s: seq<T>)
    ensures KeptFirst(keep, s) <==> forall i | |Filter(keep, s)| <= i < |s| :: !keep(s[i])
  {
    var m := |Filter(keep, s)|;
    if forall i | m <= i < |s| :: !keep(s[i]) {
      assert s == s[..m] + s[m..];
      FilterConcat(keep, s[..m], s[m..]);
      FilterNothing(keep, s[m..]);
      FilterFull(keep, s[..m]);
      forall i, j | 0 <= i < j < |s| && keep(s[j]) ensures keep(s[i]) {
        assert s[..m][i] in s[..m];
      }
    }
    if KeptFirst(keep, s) {
      KeptFirstIsPrefix(keep, s);
    }
  }

  /** One of the two trailing copy loops of a merge. */
  method AppendFrom<T>(list: seq<T>, source: seq<T>, from: nat) returns (r: seq<T>)
    requires from <= |source|
    ensures r == list + source[from..]
  {
    r := list;
    for i := from to |source|
      invariant r == list + source[from..i]
    {
      r := r + [source[i]];
    }
  }
}
