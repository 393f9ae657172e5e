/** Sorting packages ascending by kernel version, as `sort.Sort(ByVersion(...))`
    does before packages are processed. `sort.Sort` is not stable: packages
    with equal version integers may come out in any order, so what is stated
    about a sort here is what every such result satisfies. */
module VersionSort {
  import KernelVersion
  import opened Packages

  predicate NotBefore(p: Package, q: Package) {
    !KernelVersion.Less(p.Version(), q.Version())
  }

  /** No package is ordered before an earlier one. */
  predicate Sorted(s: seq<Package>) {
    forall i, j :: 0 <= i < j < |s| ==> NotBefore(s[j], s[i])
  }

  /** The form in which `sort.Sort`'s promise reads: no package is less than
      its predecessor. */
  predicate AdjacentSorted(s: seq<Package>) {
    forall i :: 0 < i < |s| ==> NotBefore(s[i], s[i - 1])
  }

  /** Since "not less than" chains, the neighbour condition already orders
      every pair. */
  lemma {:induction false} AdjacentSortedIsSorted(s: seq<Package>)
    ensures AdjacentSorted(s) <==> Sorted(s)
  {
    if AdjacentSorted(s) && |s| > 1 {
      var t := s[..|s| - 1];
      assert AdjacentSorted(t);
      AdjacentSortedIsSorted(t);
      forall i | 0 <= i < |s| - 1
        ensures NotBefore(s[|s| - 1], s[i])
      {
        AscendingToLast(s, i);
      }
    }
  }

  lemma {:induction false} AscendingToLast(s: seq<Package>, i: int)
    requires AdjacentSorted(s) && 0 <= i < |s|
    ensures NotBefore(s[|s| - 1], s[i])
    decreases |s| - i
  {
    if i == |s| - 1 {
      KernelVersion.LessIsStrictOrder(s[i].Version(), s[i].Version(), s[i].Version());
    } else {
      AscendingToLast(s, i + 1);
      KernelVersion.NotLessTransitive(s[|s| - 1].Version(), s[i + 1].Version(), s[i].Version());
    }
  }

  /** Places `p` into a sorted sequence in front of the first package it is
      not after. */
  function Insert(p: Package, s: seq<Package>): (r: seq<Package>)
    requires Sorted(s)
    ensures Sorted(r)
    ensures multiset(r) == multiset(s) + multiset{p}
  {
    if |s| == 0 then [p]
    else if KernelVersion.Less(s[0].Version(), p.Version()) then
      var rest := Insert(p, s[1..]);
      assert s == [s[0]] + s[1..];
      KernelVersion.LessIsStrictOrder(s[0].Version(), p.Version(), p.Version());
      forall x | x in multiset(rest)
        ensures NotBefore(x, s[0])
      {
        assert x in multiset(s[1..]) || x == p;
      }
      [s[0]] + rest
    else
      forall k | 0 < k < |s|
        ensures NotBefore(s[k], p)
      {
        KernelVersion.NotLessTransitive(s[k].Version(), s[0].Version(), p.Version());
      }
      [p] + s
  }

  /** Insertion sort: one of the orders `sort.Sort` may produce. */
  function Sort(s: seq<Package>): (r: seq<Package>)
    ensures Sorted(r)
    ensures multiset(r) == multiset(s)
  {
    if |s| == 0 then []
    else
      assert s == [s[0]] + s[1..];
      Insert(s[0], Sort(s[1..]))
  }

  /** In a sorted sequence, everything up to a package that ties with the
      first one ties with the first one too. */
  lemma TiedPrefix(b: seq<Package>, i: int, k: int)
    requires Sorted(b) && 0 <= k <= i < |b|
    requires b[i].Version().ints == b[0].Version().ints
    ensures b[k].Version().ints == b[0].Version().ints
  {
    if k > 0 {
      assert NotBefore(b[k], b[0]) && NotBefore(b[i], b[k]);
      KernelVersion.IncomparableIffSameInts(b[0].Version(), b[k].Version());
    }
  }

  /** Removing one position keeps a sequence sorted. */
  lemma SortedRemove(b: seq<Package>, i: int)
    requires Sorted(b) && 0 <= i < |b|
    ensures Sorted(b[..i] + b[i + 1..])
  {
    var c := b[..i] + b[i + 1..];
    forall p, q | 0 <= p < q < |c|
      ensures NotBefore(c[q], c[p])
    {
      var p0 := if p < i then p else p + 1;
      var q0 := if q < i then q else q + 1;
      assert c[p] == b[p0] && c[q] == b[q0];
    }
  }

  /** The first packages of two sorted arrangements of the same packages
      tie. */
  lemma FirstTie(a: seq<Package>, b: seq<Package>) returns (i: int)
    requires Sorted(a) && Sorted(b) && multiset(a) == multiset(b) && |a| > 0
    ensures 0 <= i < |b| && b[i] == a[0]
    ensures a[0].Version().ints == b[0].Version().ints
  {
    var x, y := a[0], b[0];
    assert x in multiset(b) && y in multiset(a);
    i :| 0 <= i < |b| && b[i] == x;
    var j :| 0 <= j < |a| && a[j] == y;
    assert j == 0 || NotBefore(a[j], a[0]);
    assert i == 0 || NotBefore(b[i], b[0]);
    KernelVersion.LessIsStrictOrder(x.Version(), y.Version(), y.Version());
    KernelVersion.IncomparableIffSameInts(x.Version(), y.Version());
  }

  /** Positions after the first of `a` line up with `b` once the copy of
      `a[0]` at position `i` is taken out of `b`. */
  lemma TiesAfterRemoval(a: seq<Package>, b: seq<Package>, i: int)
    requires Sorted(b) && |a| == |b| && 0 <= i < |b|
    requires b[i] == a[0] && a[0].Version().ints == b[0].Version().ints
    requires forall k :: 0 <= k < |a| - 1 ==>
               a[1..][k].Version().ints == (b[..i] + b[i + 1..])[k].Version().ints
    ensures forall k :: 0 <= k < |a| ==> a[k].Version().ints == b[k].Version().ints
  {
    var b' := b[..i] + b[i + 1..];
    forall k | 0 < k < |a|
      ensures a[k].Version().ints == b[k].Version().ints
    {
      assert a[k] == a[1..][k - 1];
      if k - 1 < i {
        assert b'[k - 1] == b[k - 1];
        TiedPrefix(b, i, k - 1);
        TiedPrefix(b, i, k);
      } else {
        assert b'[k - 1] == b[k];
      }
    }
  }

  /** Two sorted arrangements of the same packages list the same version
      integers at every position: although `sort.Sort` is not stable, the
      versions it lists are determined; only packages whose versions the order
      cannot tell apart may change places. */
  lemma {:induction false} SortedUniqueUpToTies(a: seq<Package>, b: seq<Package>)
    requires Sorted(a) && Sorted(b) && multiset(a) == multiset(b)
    ensures |a| == |b|
    ensures forall k :: 0 <= k < |a| ==> a[k].Version().ints == b[k].Version().ints
  {
    assert |a| == |multiset(a)| == |b|;
    if |a| > 0 {
      var i := FirstTie(a, b);
      var b' := b[..i] + b[i + 1..];
      assert b == b[..i] + [b[i]] + b[i + 1..];
      assert a == [a[0]] + a[1..];
      assert multiset(b) == multiset(b[..i]) + multiset{b[i]} + multiset(b[i + 1..]);
      assert multiset(a) == multiset{a[0]} + multiset(a[1..]);
      assert multiset(b') == multiset(b[..i]) + multiset(b[i + 1..]);
      assert multiset(b') == multiset(b) - multiset{b[i]};
      assert multiset(a[1..]) == multiset(a) - multiset{a[0]};
      SortedRemove(b, i);
      SortedUniqueUpToTies(a[1..], b');
      TiesAfterRemoval(a, b, i);
    }
  }
}
