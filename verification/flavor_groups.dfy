/** Grouping packages by flavour and sorting each group, as the Ubuntu and
    SUSE repositories do before processing: a loop appends each package to
    the slice stored under its flavour, then every slice is sorted by version. */
module FlavorGroups {
  import opened Packages
  import VersionSort

  type Groups = map<string, seq<Package>>

  /** The packages of `s` with flavour `k`, in the order of `s`. */
  function Members(s: seq<Package>, k: string): (r: seq<Package>)
    ensures forall p :: p in r <==> p in s && p.Flavor() == k
    ensures (forall p :: p in s ==> p.Flavor() != k) ==> r == []
    ensures |r| <= |s|
  {
    if |s| == 0 then []
    else
      var init := Members(s[..|s| - 1], k);
      assert s == s[..|s| - 1] + [s[|s| - 1]];
      if s[|s| - 1].Flavor() == k then init + [s[|s| - 1]] else init
  }

  /** Appends `p` to the group of its flavour, creating the group if needed. */
  function AddToGroup(g: Groups, p: Package): Groups {
    var k := p.Flavor();
    g[k := (if k in g then g[k] else []) + [p]]
  }

  /** The grouping loop, folded over `s` from the front. */
  function GroupByFlavor(s: seq<Package>): Groups {
    if |s| == 0 then map[]
    else AddToGroup(GroupByFlavor(s[..|s| - 1]), s[|s| - 1])
  }

  /** A group exists exactly for each flavour that occurs, and holds exactly
      the packages of that flavour in input order: every package lands in the
      one group named by its flavour. */
  lemma {:induction false} GroupByFlavorIsMembers(s: seq<Package>)
    ensures forall k :: k in GroupByFlavor(s) <==> exists p :: p in s && p.Flavor() == k
    ensures forall k :: k in GroupByFlavor(s) ==> GroupByFlavor(s)[k] == Members(s, k)
  {
    if |s| > 0 {
      var init := s[..|s| - 1];
      var last := s[|s| - 1];
      GroupByFlavorIsMembers(init);
      assert s == init + [last];
      forall k
        ensures k in GroupByFlavor(s) <==> exists p :: p in s && p.Flavor() == k
      {
        if k == last.Flavor() {
          assert last in s;
        } else {
          if exists p :: p in s && p.Flavor() == k {
            var p :| p in s && p.Flavor() == k;
            assert p in init;
          }
        }
      }
    }
  }

  /** Which packages a group holds does not depend on the order the packages
      are visited in (the Go code visits a map, in no fixed order). */
  lemma {:induction false} MembersPermutation(s: seq<Package>, t: seq<Package>, k: string)
    requires multiset(s) == multiset(t)
    ensures multiset(Members(s, k)) == multiset(Members(t, k))
  {
    MembersMultiset(s, k);
    MembersMultiset(t, k);
  }

  /** The members of flavour `k` are the packages of `s` of that flavour,
      counted with multiplicity. */
  lemma {:induction false} MembersMultiset(s: seq<Package>, k: string)
    ensures forall p :: multiset(Members(s, k))[p] == if p.Flavor() == k then multiset(s)[p] else 0
  {
    if |s| > 0 {
      MembersMultiset(s[..|s| - 1], k);
      assert s == s[..|s| - 1] + [s[|s| - 1]];
    }
  }

  /** Every group sorted by version (`sort.Sort(ByVersion(ks))` per flavour). */
  function SortGroups(g: Groups): (r: Groups)
    ensures r.Keys == g.Keys
    ensures forall k :: k in r ==> VersionSort.Sorted(r[k]) && multiset(r[k]) == multiset(g[k])
  {
    map k | k in g :: VersionSort.Sort(g[k])
  }

  /** Grouped and sorted: each flavour's group is sorted and holds exactly the
      packages of that flavour, whatever order they arrived in. */
  lemma GroupedAndSorted(s: seq<Package>, t: seq<Package>, k: string)
    requires multiset(s) == multiset(t)
    ensures k in SortGroups(GroupByFlavor(s)) <==> k in SortGroups(GroupByFlavor(t))
    ensures k in SortGroups(GroupByFlavor(s)) ==>
              multiset(SortGroups(GroupByFlavor(s))[k]) == multiset(SortGroups(GroupByFlavor(t))[k])
  {
    GroupByFlavorIsMembers(s);
    GroupByFlavorIsMembers(t);
    MembersPermutation(s, t, k);
    if exists p :: p in s && p.Flavor() == k {
      var p :| p in s && p.Flavor() == k;
      assert p in multiset(t);
    }
    if exists p :: p in t && p.Flavor() == k {
      var p :| p in t && p.Flavor() == k;
      assert p in multiset(s);
    }
  }

  /** A package in a sorted group came from the input and has the group's
      flavour. */
  lemma GroupedMember(s: seq<Package>, k: string, x: Package)
    requires k in SortGroups(GroupByFlavor(s)) && x in SortGroups(GroupByFlavor(s))[k]
    ensures x in s && x.Flavor() == k
  {
    GroupByFlavorIsMembers(s);
    assert x in multiset(SortGroups(GroupByFlavor(s))[k]);
    assert x in GroupByFlavor(s)[k];
  }

  /** Every group is the flavour of some package of the input. */
  lemma GroupKeyHasMember(s: seq<Package>, k: string)
    requires k in SortGroups(GroupByFlavor(s))
    ensures exists p :: p in s && p.Flavor() == k
  {
    GroupByFlavorIsMembers(s);
  }
}
