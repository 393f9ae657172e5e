/** The older Ubuntu repository of the top-level package (ubuntu.go): only the
    ddebs archive is read, and for each kernel version of the release and
    each kernel type a version pattern ending in "-dbgsym" picks packages,
    which are appended to the group named by the captured flavour. */
module UbuntuLegacy {
  import opened Wrappers
  import opened Packages
  import opened KernelTypes
  import opened Collections
  import FlavorGroups
  import VersionSort

  /** The flavours of this copy of the patterns (no "gkeop"). */
  const Flavors: seq<string> := ["generic", "azure", "gke", "gcp", "aws"]

  /** The kernel versions searched for in each release; other releases have
      none. */
  function KernelVersions(release: string): seq<string> {
    if release == "xenial" then ["4.4.0", "4.15.0"]
    else if release == "bionic" then ["4.15.0", "4.18.0", "5.4.0"]
    else if release == "focal" then ["5.4.0", "5.8.0", "5.11.0"]
    else []
  }

  /** "linux-image-<uv>-.*-(flavours)-dbgsym" and its "unsigned" twin; the
      dots of the version match any character. */
  function SignedPattern(uv: string): Pattern {
    Pattern(VersionHead("linux-image-", uv), Flavors, BeforeDbgsym)
  }

  function UnsignedPattern(uv: string): Pattern {
    Pattern(VersionHead("linux-image-unsigned-", uv), Flavors, BeforeDbgsym)
  }

  /** The patterns in loop order: for each version, "signed" then "unsigned". */
  function Patterns(versions: seq<string>): (r: seq<Pattern>)
    ensures |r| == 2 * |versions|
    ensures forall pat :: pat in r <==>
              exists uv :: uv in versions && (pat == SignedPattern(uv) || pat == UnsignedPattern(uv))
  {
    if |versions| == 0 then []
    else
      var init := versions[..|versions| - 1];
      var uv := versions[|versions| - 1];
      assert versions == init + [uv];
      Patterns(init) + [SignedPattern(uv), UnsignedPattern(uv)]
  }

  /** What one pattern makes of a package: the package labelled with the
      captured flavour, the key of its group. */
  function Pick(pat: Pattern, p: UbuntuPackage): Option<UbuntuPackage> {
    match Match(p.name, pat)
    case Some(f) => Some(p.(flavor := f))
    case None => None
  }

  /** The packages appended to groups, in the order of the nested loops:
      versions, then kernel types, then packages. Nothing is de-duplicated: a
      package matched by two patterns is appended twice. */
  function Collect(pats: seq<Pattern>, pkgs: seq<UbuntuPackage>): (r: seq<UbuntuPackage>)
    ensures forall q :: q in r <==> exists pat, p :: pat in pats && p in pkgs && Pick(pat, p) == Some(q)
  {
    if |pats| == 0 then []
    else
      var init := pats[..|pats| - 1];
      var pat := pats[|pats| - 1];
      assert pats == init + [pat];
      Collect(init, pkgs) + FilterMap(p => Pick(pat, p), pkgs)
  }

  /** The collected records as the packages the processing loop takes. */
  function AsPackages(s: seq<UbuntuPackage>): (r: seq<Package>)
    ensures |r| == |s| && forall i :: 0 <= i < |s| ==> r[i] == Ubuntu(s[i])
    ensures forall x :: x in r <==> x.Ubuntu? && x.ubuntu in s
  {
    if |s| == 0 then [] else [Ubuntu(s[0])] + AsPackages(s[1..])
  }

  /** The groups of `GetKernelPackages`, each sorted ascending by version. */
  function Groups(release: string, pkgs: seq<UbuntuPackage>): FlavorGroups.Groups {
    FlavorGroups.SortGroups(FlavorGroups.GroupByFlavor(AsPackages(Collect(Patterns(KernelVersions(release)), pkgs))))
  }

  /** Some version of the release and some kernel type match `p` with
      flavour `f` (`Patterns` lists exactly those patterns). */
  ghost predicate MatchedWith(release: string, p: UbuntuPackage, f: string) {
    exists pat :: pat in Patterns(KernelVersions(release)) && Match(p.name, pat) == Some(f)
  }

  /** A package in a group was matched, by some version and kernel type of
      the release, with the group's flavour; every group is sorted. */
  lemma GroupMemberMatched(release: string, pkgs: seq<UbuntuPackage>, f: string, x: Package)
    requires f in Groups(release, pkgs) && x in Groups(release, pkgs)[f]
    ensures VersionSort.Sorted(Groups(release, pkgs)[f])
    ensures exists p :: p in pkgs && MatchedWith(release, p, f) && x == Ubuntu(p.(flavor := f))
  {
    var pats := Patterns(KernelVersions(release));
    var c := Collect(pats, pkgs);
    var s := AsPackages(c);
    FlavorGroups.GroupedMember(s, f, x);
    assert x.ubuntu in c && x.ubuntu.flavor == f;
    var pat, p :| pat in pats && p in pkgs && Pick(pat, p) == Some(x.ubuntu);
    PickLabels(pat, p, x.ubuntu);
  }

  /** A picked package is the package labelled with the flavour its name
      matched. */
  lemma PickLabels(pat: Pattern, p: UbuntuPackage, q: UbuntuPackage)
    requires Pick(pat, p) == Some(q)
    ensures Match(p.name, pat) == Some(q.flavor) && q == p.(flavor := q.flavor)
  {
  }

  /** Every package that some version and kernel type of the release match
      is in the group of the captured flavour. */
  lemma MatchedInGroup(release: string, pkgs: seq<UbuntuPackage>, p: UbuntuPackage, f: string)
    requires p in pkgs && MatchedWith(release, p, f)
    ensures f in Groups(release, pkgs) && Ubuntu(p.(flavor := f)) in Groups(release, pkgs)[f]
  {
    var pats := Patterns(KernelVersions(release));
    var c := Collect(pats, pkgs);
    var s := AsPackages(c);
    var g: FlavorGroups.Groups := Groups(release, pkgs);
    var x := Ubuntu(p.(flavor := f));
    var pat :| pat in pats && Match(p.name, pat) == Some(f);
    assert Pick(pat, p) == Some(p.(flavor := f));
    assert p.(flavor := f) in c;
    var i :| 0 <= i < |c| && c[i] == p.(flavor := f);
    assert s[i] == x;
    FlavorGroups.GroupByFlavorIsMembers(s);
    assert x.Flavor() == f;
    FlavorGroups.MembersMultiset(s, f);
    assert x in multiset(g[f]);
  }
}
