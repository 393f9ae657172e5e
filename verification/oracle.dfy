/** The Oracle Linux repository (pkg/repo/oracle.go): debug-info kernels are
    found among the links of a directory listing by a regular expression,
    kernels older than 3.10.0-957 are dropped, and the rest are processed in
    ascending version order. Fetching the listing is not modelled; its links
    are an input. */
module Oracle {
  import opened Wrappers
  import opened Text
  import KernelVersion
  import opened Packages
  import VersionSort
  import Collections

  /** The architecture name Oracle uses; an unknown one maps to "", the zero
      value a Go map lookup gives. */
  function AltArch(arch: string): (r: string)
    ensures r == "" <==> arch != "arm64" && arch != "x86_64"
  {
    if arch == "arm64" then "aarch64" else if arch == "x86_64" then "x86_64" else ""
  }

  /** The debug-info directory of a release; "" for an unknown one. */
  function RepoURL(release: string): (r: string)
    ensures r != "" <==> release == "7" || release == "8"
  {
    if release == "7" then "https://oss.oracle.com/ol7/debuginfo/"
    else if release == "8" then "https://oss.oracle.com/ol8/debuginfo/"
    else ""
  }

  /** The oldest kernel that is processed. */
  const MinVersion := KernelVersion.NewKernelVersion("3.10.0-957")

  /** The two spellings `kernel(?:-uek)?-debuginfo-` accepts. */
  const Plain := "kernel-debuginfo-"
  const Uek := "kernel-uek-debuginfo-"

  /** The text `\.<altArch>\.rpm` that ends a match. */
  function Tail(alt: string): string {
    "." + alt + ".rpm"
  }

  /** The pattern `kernel(?:-uek)?-debuginfo-([0-9].*\.<alt>)\.rpm` matches
      `l[i..k + |Tail(alt)|]`, its capture starting at `j` and the tail at
      `k`; `.` does not match a newline. */
  predicate MatchesAt(l: string, alt: string, i: nat, j: nat, k: nat) {
    && ((OccursAt(l, Plain, i) && j == i + |Plain|) || (OccursAt(l, Uek, i) && j == i + |Uek|))
    && j < k && OccursAt(l, Tail(alt), k)
    && IsDigit(l[j])
    && forall m :: j < m < k ==> l[m] != '\n'
  }

  /** Where the capture starts for a match beginning at `i`: the optional
      "-uek" is taken when it is there, and at most one spelling fits. */
  function CaptureStart(l: string, i: nat): (r: Option<nat>)
    ensures r.Some? <==> OccursAt(l, Plain, i) || OccursAt(l, Uek, i)
    ensures r.Some? ==> (OccursAt(l, Plain, i) && r.value == i + |Plain|) || (OccursAt(l, Uek, i) && r.value == i + |Uek|)
    ensures !(OccursAt(l, Plain, i) && OccursAt(l, Uek, i))
  {
    assert OccursAt(l, Plain, i) ==> l[i + 7] == l[i..i + |Plain|][7] == 'd';
    assert OccursAt(l, Uek, i) ==> l[i + 7] == l[i..i + |Uek|][7] == 'u';
    if OccursAt(l, Uek, i) then Some(i + |Uek|)
    else if OccursAt(l, Plain, i) then Some(i + |Plain|)
    else None
  }

  /** The last position in `lo..hi` where `t` occurs in `s`. */
  function LastOccurrence(s: string, t: string, lo: nat, hi: nat): (r: Option<nat>)
    ensures r.Some? ==> lo <= r.value <= hi && OccursAt(s, t, r.value)
    ensures r.Some? ==> forall k :: r.value < k <= hi ==> !OccursAt(s, t, k)
    ensures r.None? ==> forall k :: lo <= k <= hi ==> !OccursAt(s, t, k)
    decreases hi
  {
    if hi < lo then None
    else if OccursAt(s, t, hi) then Some(hi)
    else if hi == 0 then None
    else LastOccurrence(s, t, lo, hi - 1)
  }

  /** The position of the first newline at or after `from`, or the length. */
  function LineEnd(l: string, from: nat): (r: nat)
    requires from <= |l|
    ensures from <= r <= |l|
    ensures forall m :: from <= m < r ==> l[m] != '\n'
    ensures r < |l| ==> l[r] == '\n'
  {
    match IndexFrom(l, "\n", from)
    case Some(n) =>
      assert l[n] == l[n..n + 1][0];
      assert forall m :: from <= m < n ==> l[m] != '\n' by {
        forall m | from <= m < n ensures l[m] != '\n' {
          assert !OccursAt(l, "\n", m);
          assert l[m..m + 1] == [l[m]];
        }
      }
      n
    case None =>
      assert forall m :: from <= m < |l| ==> l[m] != '\n' by {
        forall m | from <= m < |l| ensures l[m] != '\n' {
          assert !OccursAt(l, "\n", m);
          assert l[m..m + 1] == [l[m]];
        }
      }
      |l|
  }

  /** The match beginning at `i`, if any: the capture start and, `.*` being
      greedy, the last tail before the end of the line. */
  function MatchAt(l: string, alt: string, i: nat): (r: Option<(nat, nat)>)
    ensures r.Some? ==> MatchesAt(l, alt, i, r.value.0, r.value.1)
    ensures r.Some? ==> forall j: nat, k: nat :: MatchesAt(l, alt, i, j, k) ==> j == r.value.0 && k <= r.value.1
    ensures r.None? ==> forall j: nat, k: nat :: !MatchesAt(l, alt, i, j, k)
  {
    match CaptureStart(l, i)
    case None => None
    case Some(j) =>
      if j >= |l| || !IsDigit(l[j]) then None
      else
        var end := LineEnd(l, j + 1);
        match LastOccurrence(l, Tail(alt), j + 1, end)
        case None =>
          assert forall k: nat :: MatchesAt(l, alt, i, j, k) ==> k <= end;
          None
        case Some(k) =>
          assert forall k': nat :: MatchesAt(l, alt, i, j, k') ==> k' <= end;
          Some((j, k))
  }

  /** `FindStringSubmatch`: the leftmost match at or after `from`, as its
      start, capture start and tail position. */
  function FindFrom(l: string, alt: string, from: nat): (r: Option<(nat, nat, nat)>)
    ensures r.Some? ==> from <= r.value.0 && MatchAt(l, alt, r.value.0) == Some((r.value.1, r.value.2))
    ensures r.Some? ==> forall i :: from <= i < r.value.0 ==> MatchAt(l, alt, i).None?
    ensures r.None? ==> forall i :: from <= i ==> MatchAt(l, alt, i).None?
    decreases |l| - from
  {
    if from >= |l| then
      NoMatchPastEnd(l, alt, from);
      None
    else match MatchAt(l, alt, from)
      case Some((j, k)) => Some((from, j, k))
      case None => FindFrom(l, alt, from + 1)
  }

  /** No match begins at or after the end of the line. */
  lemma NoMatchPastEnd(l: string, alt: string, from: nat)
    requires from >= |l|
    ensures forall i :: from <= i ==> MatchAt(l, alt, i).None?
  {
    forall i | from <= i ensures MatchAt(l, alt, i).None? {
      assert !OccursAt(l, Plain, i) && !OccursAt(l, Uek, i);
    }
  }

  function Find(l: string, alt: string): Option<(nat, nat, nat)> {
    FindFrom(l, alt, 0)
  }

  /** The matched text without ".rpm" is the capture behind its spelling
      of the prefix, and the capture ends in "." and the architecture. */
  lemma MatchParts(l: string, alt: string, i: nat, j: nat, k: nat)
    requires MatchesAt(l, alt, i, j, k)
    ensures TrimSuffix(l[i..k + |Tail(alt)|], ".rpm") == l[i..j] + l[j..k + 1 + |alt|]
    ensures l[i..j] == Plain || l[i..j] == Uek
    ensures HasSuffix(l[j..k + 1 + |alt|], "." + alt)
  {
    var t := Tail(alt);
    TailSlices(l, alt, k);
    var whole := l[i..k + |t|];
    var capture := l[j..k + 1 + |alt|];
    var rest := l[j..k + |t|];
    assert whole == l[i..j] + rest;
    assert rest == capture + ".rpm";
    assert whole[..|whole| - 4] == l[i..j] + capture;
    assert capture == l[j..k] + ("." + alt);
  }

  /** The tail found at `k` splits into "." and the architecture, then ".rpm". */
  lemma TailSlices(l: string, alt: string, k: nat)
    requires OccursAt(l, Tail(alt), k)
    ensures k + |Tail(alt)| <= |l|
    ensures l[k..k + 1 + |alt|] == "." + alt
    ensures l[k + 1 + |alt|..k + |Tail(alt)|] == ".rpm"
  {
    var t := Tail(alt);
    assert l[k..k + |t|] == t == ("." + alt) + ".rpm";
    assert l[k..k + 1 + |alt|] == t[..1 + |alt|] == "." + alt;
    assert l[k + 1 + |alt|..k + |t|] == t[1 + |alt|..] == ".rpm";
  }

  /** The package of a match: the matched text without ".rpm" as the name,
      the capture as the file name and version, the link as the URL. */
  function MatchPackage(l: string, alt: string, i: nat, j: nat, k: nat): (p: CentOSPackage)
    requires MatchesAt(l, alt, i, j, k)
    ensures p.url == l && p.architecture == alt
    ensures p.nameOfFile == l[j..k + 1 + |alt|]
    ensures p.kernelVersion == KernelVersion.NewKernelVersion(p.nameOfFile)
    ensures p.name == Plain + p.nameOfFile || p.name == Uek + p.nameOfFile
    ensures HasSuffix(p.nameOfFile, "." + alt) && |p.nameOfFile| > 0 && IsDigit(p.nameOfFile[0])
  {
    MatchParts(l, alt, i, j, k);
    var capture := l[j..k + 1 + |alt|];
    assert capture[0] == l[j];
    CentOSPackage(TrimSuffix(l[i..k + |Tail(alt)|], ".rpm"), alt, KernelVersion.NewKernelVersion(capture), capture, l)
  }

  /** The package a link names, before the version filter. */
  function LinkPackage(l: string, alt: string): (r: Option<CentOSPackage>)
    ensures r.Some? ==> r.value.url == l && r.value.architecture == alt
    ensures r.Some? ==> r.value.kernelVersion == KernelVersion.NewKernelVersion(r.value.nameOfFile)
    ensures r.Some? ==> r.value.name == Plain + r.value.nameOfFile || r.value.name == Uek + r.value.nameOfFile
    ensures r.Some? ==> HasSuffix(r.value.nameOfFile, "." + alt) && |r.value.nameOfFile| > 0 && IsDigit(r.value.nameOfFile[0])
    ensures r.None? <==> Find(l, alt).None?
  {
    match Find(l, alt)
    case None => None
    case Some((i, j, k)) => Some(MatchPackage(l, alt, i, j, k))
  }

  /** One link of the listing: its package, unless the kernel is older
      than the minimum version. */
  function Pick(arch: string, l: string): (r: Option<CentOSPackage>)
    ensures r.Some? <==> LinkPackage(l, AltArch(arch)).Some? && !KernelVersion.Less(LinkPackage(l, AltArch(arch)).value.kernelVersion, MinVersion)
    ensures r.Some? ==> r == LinkPackage(l, AltArch(arch))
  {
    match LinkPackage(l, AltArch(arch))
    case None => None
    case Some(p) => if KernelVersion.Less(p.kernelVersion, MinVersion) then None else Some(p)
  }

  /** The packages the links name, in link order. */
  function Found(links: seq<string>, arch: string): (r: seq<CentOSPackage>)
    ensures forall p :: p in r <==> exists l :: l in links && Pick(arch, l) == Some(p)
  {
    Collections.FilterMap(l => Pick(arch, l), links)
  }

  /** Each record as a `Package`. */
  function AsPackages(s: seq<CentOSPackage>): (r: seq<Package>)
    ensures |r| == |s|
    ensures forall p :: p in r <==> p.CentOS? && p.centos in s
  {
    if |s| == 0 then [] else [CentOS(s[0])] + AsPackages(s[1..])
  }

  /** The packages of a listing in ascending version order, as they are
      handed to the processing loop. */
  function Listing(links: seq<string>, arch: string): (r: seq<Package>)
    ensures VersionSort.Sorted(r)
    ensures multiset(r) == multiset(AsPackages(Found(links, arch)))
  {
    VersionSort.Sort(AsPackages(Found(links, arch)))
  }

  /** A package is listed exactly when some link names it and it is not
      older than the minimum. */
  lemma ListingMembers(links: seq<string>, arch: string, p: Package)
    ensures p in Listing(links, arch) <==> p.CentOS? && exists l :: l in links && Pick(arch, l) == Some(p.centos)
  {
    assert p in Listing(links, arch) <==> p in multiset(Listing(links, arch));
  }

  /** A link that is exactly a debug-info package file is recognised, with
      the version and architecture as its file name. */
  lemma LinkRoundTrip(prefix: string, v: string, alt: string)
    requires prefix == Plain || prefix == Uek
    requires |v| > 0 && IsDigit(v[0]) && '\n' !in v
    ensures var l := prefix + v + Tail(alt);
            && LinkPackage(l, alt).Some?
            && LinkPackage(l, alt).value.nameOfFile == v + "." + alt
            && LinkPackage(l, alt).value.name == prefix + v + "." + alt
  {
    var l := prefix + v + Tail(alt);
    var j := |prefix|;
    var k := |prefix| + |v|;
    LinkFound(prefix, v, alt);
    FoundPackage(l, alt, 0, j, k);
    LinkSlices(prefix, v, alt);
  }

  /** The pieces of such a link. */
  lemma LinkSlices(prefix: string, v: string, alt: string)
    ensures var l := prefix + v + Tail(alt);
            && l[0..|prefix|] == prefix
            && l[|prefix|..|prefix| + |v| + 1 + |alt|] == v + "." + alt
            && prefix + (v + "." + alt) == prefix + v + "." + alt
  {
    var l := prefix + v + Tail(alt);
    assert l == prefix + (v + "." + alt) + ".rpm";
  }

  /** The package `LinkPackage` gives for a found match, with its name as
      the prefix spelling followed by the capture. */
  lemma FoundPackage(l: string, alt: string, i: nat, j: nat, k: nat)
    requires Find(l, alt) == Some((i, j, k))
    ensures MatchesAt(l, alt, i, j, k)
    ensures LinkPackage(l, alt) == Some(MatchPackage(l, alt, i, j, k))
    ensures MatchPackage(l, alt, i, j, k).name == l[i..j] + l[j..k + 1 + |alt|]
    ensures MatchPackage(l, alt, i, j, k).nameOfFile == l[j..k + 1 + |alt|]
  {
    FoundMatches(l, alt, i, j, k);
    MatchParts(l, alt, i, j, k);
  }

  /** Such a link is matched from its start, the greedy `.*` reaching the
      tail at its end. */
  lemma LinkFound(prefix: string, v: string, alt: string)
    requires prefix == Plain || prefix == Uek
    requires |v| > 0 && IsDigit(v[0]) && '\n' !in v
    ensures MatchesAt(prefix + v + Tail(alt), alt, 0, |prefix|, |prefix| + |v|)
    ensures Find(prefix + v + Tail(alt), alt) == Some((0, |prefix|, |prefix| + |v|))
  {
    LinkMatchAt(prefix, v, alt);
  }

  /** The match from the start of such a link ends at the tail at its end. */
  lemma LinkMatchAt(prefix: string, v: string, alt: string)
    requires prefix == Plain || prefix == Uek
    requires |v| > 0 && IsDigit(v[0]) && '\n' !in v
    ensures MatchAt(prefix + v + Tail(alt), alt, 0) == Some((|prefix|, |prefix| + |v|))
  {
    var l := prefix + v + Tail(alt);
    var j := |prefix|;
    var k := |prefix| + |v|;
    LinkMatches(prefix, v, alt);
    var m := MatchAt(l, alt, 0);
    assert m.Some?;
    assert j == m.value.0 && k <= m.value.1;
    assert m.value.1 + |Tail(alt)| <= |l|;
  }

  /** What `Find` reports is a match. */
  lemma FoundMatches(l: string, alt: string, i: nat, j: nat, k: nat)
    requires Find(l, alt) == Some((i, j, k))
    ensures MatchesAt(l, alt, i, j, k)
    ensures k + |Tail(alt)| <= |l| && i <= j <= k
  {
    assert MatchAt(l, alt, i) == Some((j, k));
  }

  /** Such a link matches from its start, up to the tail at the end. */
  lemma LinkMatches(prefix: string, v: string, alt: string)
    requires prefix == Plain || prefix == Uek
    requires |v| > 0 && IsDigit(v[0]) && '\n' !in v
    ensures MatchesAt(prefix + v + Tail(alt), alt, 0, |prefix|, |prefix| + |v|)
  {
    var l := prefix + v + Tail(alt);
    var j := |prefix|;
    var k := |prefix| + |v|;
    assert l[..j] == prefix;
    assert l[k..] == Tail(alt);
    assert l[j] == v[0];
    forall m | j < m < k
      ensures l[m] != '\n'
    {
      assert l[m] == v[m - j];
    }
  }

  /** Only kernels from 3.10.0-957 on reach the processing loop. */
  lemma PackagesNotOlder(links: seq<string>, arch: string, p: Package)
    requires p in Listing(links, arch)
    ensures !KernelVersion.Less(p.Version(), MinVersion)
    ensures p.CentOS? && p.centos.architecture == AltArch(arch)
  {
    ListingMembers(links, arch, p);
  }
}
