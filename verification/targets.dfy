/** Command-line target selection (cmd/btfhub/main.go): the distribution
    and release given on the command line are checked against the release
    table, then one producer runs per (distribution, release, architecture),
    each in its own work directory under the archive. Worker start-up, the
    producers themselves and directory creation are not modelled. */
module Targets {
  import opened Wrappers
  import Collections

  /** The releases of each distribution the command knows. */
  const DistroReleases: map<string, seq<string>> := map[
    "ubuntu" := ["xenial", "bionic", "focal"],
    "debian" := ["stretch", "buster"],
    "fedora" := ["24", "25", "26", "27", "28", "29", "30", "31"],
    "centos" := ["7", "8"],
    "ol" := ["7", "8"],
    "rhel" := ["7", "8"],
    "amzn" := ["1", "2"]]

  /** The distributions updated when none is given: those whose repositories
      are reachable from outside, so neither RHEL nor Amazon Linux. */
  const DefaultDistros: seq<string> := ["ubuntu", "debian", "fedora", "centos", "ol"]

  const DefaultArchs: seq<string> := ["x86_64", "arm64"]

  /** One producer: what it updates and the directory it works in. */
  datatype Target = Target(distro: string, release: string, arch: string, workDir: string)

  /** The loop over a distribution's releases: `found` is overwritten by
      each comparison, and the loop stops once it is true. */
  method ReleaseListed(releases: seq<string>, release: string) returns (found: bool)
    ensures found <==> release in releases
  {
    found := false;
    var i := 0;
    while i < |releases|
      invariant 0 <= i <= |releases|
      invariant !found
      invariant release !in releases[..i]
    {
      found := releases[i] == release;
      if found {
        return;
      }
      i := i + 1;
    }
    assert releases[..i] == releases;
  }

  /** The checks before any work starts: an unknown distribution, or a
      release the distribution does not list, is an error. */
  function Validate(distro: string, release: string): (r: Result<string, string>)
    ensures r.Ok? ==> (distro == "" ==> r.value == "") && (distro != "" ==> r.value == release)
  {
    if distro == "" then Ok("")
    else if distro !in DistroReleases then Err("invalid distribution " + distro)
    else if release != "" && release !in DistroReleases[distro] then
      Err("invalid distribution release " + release + " for " + distro)
    else Ok(release)
  }

  /** `filepath.Join(archiveDir, d, r, a)` for non-empty, clean components. */
  function WorkDir(archiveDir: string, d: string, r: string, a: string): string {
    archiveDir + "/" + d + "/" + r + "/" + a
  }

  /** The releases a distribution is updated for: the one given, or all it
      lists (none for a distribution outside the table). */
  function ReleasesOf(d: string, release: string): seq<string> {
    if release != "" then [release] else if d in DistroReleases then DistroReleases[d] else []
  }

  /** One target per architecture. */
  function ForArchs(dir: string, d: string, r: string, archs: seq<string>): (ts: seq<Target>)
    ensures |ts| == |archs|
    ensures forall t :: t in ts <==> t.distro == d && t.release == r && t.arch in archs && t.workDir == WorkDir(dir, d, r, t.arch)
  {
    if |archs| == 0 then []
    else [Target(d, r, archs[0], WorkDir(dir, d, r, archs[0]))] + ForArchs(dir, d, r, archs[1..])
  }

  /** One target per release and architecture, releases outermost. */
  function ForReleases(dir: string, d: string, rs: seq<string>, archs: seq<string>): (ts: seq<Target>)
    ensures |ts| == |rs| * |archs|
    ensures forall t :: t in ts <==> t.distro == d && t.release in rs && t.arch in archs && t.workDir == WorkDir(dir, d, t.release, t.arch)
  {
    if |rs| == 0 then []
    else
      assert |rs| * |archs| == |archs| + (|rs| - 1) * |archs|;
      assert forall r :: r in rs <==> r == rs[0] || r in rs[1..];
      ForArchs(dir, d, rs[0], archs) + ForReleases(dir, d, rs[1..], archs)
  }

  /** The producer loop over distributions, releases and architectures. */
  function ForDistros(dir: string, ds: seq<string>, release: string, archs: seq<string>): (ts: seq<Target>)
    ensures forall t :: t in ts <==>
              t.distro in ds && t.release in ReleasesOf(t.distro, release) && t.arch in archs
              && t.workDir == WorkDir(dir, t.distro, t.release, t.arch)
  {
    if |ds| == 0 then []
    else ForReleases(dir, ds[0], ReleasesOf(ds[0], release), archs) + ForDistros(dir, ds[1..], release, archs)
  }

  /** `run` up to starting the producers: the targets, or the validation
      error. `baseDir` is the working directory the archive lives in. */
  function Run(baseDir: string, distro: string, release: string, arch: string): Result<seq<Target>, string> {
    match Validate(distro, release)
    case Err(e) => Err(e)
    case Ok(rel) =>
      var ds := if distro != "" then [distro] else DefaultDistros;
      var archs := if arch != "" then [arch] else DefaultArchs;
      Ok(ForDistros(baseDir + "/archive", ds, rel, archs))
  }

  /** The run fails exactly for an unknown distribution, or for a release
      its distribution does not list; without a distribution any release
      is accepted. */
  lemma RunFails(baseDir: string, distro: string, release: string, arch: string)
    ensures Run(baseDir, distro, release, arch).Err? <==>
            distro != "" && (distro !in DistroReleases || (release != "" && release !in DistroReleases[distro]))
    ensures distro != "" && distro !in DistroReleases ==>
            Run(baseDir, distro, release, arch) == Err("invalid distribution " + distro)
  {
  }

  /** Without a distribution the release is ignored. */
  lemma ReleaseClearedWithoutDistro(baseDir: string, release: string, arch: string)
    ensures Run(baseDir, "", release, arch) == Run(baseDir, "", "", arch)
  {
  }

  /** The targets of a successful run: the given distribution or the
      defaults, the given release or all of the distribution's, the given
      architecture or both defaults, each under archive/<d>/<r>/<a>. */
  lemma RunTargets(baseDir: string, distro: string, release: string, arch: string, t: Target)
    requires Run(baseDir, distro, release, arch).Ok?
    ensures t in Run(baseDir, distro, release, arch).value <==>
            && (if distro != "" then t.distro == distro else t.distro in DefaultDistros)
            && (if distro != "" && release != "" then t.release == release else t.distro in DistroReleases && t.release in DistroReleases[t.distro])
            && (if arch != "" then t.arch == arch else t.arch in DefaultArchs)
            && t.workDir == WorkDir(baseDir + "/archive", t.distro, t.release, t.arch)
  {
  }

  /** No release list of the table repeats a release. */
  lemma TableDistinct(d: string)
    requires d in DistroReleases
    ensures Collections.Distinct(DistroReleases[d])
  {
  }

  /** Targets for distinct architectures are distinct. */
  lemma {:induction false} ForArchsDistinct(dir: string, d: string, r: string, archs: seq<string>)
    requires Collections.Distinct(archs)
    ensures Collections.Distinct(ForArchs(dir, d, r, archs))
  {
    if |archs| > 0 {
      ForArchsDistinct(dir, d, r, archs[1..]);
      var rest := ForArchs(dir, d, r, archs[1..]);
      assert archs[0] !in archs[1..];
      Collections.DistinctConcat([Target(d, r, archs[0], WorkDir(dir, d, r, archs[0]))], rest);
    }
  }

  /** Targets for distinct releases and architectures are distinct. */
  lemma {:induction false} ForReleasesDistinct(dir: string, d: string, rs: seq<string>, archs: seq<string>)
    requires Collections.Distinct(rs) && Collections.Distinct(archs)
    ensures Collections.Distinct(ForReleases(dir, d, rs, archs))
  {
    if |rs| > 0 {
      ForReleasesDistinct(dir, d, rs[1..], archs);
      ForArchsDistinct(dir, d, rs[0], archs);
      assert rs[0] !in rs[1..];
      Collections.DistinctConcat(ForArchs(dir, d, rs[0], archs), ForReleases(dir, d, rs[1..], archs));
    }
  }

  /** Targets for distinct distributions are distinct, when each
      distribution's releases are. */
  lemma {:induction false} ForDistrosDistinct(dir: string, ds: seq<string>, release: string, archs: seq<string>)
    requires Collections.Distinct(ds) && Collections.Distinct(archs)
    requires forall d :: d in ds ==> Collections.Distinct(ReleasesOf(d, release))
    ensures Collections.Distinct(ForDistros(dir, ds, release, archs))
  {
    if |ds| > 0 {
      ForDistrosDistinct(dir, ds[1..], release, archs);
      ForReleasesDistinct(dir, ds[0], ReleasesOf(ds[0], release), archs);
      assert ds[0] !in ds[1..];
      Collections.DistinctConcat(ForReleases(dir, ds[0], ReleasesOf(ds[0], release), archs), ForDistros(dir, ds[1..], release, archs));
    }
  }

  /** Exactly one producer is started per (distribution, release,
      architecture): no target repeats. */
  lemma RunDistinct(baseDir: string, distro: string, release: string, arch: string)
    requires Run(baseDir, distro, release, arch).Ok?
    ensures Collections.Distinct(Run(baseDir, distro, release, arch).value)
  {
    var rel := Validate(distro, release).value;
    var ds := if distro != "" then [distro] else DefaultDistros;
    var archs := if arch != "" then [arch] else DefaultArchs;
    forall d | d in ds
      ensures Collections.Distinct(ReleasesOf(d, rel))
    {
      if rel == "" {
        TableDistinct(d);
      }
    }
    ForDistrosDistinct(baseDir + "/archive", ds, rel, archs);
  }
}
