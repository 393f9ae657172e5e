/** The package records every repository produces, the names they are stored
    under, and the marker files kept next to the BTF archives (pkg/pkg). */
module Packages {
  import opened Text
  import KernelVersion

  /** A Go `uint64`. */
  type Uint64 = x: nat | x <= MaxUint64

  /** `UbuntuPackage` (pkg/pkg/ubuntu.go); the older copies have the same
      fields, without a release or flavour where they lack one. */
  datatype UbuntuPackage = UbuntuPackage(
    name: string, architecture: string, kernelVersion: KernelVersion.Version,
    nameOfFile: string, url: string, size: Uint64, release: string, flavor: string)

  /** `RHELPackage` (pkg/pkg/rhel.go): yum and repoquery listings. */
  datatype RhelPackage = RhelPackage(
    name: string, architecture: string, kernelVersion: KernelVersion.Version,
    nameOfFile: string)

  /** `CentOSPackage` (pkg/pkg/centos.go): packages found as links. */
  datatype CentOSPackage = CentOSPackage(
    name: string, architecture: string, kernelVersion: KernelVersion.Version,
    nameOfFile: string, url: string)

  /** `SUSEPackage` (pkg/pkg/suse.go). */
  datatype SusePackage = SusePackage(
    name: string, nameOfFile: string, nameOfBTFFile: string, architecture: string,
    kernelVersion: KernelVersion.Version, repo: string, flavor: string,
    downloadDir: string)

  /** The `Package` interface: one of the record types above. */
  datatype Package =
    | Ubuntu(ubuntu: UbuntuPackage)
    | Rhel(rhel: RhelPackage)
    | CentOS(centos: CentOSPackage)
    | Suse(suse: SusePackage)
  {
    function Filename(): string {
      match this
      case Ubuntu(p) => p.nameOfFile
      case Rhel(p) => p.nameOfFile
      case CentOS(p) => p.nameOfFile
      case Suse(p) => p.nameOfFile
    }

    /** The name the BTF archive and the markers are stored under: the file
        name, except for SUSE packages, which carry their own. */
    function BTFFilename(): string {
      if Suse? then suse.nameOfBTFFile else Filename()
    }

    function Version(): KernelVersion.Version {
      match this
      case Ubuntu(p) => p.kernelVersion
      case Rhel(p) => p.kernelVersion
      case CentOS(p) => p.kernelVersion
      case Suse(p) => p.kernelVersion
    }

    /** The flavour packages are grouped by; only Ubuntu and SUSE packages
        carry one. */
    function Flavor(): string {
      match this
      case Ubuntu(p) => p.flavor
      case Suse(p) => p.flavor
      case _ => ""
    }
  }

  /** `filepath.Join` of a directory and a plain file name. */
  function JoinPath(dir: string, file: string): string {
    if dir == "" then file else dir + "/" + file
  }

  /** The marker suffixes. */
  const ArchiveSuffix := ".btf.tar.xz"
  const FailedSuffix := ".failed"
  const HasBTFSuffix := ".hasbtf"

  function MarkerPath(p: Package, workDir: string, suffix: string): string {
    JoinPath(workDir, p.BTFFilename() + suffix)
  }

  /** The files that exist, as far as the marker checks can see. */
  type FileSet = set<string>

  predicate PackageBTFExists(p: Package, workDir: string, files: FileSet) {
    MarkerPath(p, workDir, ArchiveSuffix) in files
  }

  predicate PackageFailed(p: Package, workDir: string, files: FileSet) {
    MarkerPath(p, workDir, FailedSuffix) in files
  }

  predicate PackageHasBTF(p: Package, workDir: string, files: FileSet) {
    MarkerPath(p, workDir, HasBTFSuffix) in files
  }

  /** `MarkPackageHasBTF`: creates the ".hasbtf" marker and reports whether
      the marker was created; `created` stands for `os.Create` succeeding. */
  function MarkPackageHasBTF(p: Package, workDir: string, files: FileSet, created: bool)
    : (r: (FileSet, bool))
    ensures r.1 <==> created
    ensures created ==> PackageHasBTF(p, workDir, r.0)
    ensures r.0 == files + (if created then {MarkerPath(p, workDir, HasBTFSuffix)} else {})
    ensures forall f :: f in r.0 && f !in files ==> HasSuffix(f, HasBTFSuffix)
  {
    var path := MarkerPath(p, workDir, HasBTFSuffix);
    if created then
      assert HasSuffix(path, HasBTFSuffix) by {
        var q := p.BTFFilename() + HasBTFSuffix;
        assert path[|path| - |HasBTFSuffix|..] == q[|q| - |HasBTFSuffix|..];
      }
      (files + {path}, true)
    else (files, false)
  }

  /** A marker path ends in its suffix. */
  lemma MarkerPathSuffix(p: Package, workDir: string, suffix: string)
    ensures HasSuffix(MarkerPath(p, workDir, suffix), suffix)
  {
    var path := MarkerPath(p, workDir, suffix);
    var q := p.BTFFilename() + suffix;
    assert path[|path| - |suffix|..] == q[|q| - |suffix|..];
  }

  /** Marking a package as having BTF never makes any package, in any work
      directory, look built or failed. */
  lemma MarkingKeepsOtherMarkers(p: Package, workDir: string, files: FileSet, created: bool,
                                 q: Package, dir: string)
    ensures var after := MarkPackageHasBTF(p, workDir, files, created).0;
            && (PackageBTFExists(q, dir, after) <==> PackageBTFExists(q, dir, files))
            && (PackageFailed(q, dir, after) <==> PackageFailed(q, dir, files))
  {
    var h := MarkerPath(p, workDir, HasBTFSuffix);
    var a := MarkerPath(q, dir, ArchiveSuffix);
    var f := MarkerPath(q, dir, FailedSuffix);
    MarkerPathSuffix(p, workDir, HasBTFSuffix);
    MarkerPathSuffix(q, dir, ArchiveSuffix);
    MarkerPathSuffix(q, dir, FailedSuffix);
    assert h[|h| - 1] == HasBTFSuffix[6] == 'f';
    assert a[|a| - 1] == ArchiveSuffix[10] == 'z';
    assert f[|f| - 1] == FailedSuffix[6] == 'd';
    assert a != h && f != h;
  }

  /** Within one work directory, each marker path names exactly one BTF file
      name. */
  lemma MarkerPathInjective(p: Package, q: Package, workDir: string, suffix: string)
    requires MarkerPath(p, workDir, suffix) == MarkerPath(q, workDir, suffix)
    ensures p.BTFFilename() == q.BTFFilename()
  {
    var a, b := p.BTFFilename() + suffix, q.BTFFilename() + suffix;
    if workDir != "" {
      assert workDir + "/" + a == workDir + "/" + b;
      assert a == (workDir + "/" + a)[|workDir| + 1..];
      assert b == (workDir + "/" + b)[|workDir| + 1..];
    }
    assert p.BTFFilename() == a[..|a| - |suffix|];
    assert q.BTFFilename() == b[..|b| - |suffix|];
  }

  /** `ByVersion.Less`: the version order on the packages at two positions. */
  predicate LessAt(a: seq<Package>, i: int, j: int)
    requires 0 <= i < |a| && 0 <= j < |a|
  {
    KernelVersion.Less(a[i].Version(), a[j].Version())
  }

  /** `ByVersion.Swap`: exchanges two positions. */
  function Swap(a: seq<Package>, i: int, j: int): (r: seq<Package>)
    requires 0 <= i < |a| && 0 <= j < |a|
    ensures |r| == |a| && r[i] == a[j] && r[j] == a[i]
    ensures forall k :: 0 <= k < |a| && k != i && k != j ==> r[k] == a[k]
    ensures multiset(r) == multiset(a)
  {
    SwapMultiset(a, i, j);
    a[i := a[j]][j := a[i]]
  }

  lemma SwapMultiset(a: seq<Package>, i: int, j: int)
    requires 0 <= i < |a| && 0 <= j < |a|
    ensures multiset(a[i := a[j]][j := a[i]]) == multiset(a)
  {
    var b := a[i := a[j]];
    assert multiset(b) == multiset(a) - multiset{a[i]} + multiset{a[j]};
    assert b[j] == a[j];
    assert multiset(b[j := a[i]]) == multiset(b) - multiset{a[j]} + multiset{a[i]};
  }

  /** Swapping the same two positions twice restores the sequence. */
  lemma SwapInvolution(a: seq<Package>, i: int, j: int)
    requires 0 <= i < |a| && 0 <= j < |a|
    ensures Swap(Swap(a, i, j), i, j) == a
  {
  }
}
