/** The Ubuntu repository (pkg/repo/ubuntu.go; cmd/btfhub/ubuntu.go has the
    same logic): kernels of the main archive are matched against the
    debug-symbol packages of the ddebs archive, a pseudo package is added for
    every kernel without one, and the debug packages are grouped by flavour. */
module Ubuntu {
  import opened Wrappers
  import opened Text
  import opened Packages
  import opened KernelTypes
  import Apt
  import opened Collections
  import FlavorGroups
  import VersionSort

  /** The flavours the kernel-type patterns capture. */
  const Flavors: seq<string> := ["generic", "azure", "gke", "gkeop", "gcp", "aws"]

  /** The two kernel types, "signed" and "unsigned". The Go code keeps them in
      a map and so visits them in no fixed order; any order may be given. */
  const Signed := RunHead("linux-image-")
  const Unsigned := RunHead("linux-image-unsigned-")

  /** A kernel type's pattern for the main archive ("$" appended) and for the
      debug archive ("-dbgsym" appended). */
  function MainPattern(h: Head): Pattern {
    Pattern(h, Flavors, AtEnd)
  }

  function DebugPattern(h: Head): Pattern {
    Pattern(h, Flavors, BeforeDbgsym)
  }

  /** Debug packages smaller than this many bytes are skipped. */
  const DebugSizeFloor: nat := 10_000_000

  /** The URL and size that mark a pseudo package. */
  const PseudoURL := "pull-lp-ddebs"

  /** A package already has a BTF archive or a failure marker. */
  predicate Done(p: UbuntuPackage, dir: string, files: FileSet) {
    PackageBTFExists(Ubuntu(p), dir, files) || PackageFailed(Ubuntu(p), dir, files)
  }

  /** What one kernel type makes of a main-archive kernel: kept with the
      captured flavour, unless the pattern does not match or the kernel is
      done. */
  function SelectMain(h: Head, p: UbuntuPackage, dir: string, files: FileSet): (r: Option<UbuntuPackage>)
    ensures r.Some? ==> !Done(r.value, dir, files)
    ensures r.Some? ==> r.value == p.(flavor := r.value.flavor) && r.value.flavor in Flavors
  {
    match Match(p.name, MainPattern(h))
    case Some(f) => if Done(p, dir, files) then None else Some(p.(flavor := f))
    case None => None
  }

  /** What one kernel type makes of a debug package: as for main kernels, and
      packages smaller than 10,000,000 bytes are dropped. */
  function SelectDebug(h: Head, p: UbuntuPackage, dir: string, files: FileSet): (r: Option<UbuntuPackage>)
    ensures r.Some? ==> r.value.size >= DebugSizeFloor && !Done(r.value, dir, files)
    ensures r.Some? ==> r.value == p.(flavor := r.value.flavor) && r.value.flavor in Flavors
  {
    match Match(p.name, DebugPattern(h))
    case Some(f) => if p.size < DebugSizeFloor || Done(p, dir, files) then None else Some(p.(flavor := f))
    case None => None
  }

  function Select(h: Head, p: UbuntuPackage, dir: string, files: FileSet, debug: bool)
    : Option<UbuntuPackage>
  {
    if debug then SelectDebug(h, p, dir, files) else SelectMain(h, p, dir, files)
  }

  /** One kernel type's pass over a package list, in list order. */
  function FilterWith(h: Head, pkgs: seq<UbuntuPackage>, dir: string, files: FileSet, debug: bool)
    : (r: seq<UbuntuPackage>)
    ensures forall q :: q in r <==> exists p :: p in pkgs && Select(h, p, dir, files, debug) == Some(q)
  {
    FilterMap(p => Select(h, p, dir, files, debug), pkgs)
  }

  /** The passes of all kernel types, one after the other. */
  function Filter(heads: seq<Head>, pkgs: seq<UbuntuPackage>, dir: string, files: FileSet, debug: bool)
    : (r: seq<UbuntuPackage>)
    ensures forall q :: q in r <==>
              exists h, p :: h in heads && p in pkgs && Select(h, p, dir, files, debug) == Some(q)
  {
    if |heads| == 0 then []
    else
      var init := heads[..|heads| - 1];
      var h := heads[|heads| - 1];
      assert heads == init + [h];
      Filter(init, pkgs, dir, files, debug) + FilterWith(h, pkgs, dir, files, debug)
  }

  /** Packages keyed by file name. */
  type Index = map<string, UbuntuPackage>

  predicate KeyedByFilename(m: Index) {
    forall k :: k in m ==> m[k].nameOfFile == k
  }

  /** The key of the debug-package map. */
  function FileKey(p: UbuntuPackage): string {
    p.nameOfFile
  }

  /** The first position of a package with file name `k`. */
  function FirstIndex(c: seq<UbuntuPackage>, k: string): Option<nat> {
    FirstIndexBy(FileKey, c, k)
  }

  /** Inserting candidates in order, a file name already present is never
      replaced: each file name is held by its first candidate. */
  function FirstWins(c: seq<UbuntuPackage>): Index {
    FirstWinsBy(FileKey, c)
  }

  /** The pseudo package for a kernel without a debug package, as the Go
      code builds it: its debug package's name, to be fetched with
      pull-lp-ddebs, and no release, although pull-lp-ddebs is later given
      the package's release. */
  function Pseudo(p: UbuntuPackage): (r: UbuntuPackage)
    ensures r.nameOfFile == p.nameOfFile && r.architecture == p.architecture
    ensures r.kernelVersion == p.kernelVersion && r.flavor == p.flavor
    ensures r.url == PseudoURL && r.size == MaxUint64 && r.release == ""
  {
    UbuntuPackage(Apt.KernelPrefix + "unsigned-" + p.nameOfFile + "-dbgsym", p.architecture,
                  p.kernelVersion, p.nameOfFile, PseudoURL, MaxUint64, "", p.flavor)
  }

  /** The pseudo package of a kernel that carries a release loses it, so
      pull-lp-ddebs is asked for the package with an empty series. */
  lemma PseudoDropsRelease(p: UbuntuPackage)
    requires p.release != ""
    ensures Pseudo(p).release != p.release
  {
  }

  /** The pseudo package with the kernel's release, which pull-lp-ddebs needs
      to find the right series; the rest of the model uses this one. */
  function PseudoWithRelease(p: UbuntuPackage): (r: UbuntuPackage)
    ensures r.nameOfFile == p.nameOfFile && r.architecture == p.architecture
    ensures r.kernelVersion == p.kernelVersion && r.flavor == p.flavor
    ensures r.url == PseudoURL && r.size == MaxUint64 && r.release == p.release
    ensures r.name == Pseudo(p).name
  {
    Pseudo(p).(release := p.release)
  }

  /** The pseudo package's name derives the kernel's file name back. */
  lemma PseudoNameRoundTrip(p: UbuntuPackage)
    requires Apt.PlainFileName(p.nameOfFile)
    ensures Apt.DeriveFileName(PseudoWithRelease(p).name) == p.nameOfFile
  {
    Apt.DeriveFileNameOfKernelNames(p.nameOfFile);
  }

  /** The pseudo package as the Go code builds it, without a release, or
      corrected to keep the kernel's release. */
  function MakePseudo(p: UbuntuPackage, keepRelease: bool): UbuntuPackage {
    if keepRelease then PseudoWithRelease(p) else Pseudo(p)
  }

  /** Adds a pseudo package for each kernel whose file name has no entry;
      entries already present are kept. */
  function AddPseudo(m: Index, kernels: seq<UbuntuPackage>, keepRelease: bool): (r: Index)
    requires KeyedByFilename(m)
    ensures KeyedByFilename(r)
    ensures forall k :: k in m ==> k in r && r[k] == m[k]
    ensures forall k :: k in r <==> k in m || FirstIndex(kernels, k).Some?
    ensures forall k :: k in r && k !in m ==> r[k] == MakePseudo(kernels[FirstIndex(kernels, k).value], keepRelease)
  {
    if |kernels| == 0 then m
    else
      var init := kernels[..|kernels| - 1];
      var p := kernels[|kernels| - 1];
      var r := AddPseudo(m, init, keepRelease);
      FirstIndexBySnoc(FileKey, kernels);
      if p.nameOfFile in r then r
      else
        var e := MakePseudo(p, keepRelease);
        r[p.nameOfFile := e]
  }

  /** The debug packages to process, keyed by file name: the first debug
      candidate for each file name, then pseudo packages for the kept main
      kernels still missing, as written (`keepRelease` false) or with the
      corrected pseudo package. The main pass and the debug pass each range
      over the map of kernel types, so each has its own order: `mainHeads`
      and `dbgHeads`. */
  function Reconcile(mainHeads: seq<Head>, dbgHeads: seq<Head>, pkgs: seq<UbuntuPackage>, dbg: seq<UbuntuPackage>,
                     dir: string, files: FileSet, keepRelease: bool): Index
  {
    AddPseudo(FirstWins(Filter(dbgHeads, dbg, dir, files, true)), Filter(mainHeads, pkgs, dir, files, false), keepRelease)
  }

  /** A debug package is kept by a kernel type exactly when the pattern
      matches its name, it is at least 10,000,000 bytes, and it is not done;
      it is kept unchanged but for the captured flavour. */
  lemma SelectDebugIff(h: Head, p: UbuntuPackage, dir: string, files: FileSet)
    ensures SelectDebug(h, p, dir, files).Some? <==>
              && (exists i, q, f :: MatchesAt(p.name, DebugPattern(h), i, q, f))
              && p.size >= DebugSizeFloor && !Done(p, dir, files)
    ensures SelectDebug(h, p, dir, files).Some? ==>
              && SelectDebug(h, p, dir, files).value.flavor in Flavors
              && SelectDebug(h, p, dir, files).value == p.(flavor := SelectDebug(h, p, dir, files).value.flavor)
  {
  }

  /** A main-archive kernel is kept exactly when the end-anchored pattern
      matches its name and it is not done; its flavour is the one its name
      ends with. */
  lemma SelectMainIff(h: Head, p: UbuntuPackage, dir: string, files: FileSet)
    ensures SelectMain(h, p, dir, files).Some? <==>
              (exists i, q, f :: MatchesAt(p.name, MainPattern(h), i, q, f)) && !Done(p, dir, files)
    ensures SelectMain(h, p, dir, files).Some? ==>
              && SelectMain(h, p, dir, files).value.flavor in Flavors
              && HasSuffix(p.name, "-" + SelectMain(h, p, dir, files).value.flavor)
              && SelectMain(h, p, dir, files).value == p.(flavor := SelectMain(h, p, dir, files).value.flavor)
  {
    if Match(p.name, MainPattern(h)).Some? {
      AnchoredMatchSuffix(p.name, MainPattern(h));
    }
  }

  /** The size floor is inclusive: a package of exactly 10,000,000 bytes is
      not dropped for its size. */
  lemma SizeFloorInclusive(h: Head, p: UbuntuPackage, dir: string, files: FileSet)
    requires p.size == 10_000_000 && !Done(p, dir, files)
    requires Match(p.name, DebugPattern(h)).Some?
    ensures SelectDebug(h, p, dir, files).Some?
  {
  }

  /** Which kernel type selected a package never changes the flavour it is
      given, so the order in which the patterns are tried cannot change the
      groups. */
  lemma SelectDebugFlavorIndependent(h1: Head, h2: Head, p: UbuntuPackage, dir: string, files: FileSet)
    requires '\n' !in p.name
    requires SelectDebug(h1, p, dir, files).Some? && SelectDebug(h2, p, dir, files).Some?
    ensures SelectDebug(h1, p, dir, files) == SelectDebug(h2, p, dir, files)
  {
    FlavorIndependentOfHead(p.name, DebugPattern(h1), DebugPattern(h2));
  }

  /** After reconciliation the map is keyed by file name; every kept main
      kernel has an entry; an entry for a file name some debug candidate has
      is the first such candidate, and any other entry is the pseudo package
      of the first kept main kernel with that file name. */
  lemma {:induction false} ReconcileCovers(mainHeads: seq<Head>, dbgHeads: seq<Head>, pkgs: seq<UbuntuPackage>,
                                           dbg: seq<UbuntuPackage>, dir: string, files: FileSet, keepRelease: bool)
    ensures var r := Reconcile(mainHeads, dbgHeads, pkgs, dbg, dir, files, keepRelease);
            var main := Filter(mainHeads, pkgs, dir, files, false);
            var debug := Filter(dbgHeads, dbg, dir, files, true);
            && KeyedByFilename(r)
            && (forall p :: p in main ==> p.nameOfFile in r)
            && (forall k :: k in r <==> FirstIndex(debug, k).Some? || FirstIndex(main, k).Some?)
            && (forall k :: k in r && FirstIndex(debug, k).Some? ==> r[k] == debug[FirstIndex(debug, k).value])
            && (forall k :: k in r && FirstIndex(debug, k).None? ==>
                  r[k] == MakePseudo(main[FirstIndex(main, k).value], keepRelease))
  {
    var main := Filter(mainHeads, pkgs, dir, files, false);
    var debug := Filter(dbgHeads, dbg, dir, files, true);
    var r := Reconcile(mainHeads, dbgHeads, pkgs, dbg, dir, files, keepRelease);
    forall p | p in main
      ensures p.nameOfFile in r
    {
      var j :| 0 <= j < |main| && main[j] == p;
      assert FirstIndex(main, p.nameOfFile).Some?;
    }
  }

  /** Where an entry of the reconciled map comes from: a debug package that
      some kernel type of the debug pass kept, at least 10,000,000 bytes and
      not done, or the pseudo package of a kernel the main pass kept. */
  ghost predicate FromDebugOrPseudo(e: UbuntuPackage, mainHeads: seq<Head>, dbgHeads: seq<Head>, pkgs: seq<UbuntuPackage>,
                                    dbg: seq<UbuntuPackage>, dir: string, files: FileSet, keepRelease: bool)
  {
    || (e.size >= DebugSizeFloor && !Done(e, dir, files)
        && exists h, p :: h in dbgHeads && p in dbg && SelectDebug(h, p, dir, files) == Some(e))
    || (e.url == PseudoURL && e.size == MaxUint64
        && exists p :: p in Filter(mainHeads, pkgs, dir, files, false) && e == MakePseudo(p, keepRelease))
  }

  lemma DebugCandidateOrigin(heads: seq<Head>, dbg: seq<UbuntuPackage>, dir: string, files: FileSet,
                             e: UbuntuPackage)
    requires e in Filter(heads, dbg, dir, files, true)
    ensures e.size >= DebugSizeFloor && !Done(e, dir, files)
    ensures exists h, p :: h in heads && p in dbg && SelectDebug(h, p, dir, files) == Some(e)
  {
  }

  /** Every entry of the reconciled map is a kept debug package or a pseudo
      package. */
  lemma ReconcileEntries(mainHeads: seq<Head>, dbgHeads: seq<Head>, pkgs: seq<UbuntuPackage>, dbg: seq<UbuntuPackage>,
                         dir: string, files: FileSet, keepRelease: bool)
    ensures var r := Reconcile(mainHeads, dbgHeads, pkgs, dbg, dir, files, keepRelease);
            forall k :: k in r ==> FromDebugOrPseudo(r[k], mainHeads, dbgHeads, pkgs, dbg, dir, files, keepRelease)
  {
    var main := Filter(mainHeads, pkgs, dir, files, false);
    var debug := Filter(dbgHeads, dbg, dir, files, true);
    var r := Reconcile(mainHeads, dbgHeads, pkgs, dbg, dir, files, keepRelease);
    ReconcileCovers(mainHeads, dbgHeads, pkgs, dbg, dir, files, keepRelease);
    forall k | k in r
      ensures FromDebugOrPseudo(r[k], mainHeads, dbgHeads, pkgs, dbg, dir, files, keepRelease)
    {
      match FirstIndex(debug, k)
      case Some(i) =>
        assert debug[i] in debug;
        DebugCandidateOrigin(dbgHeads, dbg, dir, files, debug[i]);
      case None =>
        var j := FirstIndex(main, k).value;
        assert main[j] in main;
    }
  }

  /** With the corrected pseudo package, when both package lists carry one
      release, so does every entry of the reconciled map, pseudo packages
      included. */
  lemma ReconcileKeepsRelease(mainHeads: seq<Head>, dbgHeads: seq<Head>, pkgs: seq<UbuntuPackage>,
                              dbg: seq<UbuntuPackage>, dir: string, files: FileSet, release: string)
    requires forall p :: p in pkgs ==> p.release == release
    requires forall p :: p in dbg ==> p.release == release
    ensures var r := Reconcile(mainHeads, dbgHeads, pkgs, dbg, dir, files, true);
            forall k :: k in r ==> r[k].release == release
  {
    var r := Reconcile(mainHeads, dbgHeads, pkgs, dbg, dir, files, true);
    ReconcileEntries(mainHeads, dbgHeads, pkgs, dbg, dir, files, true);
    forall k | k in r
      ensures r[k].release == release
    {
      EntryKeepsRelease(r[k], mainHeads, dbgHeads, pkgs, dbg, dir, files, release);
    }
  }

  /** One entry of the reconciled map keeps the release of the lists. */
  lemma EntryKeepsRelease(e: UbuntuPackage, mainHeads: seq<Head>, dbgHeads: seq<Head>, pkgs: seq<UbuntuPackage>,
                          dbg: seq<UbuntuPackage>, dir: string, files: FileSet, release: string)
    requires forall p :: p in pkgs ==> p.release == release
    requires forall p :: p in dbg ==> p.release == release
    requires FromDebugOrPseudo(e, mainHeads, dbgHeads, pkgs, dbg, dir, files, true)
    ensures e.release == release
  {
    if exists h, p :: h in dbgHeads && p in dbg && SelectDebug(h, p, dir, files) == Some(e) {
      var h, p :| h in dbgHeads && p in dbg && SelectDebug(h, p, dir, files) == Some(e);
      assert e.release == p.release;
    } else {
      var q :| q in Filter(mainHeads, pkgs, dir, files, false) && e == MakePseudo(q, true);
      var h, p :| h in mainHeads && p in pkgs && Select(h, p, dir, files, false) == Some(q);
      assert q.release == p.release;
    }
  }

  /** As written, a kept main kernel that no debug candidate shares a file
      name with is reconciled into a pseudo package with an empty release,
      whatever release the listings carry. */
  lemma ReconcileAsWrittenDropsRelease(mainHeads: seq<Head>, dbgHeads: seq<Head>, pkgs: seq<UbuntuPackage>,
                                       dbg: seq<UbuntuPackage>, dir: string, files: FileSet, p: UbuntuPackage)
    requires p in Filter(mainHeads, pkgs, dir, files, false)
    requires forall q :: q in Filter(dbgHeads, dbg, dir, files, true) ==> q.nameOfFile != p.nameOfFile
    ensures var r := Reconcile(mainHeads, dbgHeads, pkgs, dbg, dir, files, false);
            p.nameOfFile in r && r[p.nameOfFile].url == PseudoURL && r[p.nameOfFile].release == ""
  {
    var debug := Filter(dbgHeads, dbg, dir, files, true);
    ReconcileCovers(mainHeads, dbgHeads, pkgs, dbg, dir, files, false);
    assert FirstIndex(debug, p.nameOfFile).None?;
  }

  /** No two packages of the list share a file name. */
  predicate UniqueFileNames(c: seq<UbuntuPackage>) {
    forall p, q :: p in c && q in c && p.nameOfFile == q.nameOfFile ==> p == q
  }

  /** Some package of `c` has file name `k` exactly when `FirstIndex` finds one. */
  lemma FirstIndexIffIn(c: seq<UbuntuPackage>, k: string)
    ensures FirstIndex(c, k).Some? <==> exists q :: q in c && q.nameOfFile == k
  {
    if FirstIndex(c, k).Some? {
      assert c[FirstIndex(c, k).value] in c;
    }
  }

  /** The set of kernel types decides what a pass over them selects. */
  lemma FilterHeadSet(heads1: seq<Head>, heads2: seq<Head>, pkgs: seq<UbuntuPackage>, dir: string,
                      files: FileSet, debug: bool)
    requires forall h :: h in heads1 <==> h in heads2
    ensures forall q :: q in Filter(heads1, pkgs, dir, files, debug) <==> q in Filter(heads2, pkgs, dir, files, debug)
  {
  }

  /** `ReconcileCovers` for the one file name `k`. */
  lemma ReconcileAt(mainHeads: seq<Head>, dbgHeads: seq<Head>, pkgs: seq<UbuntuPackage>, dbg: seq<UbuntuPackage>,
                    dir: string, files: FileSet, keepRelease: bool, k: string)
    ensures var r := Reconcile(mainHeads, dbgHeads, pkgs, dbg, dir, files, keepRelease);
            var main := Filter(mainHeads, pkgs, dir, files, false);
            var debug := Filter(dbgHeads, dbg, dir, files, true);
            && (k in r <==> FirstIndex(debug, k).Some? || FirstIndex(main, k).Some?)
            && (k in r ==> r[k].nameOfFile == k)
            && (k in r && FirstIndex(debug, k).Some? ==> r[k] == debug[FirstIndex(debug, k).value])
            && (k in r && FirstIndex(debug, k).None? ==> r[k] == MakePseudo(main[FirstIndex(main, k).value], keepRelease))
  {
    ReconcileCovers(mainHeads, dbgHeads, pkgs, dbg, dir, files, keepRelease);
  }

  /** Whether file name `k` gets an entry, and whether that entry is a debug
      candidate, does not depend on the order of either pass. */
  lemma ReconcileKeyIndependentAt(mainHeads1: seq<Head>, dbgHeads1: seq<Head>,
                                  mainHeads2: seq<Head>, dbgHeads2: seq<Head>, pkgs: seq<UbuntuPackage>,
                                  dbg: seq<UbuntuPackage>, dir: string, files: FileSet, keepRelease: bool, k: string)
    requires forall h :: h in mainHeads1 <==> h in mainHeads2
    requires forall h :: h in dbgHeads1 <==> h in dbgHeads2
    ensures var r1 := Reconcile(mainHeads1, dbgHeads1, pkgs, dbg, dir, files, keepRelease);
            var r2 := Reconcile(mainHeads2, dbgHeads2, pkgs, dbg, dir, files, keepRelease);
            && (k in r1 <==> k in r2)
            && (k in r1 ==>
                  (r1[k] in Filter(dbgHeads1, dbg, dir, files, true) <==> r2[k] in Filter(dbgHeads2, dbg, dir, files, true)))
  {
    var debug1 := Filter(dbgHeads1, dbg, dir, files, true);
    var debug2 := Filter(dbgHeads2, dbg, dir, files, true);
    ReconcileAt(mainHeads1, dbgHeads1, pkgs, dbg, dir, files, keepRelease, k);
    ReconcileAt(mainHeads2, dbgHeads2, pkgs, dbg, dir, files, keepRelease, k);
    FilterHeadSet(dbgHeads1, dbgHeads2, dbg, dir, files, true);
    FilterHeadSet(mainHeads1, mainHeads2, pkgs, dir, files, false);
    FirstIndexIffIn(debug1, k);
    FirstIndexIffIn(debug2, k);
    FirstIndexIffIn(Filter(mainHeads1, pkgs, dir, files, false), k);
    FirstIndexIffIn(Filter(mainHeads2, pkgs, dir, files, false), k);
    if FirstIndex(debug1, k).Some? {
      assert debug1[FirstIndex(debug1, k).value] in debug1;
      assert debug2[FirstIndex(debug2, k).value] in debug2;
    }
  }

  /** Which file names get an entry, and whether that entry is a debug
      candidate or a pseudo package, does not depend on the order in which
      either pass visits the kernel types. */
  lemma ReconcileKeysIndependentOfHeadOrder(mainHeads1: seq<Head>, dbgHeads1: seq<Head>,
                                            mainHeads2: seq<Head>, dbgHeads2: seq<Head>, pkgs: seq<UbuntuPackage>,
                                            dbg: seq<UbuntuPackage>, dir: string, files: FileSet, keepRelease: bool)
    requires forall h :: h in mainHeads1 <==> h in mainHeads2
    requires forall h :: h in dbgHeads1 <==> h in dbgHeads2
    ensures var r1 := Reconcile(mainHeads1, dbgHeads1, pkgs, dbg, dir, files, keepRelease);
            var r2 := Reconcile(mainHeads2, dbgHeads2, pkgs, dbg, dir, files, keepRelease);
            && r1.Keys == r2.Keys
            && forall k :: k in r1 ==>
                 (r1[k] in Filter(dbgHeads1, dbg, dir, files, true) <==> r2[k] in Filter(dbgHeads2, dbg, dir, files, true))
  {
    var r1 := Reconcile(mainHeads1, dbgHeads1, pkgs, dbg, dir, files, keepRelease);
    var r2 := Reconcile(mainHeads2, dbgHeads2, pkgs, dbg, dir, files, keepRelease);
    forall k
      ensures k in r1 <==> k in r2
      ensures k in r1 ==>
                (r1[k] in Filter(dbgHeads1, dbg, dir, files, true) <==> r2[k] in Filter(dbgHeads2, dbg, dir, files, true))
    {
      ReconcileKeyIndependentAt(mainHeads1, dbgHeads1, mainHeads2, dbgHeads2, pkgs, dbg, dir, files, keepRelease, k);
    }
  }

  /** Both kernel types give a main kernel the same flavour. */
  lemma SelectMainFlavorIndependent(h1: Head, h2: Head, p: UbuntuPackage, dir: string, files: FileSet)
    requires '\n' !in p.name
    requires SelectMain(h1, p, dir, files).Some? && SelectMain(h2, p, dir, files).Some?
    ensures SelectMain(h1, p, dir, files) == SelectMain(h2, p, dir, files)
  {
    FlavorIndependentOfHead(p.name, MainPattern(h1), MainPattern(h2));
  }

  /** Two packages a pass selects with one file name come from the same
      listed package, when no two listed packages share a file name. */
  lemma SelectedSameSource(h1: Head, h2: Head, p1: UbuntuPackage, p2: UbuntuPackage, dir: string, files: FileSet,
                           debug: bool, e1: UbuntuPackage, e2: UbuntuPackage, pkgs: seq<UbuntuPackage>)
    requires UniqueFileNames(pkgs) && p1 in pkgs && p2 in pkgs && '\n' !in p1.name
    requires Select(h1, p1, dir, files, debug) == Some(e1) && Select(h2, p2, dir, files, debug) == Some(e2)
    requires e1.nameOfFile == e2.nameOfFile
    ensures e1 == e2
  {
    assert p1 == p2;
    if debug {
      SelectDebugFlavorIndependent(h1, h2, p1, dir, files);
    } else {
      SelectMainFlavorIndependent(h1, h2, p1, dir, files);
    }
  }

  /** The first package of a pass with file name `k` does not depend on the
      order of the kernel types, when no two listed packages share a file
      name. */
  lemma FirstSelectedIndependent(heads1: seq<Head>, heads2: seq<Head>, pkgs: seq<UbuntuPackage>, dir: string,
                                 files: FileSet, debug: bool, k: string)
    requires forall h :: h in heads1 <==> h in heads2
    requires UniqueFileNames(pkgs) && forall p :: p in pkgs ==> '\n' !in p.name
    requires FirstIndex(Filter(heads1, pkgs, dir, files, debug), k).Some?
    requires FirstIndex(Filter(heads2, pkgs, dir, files, debug), k).Some?
    ensures var c1 := Filter(heads1, pkgs, dir, files, debug);
            var c2 := Filter(heads2, pkgs, dir, files, debug);
            c1[FirstIndex(c1, k).value] == c2[FirstIndex(c2, k).value]
  {
    var c1 := Filter(heads1, pkgs, dir, files, debug);
    var c2 := Filter(heads2, pkgs, dir, files, debug);
    var e1 := c1[FirstIndex(c1, k).value];
    var e2 := c2[FirstIndex(c2, k).value];
    assert e1 in c1 && e2 in c2;
    var g1, p1 :| g1 in heads1 && p1 in pkgs && Select(g1, p1, dir, files, debug) == Some(e1);
    var g2, p2 :| g2 in heads2 && p2 in pkgs && Select(g2, p2, dir, files, debug) == Some(e2);
    SelectedSameSource(g1, g2, p1, p2, dir, files, debug, e1, e2, pkgs);
  }

  /** When no two listed packages share a file name, the entry of file name
      `k` does not depend on the order of either pass. */
  lemma ReconcileEntryIndependentAt(mainHeads1: seq<Head>, dbgHeads1: seq<Head>,
                                    mainHeads2: seq<Head>, dbgHeads2: seq<Head>, pkgs: seq<UbuntuPackage>,
                                    dbg: seq<UbuntuPackage>, dir: string, files: FileSet, keepRelease: bool, k: string)
    requires forall h :: h in mainHeads1 <==> h in mainHeads2
    requires forall h :: h in dbgHeads1 <==> h in dbgHeads2
    requires UniqueFileNames(pkgs) && forall p :: p in pkgs ==> '\n' !in p.name
    requires UniqueFileNames(dbg) && forall p :: p in dbg ==> '\n' !in p.name
    requires k in Reconcile(mainHeads1, dbgHeads1, pkgs, dbg, dir, files, keepRelease)
    ensures var r2 := Reconcile(mainHeads2, dbgHeads2, pkgs, dbg, dir, files, keepRelease);
            k in r2 && Reconcile(mainHeads1, dbgHeads1, pkgs, dbg, dir, files, keepRelease)[k] == r2[k]
  {
    var debug1 := Filter(dbgHeads1, dbg, dir, files, true);
    var debug2 := Filter(dbgHeads2, dbg, dir, files, true);
    ReconcileAt(mainHeads1, dbgHeads1, pkgs, dbg, dir, files, keepRelease, k);
    ReconcileAt(mainHeads2, dbgHeads2, pkgs, dbg, dir, files, keepRelease, k);
    FilterHeadSet(dbgHeads1, dbgHeads2, dbg, dir, files, true);
    FirstIndexIffIn(debug1, k);
    FirstIndexIffIn(debug2, k);
    FilterHeadSet(mainHeads1, mainHeads2, pkgs, dir, files, false);
    FirstIndexIffIn(Filter(mainHeads1, pkgs, dir, files, false), k);
    FirstIndexIffIn(Filter(mainHeads2, pkgs, dir, files, false), k);
    if FirstIndex(debug1, k).Some? {
      FirstSelectedIndependent(dbgHeads1, dbgHeads2, dbg, dir, files, true, k);
    } else {
      FirstSelectedIndependent(mainHeads1, mainHeads2, pkgs, dir, files, false, k);
    }
  }

  /** When no two listed packages share a file name, the reconciled map does
      not depend on the order in which either pass visits the kernel types. */
  lemma ReconcileIndependentOfHeadOrder(mainHeads1: seq<Head>, dbgHeads1: seq<Head>,
                                        mainHeads2: seq<Head>, dbgHeads2: seq<Head>, pkgs: seq<UbuntuPackage>,
                                        dbg: seq<UbuntuPackage>, dir: string, files: FileSet, keepRelease: bool)
    requires forall h :: h in mainHeads1 <==> h in mainHeads2
    requires forall h :: h in dbgHeads1 <==> h in dbgHeads2
    requires UniqueFileNames(pkgs) && forall p :: p in pkgs ==> '\n' !in p.name
    requires UniqueFileNames(dbg) && forall p :: p in dbg ==> '\n' !in p.name
    ensures Reconcile(mainHeads1, dbgHeads1, pkgs, dbg, dir, files, keepRelease)
         == Reconcile(mainHeads2, dbgHeads2, pkgs, dbg, dir, files, keepRelease)
  {
    var r1 := Reconcile(mainHeads1, dbgHeads1, pkgs, dbg, dir, files, keepRelease);
    var r2 := Reconcile(mainHeads2, dbgHeads2, pkgs, dbg, dir, files, keepRelease);
    ReconcileKeysIndependentOfHeadOrder(mainHeads1, dbgHeads1, mainHeads2, dbgHeads2, pkgs, dbg, dir, files, keepRelease);
    forall k | k in r1
      ensures r1[k] == r2[k]
    {
      ReconcileEntryIndependentAt(mainHeads1, dbgHeads1, mainHeads2, dbgHeads2, pkgs, dbg, dir, files, keepRelease, k);
    }
  }

  /** The file name of one focal kernel, and the names of its signed and
      unsigned debug packages in the ddebs archive; both names derive the
      file name. */
  const FocalFile := "5.4.0-90-generic"
  const SignedDbgsymName := Apt.KernelPrefix + FocalFile + Dbgsym
  const UnsignedDbgsymName := Apt.KernelPrefix + "unsigned-" + FocalFile + Dbgsym

  const SignedDbgsym := UbuntuPackage(SignedDbgsymName, "amd64", KernelVersion.Version(FocalFile, [5, 4, 0, 90]),
                                      FocalFile, "pool/main/l/linux/signed.ddeb", 10_000_000, "focal", "")
  const UnsignedDbgsym := SignedDbgsym.(name := UnsignedDbgsymName, url := "pool/main/l/linux/unsigned.ddeb")

  /** The unsigned kernel type does not match the signed debug package: the
      literal "linux-image-unsigned-" occurs nowhere in its name. */
  lemma UnsignedSkipsSigned()
    ensures Match(SignedDbgsymName, DebugPattern(Unsigned)).None?
  {
    var name := SignedDbgsymName;
    var tail := FocalFile + Dbgsym;
    assert name == Signed.lit + tail;
    assert 'u' !in tail;
    forall i | 0 <= i <= |name|
      ensures !HasPrefix(name[i..], Unsigned.lit)
    {
      if i + |Unsigned.lit| <= |name| {
        assert Unsigned.lit[12] == 'u';
        assert name[i..][12] == tail[i];
      }
    }
  }

  /** Both debug package names derive the kernel's file name under the APT
      derivation, so both land on one key of the map. */
  lemma FocalNamesShareFile()
    ensures Apt.DeriveFileName(SignedDbgsymName) == FocalFile
    ensures Apt.DeriveFileName(UnsignedDbgsymName) == FocalFile
  {
    var f := FocalFile;
    assert f[|f| - 1] == 'c' && f[0] == '5';
    assert f[|f| - 6..][5] == f[|f| - 1] && f[|f| - 3..][2] == f[|f| - 1] && f[..9][0] == f[0];
    assert Apt.PlainFileName(f);
    Apt.DeriveFileNameOfKernelNames(f);
  }

  /** A debug package of at least 10,000,000 bytes that a kernel type's
      pattern matches is kept when no marker exists. */
  lemma SelectDebugOfMatch(h: Head, p: UbuntuPackage, dir: string, i: int, q: int, f: string)
    requires MatchesAt(p.name, DebugPattern(h), i, q, f) && p.size >= DebugSizeFloor
    ensures SelectDebug(h, p, dir, {}).Some?
  {
  }

  /** The signed kernel type's pattern matches the signed debug package. */
  lemma SignedMatchesSigned()
    ensures MatchesAt(SignedDbgsymName, DebugPattern(Signed), 0, 20, "generic")
  {
    var name := SignedDbgsymName;
    assert name == "linux-image-" + "5.4.0" + "-" + "90" + "-" + "generic" + "-dbgsym";
    assert HasPrefix(name[0..], Signed.lit);
    assert RunEnd(name, 17) == 17;
    assert RunEnd(name, 12) == 17;
    assert HeadEnd(name, 0, Signed) == Some(18);
    assert FlavorAt(name, 20, "generic", BeforeDbgsym);
  }

  /** The unsigned kernel type's pattern matches the unsigned debug package. */
  lemma UnsignedMatchesUnsigned()
    ensures MatchesAt(UnsignedDbgsymName, DebugPattern(Unsigned), 0, 29, "generic")
  {
    var name := UnsignedDbgsymName;
    assert name == "linux-image-unsigned-" + "5.4.0" + "-" + "90" + "-" + "generic" + "-dbgsym";
    assert HasPrefix(name[0..], Unsigned.lit);
    assert RunEnd(name, 26) == 26;
    assert RunEnd(name, 21) == 26;
    assert HeadEnd(name, 0, Unsigned) == Some(27);
    assert FlavorAt(name, 29, "generic", BeforeDbgsym);
  }

  /** The pass of two kernel types is the first type's pass, then the
      second's. */
  lemma FilterPair(h1: Head, h2: Head, pkgs: seq<UbuntuPackage>, dir: string, files: FileSet, debug: bool)
    ensures Filter([h1, h2], pkgs, dir, files, debug) == FilterWith(h1, pkgs, dir, files, debug) + FilterWith(h2, pkgs, dir, files, debug)
  {
    assert [h1, h2][..1] == [h1] && [h1][..0] == [];
    assert Filter([h1], pkgs, dir, files, debug) == [] + FilterWith(h1, pkgs, dir, files, debug);
  }

  /** A package a kernel type keeps from the front of the list is the first
      package of its pass. */
  lemma FilterWithFront(h: Head, p: UbuntuPackage, rest: seq<UbuntuPackage>, dir: string, files: FileSet, debug: bool)
    requires Select(h, p, dir, files, debug).Some?
    ensures var c := FilterWith(h, [p] + rest, dir, files, debug);
            |c| > 0 && c[0] == Select(h, p, dir, files, debug).value
  {
    FilterMapCons(p => Select(h, p, dir, files, debug), p, rest);
  }

  /** A package a kernel type skips at the front of the list leaves the pass
      of the rest. */
  lemma FilterWithSkip(h: Head, p: UbuntuPackage, rest: seq<UbuntuPackage>, dir: string, files: FileSet, debug: bool)
    requires Select(h, p, dir, files, debug).None?
    ensures FilterWith(h, [p] + rest, dir, files, debug) == FilterWith(h, rest, dir, files, debug)
  {
    FilterMapCons(p => Select(h, p, dir, files, debug), p, rest);
  }

  /** The entry of a file name held by the first debug candidate is that
      candidate, when no main kernel is kept. */
  lemma ReconcileFirstCandidate(mainHeads: seq<Head>, dbgHeads: seq<Head>, dbg: seq<UbuntuPackage>, dir: string,
                                files: FileSet, keepRelease: bool)
    requires |Filter(dbgHeads, dbg, dir, files, true)| > 0
    ensures var e := Filter(dbgHeads, dbg, dir, files, true)[0];
            var r := Reconcile(mainHeads, dbgHeads, [], dbg, dir, files, keepRelease);
            e.nameOfFile in r && r[e.nameOfFile] == e
  {
    var d := Filter(dbgHeads, dbg, dir, files, true);
    var k := d[0].nameOfFile;
    assert FirstIndex(d, k) == Some(0);
    var m := FirstWins(d);
    assert k in m && m[k] == d[0];
  }

  /** Which debug package a file name is reconciled to depends on the order
      in which the debug pass visits the Go map of kernel types, whatever the
      order of the main pass, when the signed and the unsigned debug package
      share the file name. */
  lemma ReconcileDependsOnHeadOrder(mainHeads: seq<Head>)
    ensures var dbg := [SignedDbgsym, UnsignedDbgsym];
            var r1 := Reconcile(mainHeads, [Signed, Unsigned], [], dbg, "", {}, true);
            var r2 := Reconcile(mainHeads, [Unsigned, Signed], [], dbg, "", {}, true);
            && FocalFile in r1 && r1[FocalFile].name == SignedDbgsymName
            && FocalFile in r2 && r2[FocalFile].name == UnsignedDbgsymName
  {
    SignedMatchesSigned();
    UnsignedMatchesUnsigned();
    SelectDebugOfMatch(Signed, SignedDbgsym, "", 0, 20, "generic");
    SelectDebugOfMatch(Unsigned, UnsignedDbgsym, "", 0, 29, "generic");
    UnsignedSkipsSigned();
    TwoCandidatesHeadOrder(mainHeads, Signed, Unsigned, SignedDbgsym, UnsignedDbgsym, "", {}, true);
  }

  /** Two debug packages where the first kernel type keeps only the first
      and the second type keeps the second: each order of the debug pass
      reconciles the file name to the package its first type keeps. */
  lemma TwoCandidatesHeadOrder(mainHeads: seq<Head>, h1: Head, h2: Head, a: UbuntuPackage, b: UbuntuPackage,
                               dir: string, files: FileSet, keepRelease: bool)
    requires SelectDebug(h1, a, dir, files).Some? && SelectDebug(h2, a, dir, files).None?
    requires SelectDebug(h2, b, dir, files).Some?
    ensures var r1 := Reconcile(mainHeads, [h1, h2], [], [a, b], dir, files, keepRelease);
            var r2 := Reconcile(mainHeads, [h2, h1], [], [a, b], dir, files, keepRelease);
            && a.nameOfFile in r1 && r1[a.nameOfFile] == SelectDebug(h1, a, dir, files).value
            && b.nameOfFile in r2 && r2[b.nameOfFile] == SelectDebug(h2, b, dir, files).value
  {
    FrontKeptWins(mainHeads, h1, h2, a, b, dir, files, keepRelease);
    FrontSkippedLoses(mainHeads, h2, h1, a, b, dir, files, keepRelease);
  }

  /** When the first kernel type keeps the first package, it holds its file
      name. */
  lemma FrontKeptWins(mainHeads: seq<Head>, h1: Head, h2: Head, a: UbuntuPackage, b: UbuntuPackage, dir: string,
                      files: FileSet, keepRelease: bool)
    requires SelectDebug(h1, a, dir, files).Some?
    ensures var r := Reconcile(mainHeads, [h1, h2], [], [a, b], dir, files, keepRelease);
            a.nameOfFile in r && r[a.nameOfFile] == SelectDebug(h1, a, dir, files).value
  {
    FilterPair(h1, h2, [a, b], dir, files, true);
    assert [a, b] == [a] + [b];
    FilterWithFront(h1, a, [b], dir, files, true);
    ReconcileFirstCandidate(mainHeads, [h1, h2], [a, b], dir, files, keepRelease);
  }

  /** When the first kernel type skips the first package and keeps the
      second, the second holds its file name. */
  lemma FrontSkippedLoses(mainHeads: seq<Head>, h1: Head, h2: Head, a: UbuntuPackage, b: UbuntuPackage, dir: string,
                          files: FileSet, keepRelease: bool)
    requires SelectDebug(h1, a, dir, files).None? && SelectDebug(h1, b, dir, files).Some?
    ensures var r := Reconcile(mainHeads, [h1, h2], [], [a, b], dir, files, keepRelease);
            b.nameOfFile in r && r[b.nameOfFile] == SelectDebug(h1, b, dir, files).value
  {
    FilterPair(h1, h2, [a, b], dir, files, true);
    assert [a, b] == [a] + [b];
    FilterWithSkip(h1, a, [b], dir, files, true);
    assert [b] == [b] + [];
    FilterWithFront(h1, b, [], dir, files, true);
    ReconcileFirstCandidate(mainHeads, [h1, h2], [a, b], dir, files, keepRelease);
  }

  /** `keys` lists every key of `m` once: an order in which Go's `range`
      may visit the map. */
  ghost predicate Enumerates(keys: seq<string>, m: Index) {
    Distinct(keys) && forall k :: k in keys <==> k in m
  }

  /** The map's packages in the order of `keys`. */
  function Values(m: Index, keys: seq<string>): (r: seq<Package>)
    requires forall k :: k in keys ==> k in m
    ensures |r| == |keys|
    ensures forall i :: 0 <= i < |keys| ==> r[i] == Ubuntu(m[keys[i]])
  {
    seq(|keys|, i requires 0 <= i < |keys| => Ubuntu(m[keys[i]]))
  }

  /** The flavour groups of the reconciled map, each sorted by version,
      visiting the map in the order `keys`. */
  function GroupIndex(m: Index, keys: seq<string>): FlavorGroups.Groups
    requires Enumerates(keys, m)
  {
    FlavorGroups.SortGroups(FlavorGroups.GroupByFlavor(Values(m, keys)))
  }

  /** A map keyed by file name holds no package twice. */
  lemma ValuesDistinct(m: Index, keys: seq<string>)
    requires KeyedByFilename(m) && Enumerates(keys, m)
    ensures Distinct(Values(m, keys))
  {
    var v := Values(m, keys);
    forall i, j | 0 <= i < j < |v|
      ensures v[i] != v[j]
    {
      assert keys[i] in m && keys[j] in m;
      assert m[keys[i]].nameOfFile == keys[i];
    }
  }

  /** Every package of the map appears exactly once, in the group of its
      flavour. */
  lemma GroupIndexCovers(m: Index, keys: seq<string>, k: string)
    requires KeyedByFilename(m) && Enumerates(keys, m) && k in m
    ensures m[k].flavor in GroupIndex(m, keys)
    ensures multiset(GroupIndex(m, keys)[m[k].flavor])[Ubuntu(m[k])] == 1
  {
    var v := Values(m, keys);
    FlavorGroups.GroupByFlavorIsMembers(v);
    ValuesDistinct(m, keys);
    var i :| 0 <= i < |keys| && keys[i] == k;
    assert v[i] == Ubuntu(m[k]);
    assert Ubuntu(m[k]) in v;
    FlavorGroups.MembersMultiset(v, m[k].flavor);
    DistinctCount(v, Ubuntu(m[k]));
  }

  /** A group holds only packages of the map with its flavour, and is sorted
      ascending by version. */
  lemma GroupIndexOnlyMap(m: Index, keys: seq<string>, f: string)
    requires KeyedByFilename(m) && Enumerates(keys, m) && f in GroupIndex(m, keys)
    ensures VersionSort.Sorted(GroupIndex(m, keys)[f])
    ensures forall x :: x in GroupIndex(m, keys)[f] ==>
              x.Ubuntu? && x.ubuntu.flavor == f && x.ubuntu.nameOfFile in m && m[x.ubuntu.nameOfFile] == x.ubuntu
  {
    var v := Values(m, keys);
    var g: FlavorGroups.Groups := GroupIndex(m, keys);
    forall x | x in g[f]
      ensures x.Ubuntu? && x.ubuntu.flavor == f && x.ubuntu.nameOfFile in m && m[x.ubuntu.nameOfFile] == x.ubuntu
    {
      FlavorGroups.GroupedMember(v, f, x);
      ValueInMap(m, keys, x);
    }
  }

  /** Every value listed comes from the map under its own file name. */
  lemma ValueInMap(m: Index, keys: seq<string>, x: Package)
    requires KeyedByFilename(m) && Enumerates(keys, m) && x in Values(m, keys)
    ensures x.Ubuntu? && x.ubuntu.nameOfFile in m && m[x.ubuntu.nameOfFile] == x.ubuntu
  {
    var v := Values(m, keys);
    var i :| 0 <= i < |v| && v[i] == x;
    assert keys[i] in m;
  }

  /** The order in which the map is visited changes neither which groups
      exist nor what they hold, and the sorted groups list the same versions
      position by position. */
  lemma GroupIndexOrderIndependent(m: Index, keys1: seq<string>, keys2: seq<string>)
    requires KeyedByFilename(m) && Enumerates(keys1, m) && Enumerates(keys2, m)
    ensures GroupIndex(m, keys1).Keys == GroupIndex(m, keys2).Keys
    ensures forall f :: f in GroupIndex(m, keys1) ==>
              && multiset(GroupIndex(m, keys1)[f]) == multiset(GroupIndex(m, keys2)[f])
              && |GroupIndex(m, keys1)[f]| == |GroupIndex(m, keys2)[f]|
              && forall i :: 0 <= i < |GroupIndex(m, keys1)[f]| ==>
                   GroupIndex(m, keys1)[f][i].Version().ints == GroupIndex(m, keys2)[f][i].Version().ints
  {
    var v1 := Values(m, keys1);
    var v2 := Values(m, keys2);
    var g1: FlavorGroups.Groups := GroupIndex(m, keys1);
    var g2: FlavorGroups.Groups := GroupIndex(m, keys2);
    ValuesDistinct(m, keys1);
    ValuesDistinct(m, keys2);
    forall x: Package
      ensures x in v1 <==> x in v2
    {
      if x in v1 {
        var i :| 0 <= i < |v1| && v1[i] == x;
        assert keys1[i] in keys1;
        var j :| 0 <= j < |keys2| && keys2[j] == keys1[i];
        assert v2[j] == x;
      }
      if x in v2 {
        var i :| 0 <= i < |v2| && v2[i] == x;
        assert keys2[i] in keys2;
        var j :| 0 <= j < |keys1| && keys1[j] == keys2[i];
        assert v1[j] == x;
      }
    }
    DistinctSameElements(v1, v2);
    forall f
      ensures f in g1 <==> f in g2
      ensures f in g1 ==> multiset(g1[f]) == multiset(g2[f])
    {
      FlavorGroups.GroupedAndSorted(v1, v2, f);
    }
    forall f | f in g1
      ensures |g1[f]| == |g2[f]|
      ensures forall i :: 0 <= i < |g1[f]| ==> g1[f][i].Version().ints == g2[f][i].Version().ints
    {
      VersionSort.SortedUniqueUpToTies(g1[f], g2[f]);
    }
  }
}
