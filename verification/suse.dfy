/** The SUSE repository (pkg/repo/suse.go): which debug-info repositories a
    release enables, the alias table read from `zypper repos`, the package
    lines of `zypper search -s`, and the grouping by flavour. The zypper
    commands themselves are not modelled; their output is an input. */
module Suse {
  import opened Wrappers
  import opened Text
  import KernelVersion
  import opened Packages
  import FlavorGroups
  import VersionSort

  /** The pool and updates repositories of one product line. */
  function PoolAndUpdates(base: string, product: string): (r: seq<string>)
    ensures |r| == 2 && HasSuffix(r[0], "-Debuginfo-Pool") && HasSuffix(r[1], "-Debuginfo-Updates")
    ensures HasPrefix(r[0], base + ":" + product) && HasPrefix(r[1], base + ":" + product)
  {
    var pool := base + ":" + product + "-Debuginfo-Pool";
    var updates := base + ":" + product + "-Debuginfo-Updates";
    assert pool[|pool| - |"-Debuginfo-Pool"|..] == "-Debuginfo-Pool";
    assert updates[|updates| - |"-Debuginfo-Updates"|..] == "-Debuginfo-Updates";
    assert pool[..|base + ":" + product|] == base + ":" + product;
    assert updates[..|base + ":" + product|] == base + ":" + product;
    [pool, updates]
  }

  /** The debug-info repositories a release enables, pool then updates; an
      unknown release enables none. */
  function Repos(release: string, arch: string): (r: seq<string>)
    ensures |r| == 0 || |r| == 2
    ensures |r| == 2 ==> HasSuffix(r[0], "-Debuginfo-Pool") && HasSuffix(r[1], "-Debuginfo-Updates")
  {
    if release == "12.3" then PoolAndUpdates("SUSE_Linux_Enterprise_Server_12_SP3_" + arch, "SLES12-SP3")
    else if release == "12.5" then PoolAndUpdates("SUSE_Linux_Enterprise_Server_" + arch, "SLES12-SP5")
    else if release == "15.1" then PoolAndUpdates("Basesystem_Module_15_SP1_" + arch, "SLE-Module-Basesystem15-SP1")
    else if release == "15.2" then PoolAndUpdates("Basesystem_Module_" + arch, "SLE-Module-Basesystem15-SP2")
    else if release == "15.3" then PoolAndUpdates("Basesystem_Module_" + arch, "SLE-Module-Basesystem15-SP3")
    else if release == "15.4" then PoolAndUpdates("Basesystem_Module_" + arch, "SLE-Module-Basesystem15-SP4")
    else []
  }

  /** The releases the table knows. */
  const Releases: set<string> := {"12.3", "12.5", "15.1", "15.2", "15.3", "15.4"}

  /** Each known release enables two repositories, any other none. */
  lemma ReposOfKnownReleases(release: string, arch: string)
    ensures |Repos(release, arch)| == 2 <==> release in Releases
  {
  }

  /** The separators of the zypper tables: white space and '|'. */
  const TableSeps: set<char> := {' ', '\t', '\n', '\r', '\U{000B}', '\U{000C}', '\U{0085}', '\U{00A0}', '|'}

  lemma TableSepsAreSpaceOrBar(c: char)
    ensures c in TableSeps <==> IsSpace(c) || c == '|'
  {
  }

  /** A `zypper repos` row "# | Alias | Name | ...": the alias and the name,
      when the row has at least three fields and the first is a number. */
  function AliasRow(line: string): (r: Option<(string, string)>)
    ensures r.Some? ==> |Fields(line, TableSeps)| >= 3
    ensures r.Some? ==> r.value == (Fields(line, TableSeps)[1], Fields(line, TableSeps)[2])
    ensures r.Some? ==> Atoi(Fields(line, TableSeps)[0]).Some?
  {
    var fields := Fields(line, TableSeps);
    if |fields| < 3 || Atoi(fields[0]).None? then None else Some((fields[1], fields[2]))
  }

  /** Name to alias over parsed rows, a later row for the same name
      overwriting an earlier one. */
  function AliasMap(rows: seq<Option<(string, string)>>): (aliases: map<string, string>)
    ensures |rows| == 0 ==> aliases == map[]
  {
    if |rows| == 0 then map[]
    else
      var aliases := AliasMap(rows[..|rows| - 1]);
      match rows[|rows| - 1]
      case None => aliases
      case Some((alias, name)) => aliases[name := alias]
  }

  /** A name has an alias exactly when some row names it. */
  lemma {:induction false} AliasMapKeys(rows: seq<Option<(string, string)>>, name: string)
    ensures name in AliasMap(rows) <==> exists i :: 0 <= i < |rows| && rows[i].Some? && rows[i].value.1 == name
  {
    if |rows| > 0 {
      var init := rows[..|rows| - 1];
      AliasMapKeys(init, name);
      assert forall i :: 0 <= i < |init| ==> init[i] == rows[i];
    }
  }

  /** The alias recorded for a name is the one on the last row naming it. */
  lemma {:induction false} AliasMapLastWins(rows: seq<Option<(string, string)>>, i: nat)
    requires i < |rows| && rows[i].Some?
    requires forall j :: i < j < |rows| ==> rows[j].None? || rows[j].value.1 != rows[i].value.1
    ensures rows[i].value.1 in AliasMap(rows) && AliasMap(rows)[rows[i].value.1] == rows[i].value.0
  {
    if i < |rows| - 1 {
      var init := rows[..|rows| - 1];
      assert forall j :: 0 <= j < |init| ==> init[j] == rows[j];
      AliasMapLastWins(init, i);
    }
  }

  /** The parsed rows of a `zypper repos` listing. */
  function AliasRows(lines: seq<string>): (rows: seq<Option<(string, string)>>)
    ensures |rows| == |lines|
  {
    seq(|lines|, i requires 0 <= i < |lines| => AliasRow(lines[i]))
  }

  /** `getRepoAliases`: the alias map of the `zypper repos` rows. */
  function RepoAliases(lines: seq<string>): map<string, string> {
    AliasMap(AliasRows(lines))
  }

  /** A repository has an alias exactly when some row names it. */
  lemma RepoAliasesKeys(lines: seq<string>, name: string)
    ensures name in RepoAliases(lines) <==>
            exists i :: 0 <= i < |lines| && AliasRow(lines[i]).Some? && AliasRow(lines[i]).value.1 == name
  {
    var rows := AliasRows(lines);
    AliasMapKeys(rows, name);
    assert forall i :: 0 <= i < |lines| ==> rows[i] == AliasRow(lines[i]);
  }

  /** The alias recorded for a name is the one on the last row naming it. */
  lemma RepoAliasesLastWins(lines: seq<string>, i: nat)
    requires i < |lines| && AliasRow(lines[i]).Some?
    requires forall j :: i < j < |lines| ==> AliasRow(lines[j]).None? || AliasRow(lines[j]).value.1 != AliasRow(lines[i]).value.1
    ensures AliasRow(lines[i]).value.1 in RepoAliases(lines)
    ensures RepoAliases(lines)[AliasRow(lines[i]).value.1] == AliasRow(lines[i]).value.0
  {
    var rows := AliasRows(lines);
    AliasMapLastWins(rows, i);
  }

  const KernelPrefix := "kernel-"
  const DebuginfoSuffix := "-debuginfo"

  /** `^kernel-([^-]+)-debuginfo$`: the flavour between "kernel-" and
      "-debuginfo", which must be non-empty and free of '-'. */
  function KernelFlavor(name: string): (r: Option<string>)
    ensures r.Some? ==> |r.value| > 0 && '-' !in r.value && name == KernelPrefix + r.value + DebuginfoSuffix
  {
    if HasPrefix(name, KernelPrefix) && HasSuffix(name, DebuginfoSuffix)
       && |name| > |KernelPrefix| + |DebuginfoSuffix|
    then
      var f := name[|KernelPrefix|..|name| - |DebuginfoSuffix|];
      assert name == name[..|KernelPrefix|] + f + name[|name| - |DebuginfoSuffix|..];
      if '-' in f then None else Some(f)
    else None
  }

  /** The pattern accepts exactly the names built from a non-empty, dash-free
      flavour. */
  lemma KernelFlavorRoundTrip(f: string)
    requires |f| > 0 && '-' !in f
    ensures KernelFlavor(KernelPrefix + f + DebuginfoSuffix) == Some(f)
  {
    var name := KernelPrefix + f + DebuginfoSuffix;
    assert name[..|KernelPrefix|] == KernelPrefix;
    assert name[|name| - |DebuginfoSuffix|..] == DebuginfoSuffix;
    assert name[|KernelPrefix|..|name| - |DebuginfoSuffix|] == f;
  }

  /** The version the BTF file is named after: the package version without
      its last '.'-component, a build counter that `uname -r` does not show. */
  function BTFVersion(ver: string): (r: string)
    ensures match LastIndexOf(ver, '.') case Some(i) => r == ver[..i] case None => r == ""
  {
    var parts := SplitOn(ver, {'.'});
    JoinDropLast(ver, '.');
    Join(parts[..|parts| - 1], '.')
  }

  /** What one `zypper search -s` row gives: an error for a kernel package
      of a repository without an alias, else a package or nothing. */
  function PackageRow(aliases: map<string, string>, line: string, arch: string)
    : (r: Result<Option<SusePackage>, string>)
    ensures r.Err? ==> exists repo :: repo !in aliases && r.error == "unknown repo " + repo
    ensures r.Ok? && r.value.Some? ==>
              && r.value.value.flavor != "preempt"
              && r.value.value.architecture == arch
              && KernelFlavor(r.value.value.name) == Some(r.value.value.flavor)
              && r.value.value.repo in aliases
              && r.value.value.downloadDir == "/var/cache/zypp/packages/" + aliases[r.value.value.repo] + "/" + arch
  {
    var fields := Fields(line, TableSeps);
    if |fields| < 5 then Ok(None)
    else
      var name, ver, pkgarch, repo := fields[0], fields[2], fields[3], fields[4];
      if pkgarch != arch then Ok(None)
      else match KernelFlavor(name)
        case None => Ok(None)
        case Some(flavor) =>
          if repo !in aliases then Err("unknown repo " + repo)
          else if flavor == "preempt" then Ok(None)
          else Ok(Some(SusePackage(
            name, ver + "-" + flavor, BTFVersion(ver) + "-" + flavor, pkgarch,
            KernelVersion.NewKernelVersion(ver), repo, flavor,
            "/var/cache/zypp/packages/" + aliases[repo] + "/" + arch)))
  }

  /** A row fails exactly when it lists a kernel debug-info package of the
      requested architecture from a repository with no alias, whatever its
      flavour: the alias is looked up before "preempt" kernels are skipped. */
  lemma PackageRowErrors(aliases: map<string, string>, line: string, arch: string)
    ensures var fields := Fields(line, TableSeps);
            PackageRow(aliases, line, arch).Err? <==>
              |fields| >= 5 && fields[3] == arch && KernelFlavor(fields[0]).Some? && fields[4] !in aliases
  {
  }

  /** The file names of a package: the version and flavour, and for the BTF
      file the version without its build counter. */
  lemma PackageRowNames(aliases: map<string, string>, line: string, arch: string)
    requires PackageRow(aliases, line, arch).Ok? && PackageRow(aliases, line, arch).value.Some?
    ensures var p := PackageRow(aliases, line, arch).value.value;
            var ver := Fields(line, TableSeps)[2];
            && p.nameOfFile == ver + "-" + p.flavor
            && p.kernelVersion == KernelVersion.NewKernelVersion(ver)
            && p.nameOfBTFFile == (match LastIndexOf(ver, '.') case Some(i) => ver[..i] case None => "") + "-" + p.flavor
  {
  }

  /** The values of row results in order, or the first row's error. */
  function Collect<T>(rows: seq<Result<Option<T>, string>>): (r: Result<seq<T>, string>)
    ensures r.Ok? ==> |r.value| <= |rows|
  {
    if |rows| == 0 then Ok([])
    else match rows[0]
      case Err(e) => Err(e)
      case Ok(None) => Collect(rows[1..])
      case Ok(Some(p)) =>
        match Collect(rows[1..])
        case Err(e) => Err(e)
        case Ok(ps) => Ok([p] + ps)
  }

  /** Rows collect when none has an error, and then into exactly their values. */
  lemma {:induction false} CollectOk<T>(rows: seq<Result<Option<T>, string>>)
    ensures Collect(rows).Ok? <==> forall i :: 0 <= i < |rows| ==> rows[i].Ok?
    ensures Collect(rows).Ok? ==> forall p :: p in Collect(rows).value <==> exists i :: 0 <= i < |rows| && rows[i] == Ok(Some(p))
  {
    if |rows| > 0 {
      var tail := rows[1..];
      CollectOk(tail);
      assert forall i :: 1 <= i < |rows| ==> rows[i] == tail[i - 1];
      if Collect(rows).Ok? {
        forall p
          ensures p in Collect(rows).value <==> exists i :: 0 <= i < |rows| && rows[i] == Ok(Some(p))
        {
          if exists i :: 0 <= i < |rows| && rows[i] == Ok(Some(p)) {
            var i :| 0 <= i < |rows| && rows[i] == Ok(Some(p));
            if i > 0 {
              assert tail[i - 1] == Ok(Some(p));
            }
          }
          if p in Collect(tail).value {
            var i :| 0 <= i < |tail| && tail[i] == Ok(Some(p));
            assert rows[i + 1] == Ok(Some(p));
          }
        }
      }
    }
  }

  /** A failed collection reports the error of the first failing row. */
  lemma {:induction false} CollectErr<T>(rows: seq<Result<Option<T>, string>>)
    requires Collect(rows).Err?
    ensures exists i :: 0 <= i < |rows| && rows[i] == Err(Collect(rows).error)
                        && forall j :: 0 <= j < i ==> rows[j].Ok?
  {
    var e := Collect(rows).error;
    if rows[0].Err? {
      assert rows[0] == Err(e);
    } else {
      var tail := rows[1..];
      CollectErr(tail);
      var i :| 0 <= i < |tail| && tail[i] == Err(e) && forall j :: 0 <= j < i ==> tail[j].Ok?;
      assert rows[i + 1] == Err(e);
      forall j | 0 <= j < i + 1
        ensures rows[j].Ok?
      {
        if j > 0 {
          assert rows[j] == tail[j - 1];
        }
      }
    }
  }

  /** The row results of a `zypper search -s` listing. */
  function PackageRows(aliases: map<string, string>, lines: seq<string>, arch: string)
    : (rows: seq<Result<Option<SusePackage>, string>>)
    ensures |rows| == |lines|
  {
    seq(|lines|, i requires 0 <= i < |lines| => PackageRow(aliases, lines[i], arch))
  }

  /** `parseZypperPackages`: the packages of the rows in order, or the error
      of the first row that has one. */
  function ParseZypperPackages(aliases: map<string, string>, lines: seq<string>, arch: string)
    : Result<seq<SusePackage>, string>
  {
    Collect(PackageRows(aliases, lines, arch))
  }

  /** The listing parses exactly when no row has an error. */
  lemma ParseZypperPackagesOk(aliases: map<string, string>, lines: seq<string>, arch: string)
    ensures ParseZypperPackages(aliases, lines, arch).Ok? <==>
            forall i :: 0 <= i < |lines| ==> PackageRow(aliases, lines[i], arch).Ok?
  {
    var rows := PackageRows(aliases, lines, arch);
    CollectOk(rows);
    assert forall i :: 0 <= i < |lines| ==> rows[i] == PackageRow(aliases, lines[i], arch);
  }

  /** A parsed listing holds exactly the packages of its rows. */
  lemma ParseZypperPackagesMembers(aliases: map<string, string>, lines: seq<string>, arch: string, p: SusePackage)
    requires ParseZypperPackages(aliases, lines, arch).Ok?
    ensures p in ParseZypperPackages(aliases, lines, arch).value <==>
            exists i :: 0 <= i < |lines| && PackageRow(aliases, lines[i], arch) == Ok(Some(p))
  {
    var rows := PackageRows(aliases, lines, arch);
    CollectOk(rows);
    assert forall i :: 0 <= i < |lines| ==> rows[i] == PackageRow(aliases, lines[i], arch);
  }

  /** A failed listing reports the error of its first failing row. */
  lemma ParseZypperPackagesErr(aliases: map<string, string>, lines: seq<string>, arch: string)
    requires ParseZypperPackages(aliases, lines, arch).Err?
    ensures exists i :: 0 <= i < |lines| && PackageRow(aliases, lines[i], arch) == Err(ParseZypperPackages(aliases, lines, arch).error)
                        && forall j :: 0 <= j < i ==> PackageRow(aliases, lines[j], arch).Ok?
  {
    var rows := PackageRows(aliases, lines, arch);
    CollectErr(rows);
    assert forall i :: 0 <= i < |lines| ==> rows[i] == PackageRow(aliases, lines[i], arch);
  }

  /** The error of a failed listing names a repository with no alias. */
  lemma ParseZypperPackagesUnknownRepo(aliases: map<string, string>, lines: seq<string>, arch: string)
    requires ParseZypperPackages(aliases, lines, arch).Err?
    ensures exists repo :: repo !in aliases && ParseZypperPackages(aliases, lines, arch).error == "unknown repo " + repo
  {
    ParseZypperPackagesErr(aliases, lines, arch);
    var i :| 0 <= i < |lines| && PackageRow(aliases, lines[i], arch) == Err(ParseZypperPackages(aliases, lines, arch).error);
    assert PackageRow(aliases, lines[i], arch).Err?;
  }

  /** The parsed records as the packages the processing loop takes. */
  function AsPackages(s: seq<SusePackage>): (r: seq<Package>)
    ensures |r| == |s|
    ensures forall p :: p in r <==> p.Suse? && p.suse in s
  {
    if |s| == 0 then [] else [Suse(s[0])] + AsPackages(s[1..])
  }

  /** The flavour groups, each sorted ascending by version. */
  function Groups(pkgs: seq<SusePackage>): FlavorGroups.Groups {
    FlavorGroups.SortGroups(FlavorGroups.GroupByFlavor(AsPackages(pkgs)))
  }

  /** Every parsed package is a kernel of the requested architecture whose
      flavour is not "preempt", from a repository with an alias. */
  lemma ParsedPackage(aliases: map<string, string>, lines: seq<string>, arch: string, p: SusePackage)
    requires ParseZypperPackages(aliases, lines, arch).Ok?
    requires p in ParseZypperPackages(aliases, lines, arch).value
    ensures p.flavor != "preempt" && p.architecture == arch && p.repo in aliases
    ensures KernelFlavor(p.name) == Some(p.flavor)
  {
    ParseZypperPackagesMembers(aliases, lines, arch, p);
    var j :| 0 <= j < |lines| && PackageRow(aliases, lines[j], arch) == Ok(Some(p));
  }

  /** A package in a group came from the listing with the group's flavour;
      every group is sorted, and there is no "preempt" group. */
  lemma GroupsOfParsed(ps: seq<SusePackage>, f: string, x: Package)
    requires f in Groups(ps) && x in Groups(ps)[f]
    ensures x.Suse? && x.suse.flavor == f && x.suse in ps
    ensures VersionSort.Sorted(Groups(ps)[f])
  {
    FlavorGroups.GroupedMember(AsPackages(ps), f, x);
  }

  /** Every group is the flavour of some package of the listing. */
  lemma GroupFlavorOfListing(ps: seq<SusePackage>, f: string)
    requires f in Groups(ps)
    ensures exists p :: p in ps && p.flavor == f
  {
    FlavorGroups.GroupKeyHasMember(AsPackages(ps), f);
    var x :| x in AsPackages(ps) && x.Flavor() == f;
    assert x == Suse(x.suse) && x.suse in ps;
  }

  /** The groups of a parsed listing have no "preempt" group. */
  lemma NoPreemptGroup(aliases: map<string, string>, lines: seq<string>, arch: string)
    requires ParseZypperPackages(aliases, lines, arch).Ok?
    ensures "preempt" !in Groups(ParseZypperPackages(aliases, lines, arch).value)
  {
    var ps := ParseZypperPackages(aliases, lines, arch).value;
    if "preempt" in Groups(ps) {
      GroupFlavorOfListing(ps, "preempt");
      var p :| p in ps && p.flavor == "preempt";
      ParsedPackage(aliases, lines, arch, p);
    }
  }
}
