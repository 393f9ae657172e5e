/** The listings of `yum search` (RHEL) and `repoquery` (Amazon Linux): one
    package per line, "kernel-debuginfo-<version>.<arch> : <summary>" and
    "kernel-debuginfo-<epoch>:<version>.<arch>" respectively. */
module Yum {
  import opened Wrappers
  import opened Text
  import KernelVersion
  import opened Packages
  import opened Collections

  const DebuginfoPrefix := "kernel-debuginfo-"
  const CommonPrefix := "kernel-debuginfo-common-"

  /** Only debug-info lines that are not the "common" package can describe a
      kernel. */
  predicate Candidate(line: string) {
    HasPrefix(line, DebuginfoPrefix) && !HasPrefix(line, CommonPrefix)
  }

  /** A file name split at its last '.' into version text and architecture. */
  function SplitArch(filename: string): (r: Option<(string, string)>)
    ensures r.Some? ==> r.value.0 + "." + r.value.1 == filename && '.' !in r.value.1
    ensures r.None? <==> '.' !in filename
  {
    match LastIndexOf(filename, '.')
    case None => None
    case Some(i) =>
      var tail := filename[i + 1..];
      assert filename == filename[..i] + "." + tail;
      assert forall k :: 0 <= k < |tail| ==> tail[k] == filename[i + 1 + k];
      Some((filename[..i], tail))
  }

  /** The record a file name describes: its version is the text before the
      last '.', its architecture the text after it. */
  function FromFilename(name: string, filename: string): Option<RhelPackage> {
    match SplitArch(filename)
    case None => None
    case Some((ver, arch)) => Some(RhelPackage(name, arch, KernelVersion.NewKernelVersion(ver), filename))
  }

  /** A `yum search` line: the name is the text before the first ':' without
      surrounding white space, and the file name is the name without
      "kernel-debuginfo-". */
  function YumLine(line: string): (r: Option<RhelPackage>)
    ensures r.Some? ==> Candidate(line) && r.value.nameOfFile == TrimPrefix(r.value.name, DebuginfoPrefix)
  {
    if !Candidate(line) then None
    else match Cut(line, ":")
      case None => None
      case Some((before, _)) =>
        var name := TrimSpace(before);
        FromFilename(name, TrimPrefix(name, DebuginfoPrefix))
  }

  /** A `repoquery` line: the version is everything after the first ':',
      untrimmed; it is also the file name, and the name is "kernel-debuginfo-"
      and the version, so the epoch before the ':' is dropped. */
  function RepoqueryLine(line: string): (r: Option<RhelPackage>)
    ensures r.Some? ==> Candidate(line) && r.value.name == DebuginfoPrefix + r.value.nameOfFile
  {
    if !Candidate(line) then None
    else match Cut(line, ":")
      case None => None
      case Some((_, version)) => FromFilename(DebuginfoPrefix + version, version)
  }

  /** The minimum-version filter: a zero minimum keeps everything, any other
      drops versions below it. */
  predicate AboveMin(p: RhelPackage, min: KernelVersion.Version) {
    !(!KernelVersion.IsZero(min) && KernelVersion.Less(p.kernelVersion, min))
  }

  function Keep(parse: string -> Option<RhelPackage>, min: KernelVersion.Version, line: string)
    : Option<RhelPackage>
  {
    match parse(line)
    case Some(p) => if AboveMin(p, min) then Some(p) else None
    case None => None
  }

  /** `parseYumPackages` of rhel.go: the kept records in line order,
      duplicates included. */
  function ParseOrdered(parse: string -> Option<RhelPackage>, lines: seq<string>, min: KernelVersion.Version)
    : (r: seq<RhelPackage>)
    ensures forall p :: p in r <==> exists l :: l in lines && parse(l) == Some(p) && AboveMin(p, min)
  {
    FilterMap(l => Keep(parse, min, l), lines)
  }

  /** The parse of consecutive runs of lines is the concatenation of their
      parses: line order and duplicates are kept. */
  lemma ParseOrderedAppend(parse: string -> Option<RhelPackage>, a: seq<string>, b: seq<string>,
                           min: KernelVersion.Version)
    ensures ParseOrdered(parse, a + b, min) == ParseOrdered(parse, a, min) + ParseOrdered(parse, b, min)
  {
    FilterMapAppend(l => Keep(parse, min, l), a, b);
  }

  /** One more line appends its record exactly when it parses and is not
      below the minimum. */
  lemma ParseOrderedSnoc(parse: string -> Option<RhelPackage>, lines: seq<string>, l: string,
                         min: KernelVersion.Version)
    ensures ParseOrdered(parse, lines + [l], min)
            == ParseOrdered(parse, lines, min)
               + (if parse(l).Some? && AboveMin(parse(l).value, min) then [parse(l).value] else [])
  {
    var s := lines + [l];
    assert s[..|s| - 1] == lines && s[|s| - 1] == l;
  }

  function NameKey(p: RhelPackage): string {
    p.name
  }

  /** `parseYumPackages` of pkg/repo/utils.go and `parseRepoqueryPackages`:
      the same loop, storing each kept record under its name unless the name
      is already taken. The result is the map; Go returns its values in no
      fixed order. */
  method ParseDeduplicated(parse: string -> Option<RhelPackage>, lines: seq<string>, min: KernelVersion.Version)
    returns (pkgs: map<string, RhelPackage>)
    ensures pkgs == FirstWinsBy(NameKey, ParseOrdered(parse, lines, min))
    ensures forall k :: k in pkgs ==> pkgs[k].name == k && AboveMin(pkgs[k], min)
    ensures forall k :: k in pkgs ==> exists l :: l in lines && parse(l) == Some(pkgs[k])
  {
    pkgs := map[];
    var i := 0;
    while i < |lines|
      invariant 0 <= i <= |lines|
      invariant pkgs == FirstWinsBy(NameKey, ParseOrdered(parse, lines[..i], min))
    {
      var before := ParseOrdered(parse, lines[..i], min);
      assert lines[..i + 1] == lines[..i] + [lines[i]];
      assert lines[..i + 1][..i] == lines[..i];
      match parse(lines[i]) {
        case Some(p) =>
          if AboveMin(p, min) {
            assert ParseOrdered(parse, lines[..i + 1], min) == before + [p];
            FirstWinsBySnoc(NameKey, before, p);
            if p.name !in pkgs {
              pkgs := pkgs[p.name := p];
            }
          } else {
            assert ParseOrdered(parse, lines[..i + 1], min) == before;
          }
        case None =>
          assert ParseOrdered(parse, lines[..i + 1], min) == before;
      }
      i := i + 1;
    }
    assert lines[..i] == lines;
    var all := ParseOrdered(parse, lines, min);
    forall k | k in pkgs
      ensures AboveMin(pkgs[k], min) && exists l :: l in lines && parse(l) == Some(pkgs[k])
    {
      assert all[FirstIndexBy(NameKey, all, k).value] in all;
    }
  }

  /** A line starting with the prefix and then a digit is a candidate. */
  lemma DigitLineIsCandidate(rest: string)
    requires |rest| > 0 && IsDigit(rest[0])
    ensures Candidate(DebuginfoPrefix + rest)
  {
    var line := DebuginfoPrefix + rest;
    assert line[..|DebuginfoPrefix|] == DebuginfoPrefix;
    assert line[|DebuginfoPrefix|] == rest[0];
    assert CommonPrefix[|DebuginfoPrefix|] == 'c';
  }

  lemma SplitArchOf(ver: string, arch: string)
    requires '.' !in arch
    ensures SplitArch(ver + "." + arch) == Some((ver, arch))
  {
    LastIndexAt(ver, '.', arch);
    var f := ver + "." + arch;
    assert f[..|ver|] == ver && f[|ver| + 1..] == arch;
  }

  /** A candidate line "<name> : <summary>" whose name has no ':' and no
      surrounding white space describes the file named by the name. */
  lemma YumLineOfName(line: string, name: string, summary: string)
    requires Candidate(line) && line == name + " " + [':'] + (" " + summary)
    requires ':' !in name + " " && |name| > 0 && !IsSpace(name[0]) && !IsSpace(name[|name| - 1])
    ensures YumLine(line) == FromFilename(name, TrimPrefix(name, DebuginfoPrefix))
  {
    CutAtFirst(name + " ", ':', " " + summary);
    assert Cut(line, ":") == Some((name + " ", " " + summary));
    TrimSpaceTrailing(name, " ");
  }

  /** The name "kernel-debuginfo-<ver>.<arch>" has no ':' when neither part has. */
  lemma NameAvoidsColon(ver: string, arch: string)
    requires ':' !in ver && ':' !in arch
    ensures ':' !in DebuginfoPrefix + ver + "." + arch + " "
  {
    var name := DebuginfoPrefix + ver + "." + arch + " ";
    assert forall k :: 0 <= k < |name| ==> name[k] == (if k < |DebuginfoPrefix| then DebuginfoPrefix[k]
      else if k < |DebuginfoPrefix| + |ver| then ver[k - |DebuginfoPrefix|]
      else if k == |DebuginfoPrefix| + |ver| then '.'
      else if k < |name| - 1 then arch[k - |DebuginfoPrefix| - |ver| - 1] else ' ');
  }

  /** A `yum search` line for version `ver` and architecture `arch` parses
      back to the package of that version and architecture. */
  lemma YumLineRoundTrip(ver: string, arch: string, summary: string)
    requires |ver| > 0 && IsDigit(ver[0]) && ':' !in ver
    requires |arch| > 0 && '.' !in arch && ':' !in arch && !IsSpace(arch[|arch| - 1])
    ensures YumLine(DebuginfoPrefix + ver + "." + arch + " : " + summary) ==
              Some(RhelPackage(DebuginfoPrefix + ver + "." + arch, arch, KernelVersion.NewKernelVersion(ver),
                               ver + "." + arch))
  {
    var filename := ver + "." + arch;
    var name := DebuginfoPrefix + ver + "." + arch;
    var line := DebuginfoPrefix + ver + "." + arch + " : " + summary;
    assert name == DebuginfoPrefix + filename;
    assert line == name + " " + [':'] + (" " + summary);
    assert DebuginfoPrefix + (filename + " : " + summary) == line;
    assert name[0] == 'k' && name[|name| - 1] == arch[|arch| - 1];
    assert name[..|DebuginfoPrefix|] == DebuginfoPrefix;
    DigitLineIsCandidate(filename + " : " + summary);
    NameAvoidsColon(ver, arch);
    YumLineOfName(line, name, summary);
    SplitArchOf(ver, arch);
  }

  /** A `repoquery` line "kernel-debuginfo-<epoch>:<ver>.<arch>" parses to
      the package named without the epoch. */
  lemma RepoqueryLineRoundTrip(epoch: string, ver: string, arch: string)
    requires |epoch| > 0 && IsDigit(epoch[0]) && ':' !in epoch && '.' !in arch
    ensures RepoqueryLine(DebuginfoPrefix + epoch + ":" + ver + "." + arch) ==
              Some(RhelPackage(DebuginfoPrefix + ver + "." + arch, arch, KernelVersion.NewKernelVersion(ver),
                               ver + "." + arch))
  {
    var version := ver + "." + arch;
    assert DebuginfoPrefix + ver + "." + arch == DebuginfoPrefix + version;
    var head := DebuginfoPrefix + epoch;
    var line := DebuginfoPrefix + epoch + ":" + ver + "." + arch;
    assert line == head + [':'] + version;
    DigitLineIsCandidate(epoch + ":" + version);
    assert DebuginfoPrefix + (epoch + ":" + version) == line;
    assert ':' !in head by {
      assert forall k :: 0 <= k < |head| ==> head[k] == (if k < |DebuginfoPrefix| then DebuginfoPrefix[k]
        else epoch[k - |DebuginfoPrefix|]);
    }
    CutAtFirst(head, ':', version);
    SplitArchOf(ver, arch);
    assert Cut(line, ":") == Some((head, version));
    assert FromFilename(DebuginfoPrefix + version, version) ==
             Some(RhelPackage(DebuginfoPrefix + version, arch, KernelVersion.NewKernelVersion(ver), version));
    assert RepoqueryLine(line) == FromFilename(DebuginfoPrefix + version, version);
  }

  /** Amazon Linux: `parseRepoqueryPackages` called with the zero minimum,
      so no version is dropped; every package a line describes has its name
      in the result. */
  method AmazonPackages(lines: seq<string>) returns (pkgs: map<string, RhelPackage>)
    ensures forall l :: l in lines && RepoqueryLine(l).Some? ==> RepoqueryLine(l).value.name in pkgs
    ensures forall k :: k in pkgs ==> pkgs[k].name == k && exists l :: l in lines && RepoqueryLine(l) == Some(pkgs[k])
  {
    var zero := KernelVersion.NewKernelVersion("");
    pkgs := ParseDeduplicated(RepoqueryLine, lines, zero);
    forall l | l in lines && RepoqueryLine(l).Some?
      ensures RepoqueryLine(l).value.name in pkgs
    {
      var p := RepoqueryLine(l).value;
      assert p in ParseOrdered(RepoqueryLine, lines, zero);
      FirstWinsByCovers(NameKey, ParseOrdered(RepoqueryLine, lines, zero), p);
    }
  }
}
