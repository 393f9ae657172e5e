/** The parser of APT `Packages` indices (Debian control files: stanzas of
    "Key: value" lines separated by empty lines, continuation lines starting
    with a space). The three copies in the repository differ only in whether
    packages carry a release and whether a size floor applies; a `Dialect`
    names the difference. */
module Apt {
  import opened Wrappers
  import opened Text
  import KernelVersion
  import opened Packages

  /** How one copy of the parser behaves: the base URL of the `Filename`
      field, the release every package is tagged with (empty where the record
      has none), and whether valid packages must be larger than 10,000,000
      bytes. */
  datatype Dialect = Dialect(repoURL: string, release: string, sizeFloor: bool)

  const KernelPrefix := "linux-image-"
  const SizeFloor: nat := 10_000_000

  /** A fresh record: everything empty or zero except the release. */
  function Fresh(d: Dialect): (p: UbuntuPackage)
    ensures p.release == d.release
  {
    UbuntuPackage("", "", KernelVersion.Version("", []), "", "", 0, d.release, "")
  }

  /** The file name derived from a package name: "linux-image-" removed from
      the front, "-dbgsym" then "-dbg" from the end, then "unsigned-" from the
      front, each at most once. */
  function DeriveFileName(name: string): string {
    var fn := TrimPrefix(name, KernelPrefix);
    var fn := TrimSuffix(fn, "-dbgsym");
    var fn := TrimSuffix(fn, "-dbg");
    TrimPrefix(fn, "unsigned-")
  }

  /** A plain kernel file name: no affix the derivation would strip. */
  predicate PlainFileName(f: string) {
    !HasSuffix(f, "dbgsym") && !HasSuffix(f, "dbg") && !HasPrefix(f, "unsigned-")
  }

  /** A string that does not end in the tail of `p` does not end in `p`. */
  lemma NotSuffixByTail(s: string, p: string)
    requires |p| > 0 && !HasSuffix(s, p[1..])
    ensures !HasSuffix(s, p)
  {
    if |p| <= |s| {
      assert s[|s| - |p|..][1..] == s[|s| - |p| + 1..];
    }
  }

  /** Prefixing "unsigned-" cannot create a dash-free suffix. */
  lemma UnsignedSuffix(f: string, p: string)
    requires '-' !in p && !HasSuffix(f, p)
    ensures !HasSuffix("unsigned-" + f, p)
  {
    var u := "unsigned-" + f;
    if |p| <= |f| {
      assert u[|u| - |p|..] == f[|f| - |p|..];
    } else if |p| <= |u| {
      assert u[|u| - |f| - 1] == '-';
      assert u[|u| - |p|..][|p| - |f| - 1] == '-';
    }
  }

  /** The signed image, the unsigned image and its debug-symbol package all
      derive the same file name; the debug package name is what the pseudo
      packages are given, so that name round-trips too. */
  lemma DeriveFileNameOfKernelNames(f: string)
    requires PlainFileName(f)
    ensures DeriveFileName(KernelPrefix + f) == f
    ensures DeriveFileName(KernelPrefix + "unsigned-" + f) == f
    ensures DeriveFileName(KernelPrefix + "unsigned-" + f + "-dbgsym") == f
    ensures DeriveFileName(KernelPrefix + f + "-dbgsym") == f
  {
    NotSuffixByTail(f, "-dbgsym");
    NotSuffixByTail(f, "-dbg");
    assert HasPrefix(KernelPrefix + f, KernelPrefix);
    var u := "unsigned-" + f;
    UnsignedSuffix(f, "dbgsym");
    UnsignedSuffix(f, "dbg");
    NotSuffixByTail(u, "-dbgsym");
    NotSuffixByTail(u, "-dbg");
    assert KernelPrefix + "unsigned-" + f == KernelPrefix + u;
    assert HasPrefix(KernelPrefix + u, KernelPrefix);
    assert HasPrefix(u, "unsigned-");
    var w := u + "-dbgsym";
    assert KernelPrefix + "unsigned-" + f + "-dbgsym" == KernelPrefix + w;
    assert HasPrefix(KernelPrefix + w, KernelPrefix);
    assert HasSuffix(w, "-dbgsym");
    var v := f + "-dbgsym";
    assert KernelPrefix + f + "-dbgsym" == KernelPrefix + v;
    assert HasPrefix(KernelPrefix + v, KernelPrefix);
    assert HasSuffix(v, "-dbgsym");
  }

  /** The keys the parser reads; every other key is ignored. */
  const Keys: set<string> := {"Package", "Architecture", "Version", "Filename", "Size"}

  /** The key and value of a line: lines starting with a space (continuations)
      and lines without ": " carry none. The value follows the first ": ". */
  function LineField(line: string): (r: Option<(string, string)>)
    ensures r.Some? ==> |line| > 0 && line[0] != ' ' && r.value.0 + ": " + r.value.1 == line
    ensures r.None? && |line| > 0 && line[0] != ' ' ==> forall k :: 0 <= k <= |line| ==> !OccursAt(line, ": ", k)
  {
    if |line| == 0 || line[0] == ' ' then None else Cut(line, ": ")
  }

  /** The record after reading one line of its stanza. */
  function ApplyLine(d: Dialect, p: UbuntuPackage, line: string): (r: UbuntuPackage)
    ensures r.release == p.release && r.flavor == p.flavor
    ensures LineField(line).None? ==> r == p
    ensures LineField(line).Some? && LineField(line).value.0 !in Keys ==> r == p
    ensures r.name != p.name ==> LineField(line) == Some(("Package", r.name))
    ensures r.nameOfFile != p.nameOfFile ==> r.nameOfFile == DeriveFileName(r.name)
    ensures r.architecture != p.architecture ==> LineField(line) == Some(("Architecture", r.architecture))
    ensures r.kernelVersion != p.kernelVersion ==>
              LineField(line).Some? && LineField(line).value.0 == "Version"
              && r.kernelVersion == KernelVersion.NewKernelVersion(LineField(line).value.1)
    ensures r.url != p.url ==>
              LineField(line).Some? && LineField(line).value.0 == "Filename"
              && r.url == d.repoURL + "/" + LineField(line).value.1
    ensures r.size != p.size ==>
              LineField(line).Some? && LineField(line).value.0 == "Size"
              && ParseUint(LineField(line).value.1) == Some(r.size as nat)
    ensures LineField(line).Some? && LineField(line).value.0 == "Package" ==>
              r.name == LineField(line).value.1 && r.nameOfFile == DeriveFileName(r.name)
    ensures LineField(line).Some? && LineField(line).value.0 == "Architecture" ==>
              r.architecture == LineField(line).value.1
    ensures LineField(line).Some? && LineField(line).value.0 == "Version" ==>
              r.kernelVersion == KernelVersion.NewKernelVersion(LineField(line).value.1)
    ensures LineField(line).Some? && LineField(line).value.0 == "Filename" ==>
              r.url == d.repoURL + "/" + LineField(line).value.1
    ensures LineField(line).Some? && LineField(line).value.0 == "Size" ==>
              match ParseUint(LineField(line).value.1)
              case Some(n) => r.size as nat == n
              case None => r.size == p.size
  {
    match LineField(line)
    case None => p
    case Some((key, val)) =>
      if key == "Package" then p.(name := val, nameOfFile := DeriveFileName(val))
      else if key == "Architecture" then p.(architecture := val)
      else if key == "Version" then p.(kernelVersion := KernelVersion.NewKernelVersion(val))
      else if key == "Filename" then p.(url := d.repoURL + "/" + val)
      else if key == "Size" then
        match ParseUint(val)
        case Some(n) => p.(size := n)
        case None => p
      else p
  }

  /** The record built from the lines of one stanza, read in order. Its file
      name is always the one derived from its name, and a URL, once set, is
      under the repository. */
  function Assemble(d: Dialect, stanza: seq<string>): (p: UbuntuPackage)
    ensures p.release == d.release && p.flavor == ""
    ensures p.nameOfFile == DeriveFileName(p.name)
    ensures p.url == "" || HasPrefix(p.url, d.repoURL + "/")
  {
    if |stanza| == 0 then Fresh(d)
    else
      var q := Assemble(d, stanza[..|stanza| - 1]);
      var r := ApplyLine(d, q, stanza[|stanza| - 1]);
      assert r.url != q.url ==> HasPrefix(r.url, d.repoURL + "/") by {
        if r.url != q.url {
          assert r.url[..|d.repoURL + "/"|] == d.repoURL + "/";
        }
      }
      r
  }

  /** The value of the last line of `stanza` whose key is `key`. */
  function LastValue(stanza: seq<string>, key: string): Option<string> {
    if |stanza| == 0 then None
    else
      var f := LineField(stanza[|stanza| - 1]);
      if f.Some? && f.value.0 == key then Some(f.value.1)
      else LastValue(stanza[..|stanza| - 1], key)
  }

  /** The last "Size" value of `stanza` that parses as a 64-bit number; a
      "Size" line whose value does not parse is passed over. */
  function LastSize(stanza: seq<string>): Option<nat> {
    if |stanza| == 0 then None
    else
      var f := LineField(stanza[|stanza| - 1]);
      if f.Some? && f.value.0 == "Size" && ParseUint(f.value.1).Some? then ParseUint(f.value.1)
      else LastSize(stanza[..|stanza| - 1])
  }

  /** A stanza's record holds, field by field, the value of the stanza's last
      line with that field's key, and the zero value where there is none. */
  lemma {:induction false} AssembleIsLastValues(d: Dialect, stanza: seq<string>)
    ensures var p := Assemble(d, stanza);
            && p.name == (if LastValue(stanza, "Package").Some? then LastValue(stanza, "Package").value else "")
            && p.nameOfFile == DeriveFileName(p.name)
            && p.architecture == (if LastValue(stanza, "Architecture").Some? then LastValue(stanza, "Architecture").value else "")
            && p.kernelVersion == (if LastValue(stanza, "Version").Some?
                                   then KernelVersion.NewKernelVersion(LastValue(stanza, "Version").value)
                                   else KernelVersion.Version("", []))
            && p.url == (if LastValue(stanza, "Filename").Some? then d.repoURL + "/" + LastValue(stanza, "Filename").value else "")
            && p.size as nat == (if LastSize(stanza).Some? then LastSize(stanza).value else 0)
            && p.release == d.release && p.flavor == ""
  {
    if |stanza| > 0 {
      AssembleIsLastValues(d, stanza[..|stanza| - 1]);
    }
  }

  /** `isValid` (with the size floor in the dialect that has one). */
  predicate IsValid(d: Dialect, p: UbuntuPackage) {
    && p.name != "" && p.url != "" && p.nameOfFile != ""
    && KernelVersion.String(p.kernelVersion) != ""
    && (d.sizeFloor ==> p.size > SizeFloor)
  }

  /** A finished record is kept when it names a kernel image and is valid. */
  predicate Keep(d: Dialect, p: UbuntuPackage) {
    HasPrefix(p.name, KernelPrefix) && IsValid(d, p)
  }

  /** The stanzas of a file: the runs of lines between empty lines. There is
      one more stanza than there are empty lines; stanzas may be empty. */
  function Stanzas(lines: seq<string>): (ps: seq<seq<string>>)
    ensures |ps| >= 1
    ensures forall i :: 0 <= i < |ps| ==> "" !in ps[i]
  {
    if |lines| == 0 then [[]]
    else
      var ps := Stanzas(lines[..|lines| - 1]);
      var last := lines[|lines| - 1];
      if last == "" then ps + [[]]
      else ps[..|ps| - 1] + [ps[|ps| - 1] + [last]]
  }

  /** Lines joined back with an empty line between consecutive stanzas. */
  function Unstanza(ps: seq<seq<string>>): seq<string>
    requires |ps| >= 1
  {
    if |ps| == 1 then ps[0]
    else Unstanza(ps[..|ps| - 1]) + [""] + ps[|ps| - 1]
  }

  /** Splitting into stanzas loses nothing: joining them gives the lines back. */
  lemma {:induction false} UnstanzaStanzas(lines: seq<string>)
    ensures Unstanza(Stanzas(lines)) == lines
  {
    if |lines| > 0 {
      var init := lines[..|lines| - 1];
      UnstanzaStanzas(init);
      UnstanzaStep(init, lines[|lines| - 1]);
      assert lines == init + [lines[|lines| - 1]];
    }
  }

  /** The step of `UnstanzaStanzas`: one more line, empty or not. */
  lemma UnstanzaStep(init: seq<string>, last: string)
    requires Unstanza(Stanzas(init)) == init
    ensures Unstanza(Stanzas(init + [last])) == init + [last]
  {
    var lines := init + [last];
    assert lines[..|lines| - 1] == init;
    var ps := Stanzas(init);
    var n := |ps|;
    if last != "" {
      var qs := ps[..n - 1] + [ps[n - 1] + [last]];
      assert Stanzas(lines) == qs;
      if n == 1 {
        assert Unstanza(qs) == ps[0] + [last];
      } else {
        assert qs[..n - 1] == ps[..n - 1];
        assert Unstanza(qs) == Unstanza(ps[..n - 1]) + [""] + (ps[n - 1] + [last]);
        assert Unstanza(ps) == Unstanza(ps[..n - 1]) + [""] + ps[n - 1];
      }
    } else {
      var qs := ps + [[]];
      assert Stanzas(lines) == qs;
      assert qs[..n] == ps;
      assert Unstanza(qs) == Unstanza(ps) + [""] + [];
    }
  }

  /** The records of the given stanzas that are kept, in stanza order. */
  function KeptRecords(d: Dialect, ps: seq<seq<string>>): (out: seq<UbuntuPackage>)
    ensures |out| <= |ps|
    ensures forall i :: 0 <= i < |out| ==> Keep(d, out[i])
  {
    if |ps| == 0 then []
    else
      var p := Assemble(d, ps[|ps| - 1]);
      KeptRecords(d, ps[..|ps| - 1]) + (if Keep(d, p) then [p] else [])
  }

  /** The scanner loop's state: the packages saved so far and the record of
      the stanza being read. */
  datatype ScanState = ScanState(out: seq<UbuntuPackage>, cur: UbuntuPackage)

  function Save(d: Dialect, out: seq<UbuntuPackage>, p: UbuntuPackage): seq<UbuntuPackage> {
    if Keep(d, p) then out + [p] else out
  }

  /** One iteration of the loop: an empty line saves the current record if it
      is kept and starts a fresh one; any other line updates the record. */
  function Step(d: Dialect, st: ScanState, line: string): ScanState {
    if line == "" then ScanState(Save(d, st.out, st.cur), Fresh(d))
    else ScanState(st.out, ApplyLine(d, st.cur, line))
  }

  /** The loop over all lines. */
  function Scan(d: Dialect, lines: seq<string>): ScanState {
    if |lines| == 0 then ScanState([], Fresh(d))
    else Step(d, Scan(d, lines[..|lines| - 1]), lines[|lines| - 1])
  }

  /** `ParseAPTPackages`: the loop, then the last record saved under the same
      condition. */
  function ParsePackages(d: Dialect, lines: seq<string>): seq<UbuntuPackage> {
    var st := Scan(d, lines);
    Save(d, st.out, st.cur)
  }

  /** While scanning, the saved packages are the kept records of the finished
      stanzas and the current record is that of the open stanza. */
  lemma {:induction false} ScanFollowsStanzas(d: Dialect, lines: seq<string>)
    ensures var ps := Stanzas(lines);
            Scan(d, lines) == ScanState(KeptRecords(d, ps[..|ps| - 1]), Assemble(d, ps[|ps| - 1]))
  {
    if |lines| > 0 {
      ScanFollowsStanzas(d, lines[..|lines| - 1]);
      if lines[|lines| - 1] == "" {
        ScanStepBlank(d, lines);
      } else {
        ScanStepLine(d, lines);
      }
    }
  }

  /** The loop's state after the lines of `lines`, in terms of their stanzas. */
  ghost predicate ScanIsStanzas(d: Dialect, lines: seq<string>) {
    var ps := Stanzas(lines);
    Scan(d, lines) == ScanState(KeptRecords(d, ps[..|ps| - 1]), Assemble(d, ps[|ps| - 1]))
  }

  /** An empty line closes the current stanza. */
  lemma ScanStepBlank(d: Dialect, lines: seq<string>)
    requires |lines| > 0 && lines[|lines| - 1] == "" && ScanIsStanzas(d, lines[..|lines| - 1])
    ensures ScanIsStanzas(d, lines)
  {
    var ps := Stanzas(lines[..|lines| - 1]);
    var qs := Stanzas(lines);
    assert qs[..|qs| - 1] == ps;
    assert ps == ps[..|ps| - 1] + [ps[|ps| - 1]];
  }

  /** Any other line extends the current stanza. */
  lemma ScanStepLine(d: Dialect, lines: seq<string>)
    requires |lines| > 0 && lines[|lines| - 1] != "" && ScanIsStanzas(d, lines[..|lines| - 1])
    ensures ScanIsStanzas(d, lines)
  {
    var ps := Stanzas(lines[..|lines| - 1]);
    var qs := Stanzas(lines);
    assert qs[..|qs| - 1] == ps[..|ps| - 1];
    assert qs[|qs| - 1][..|qs[|qs| - 1]| - 1] == ps[|ps| - 1];
  }

  /** The parser returns the kept records of all stanzas, in file order: a
      stanza's record is kept exactly when its name starts with
      "linux-image-" and it is valid, and no other package appears. */
  lemma ParsePackagesIsKeptStanzas(d: Dialect, lines: seq<string>)
    ensures ParsePackages(d, lines) == KeptRecords(d, Stanzas(lines))
  {
    ScanFollowsStanzas(d, lines);
    var ps := Stanzas(lines);
    assert ps == ps[..|ps| - 1] + [ps[|ps| - 1]];
  }

  /** Every parsed package names a kernel image, is valid, carries the
      dialect's release and the file name derived from its name, and has its
      URL under the repository. */
  lemma ParsedPackages(d: Dialect, lines: seq<string>)
    ensures forall p :: p in ParsePackages(d, lines) ==>
              && HasPrefix(p.name, KernelPrefix) && IsValid(d, p)
              && p.release == d.release && p.nameOfFile == DeriveFileName(p.name)
              && HasPrefix(p.url, d.repoURL + "/")
              && (d.sizeFloor ==> p.size > SizeFloor)
  {
    ParsePackagesIsKeptStanzas(d, lines);
    KeptAreAssembled(d, Stanzas(lines));
  }

  /** A "Key: value" line. */
  function KeyValue(key: string, v: string): string {
    key + ": " + v
  }

  /** A "Key: value" line whose key holds no colon and does not start with a
      space carries that key and value; the value may contain ": " itself. */
  lemma KeyLine(key: string, v: string)
    requires |key| > 0 && key[0] != ' ' && ':' !in key
    ensures LineField(KeyValue(key, v)) == Some((key, v))
  {
    var line := KeyValue(key, v);
    assert OccursAt(line, ": ", |key|);
    var r := Cut(line, ": ");
    assert r.Some?;
    var a, b := r.value.0, r.value.1;
    forall j | 0 <= j < |key| ensures !OccursAt(line, ": ", j) {
      assert line[j] == key[j];
    }
    assert line[|a|..|a| + 2] == ": " by {
      assert line == a + ": " + b;
    }
    assert |a| == |key|;
    assert a == line[..|a|] == key;
    assert b == line[|a| + 2..] == v;
  }

  /** The index lines of one package, as a repository publishes them. */
  function RenderStanza(name: string, arch: string, version: string, file: string, size: nat): seq<string> {
    [KeyValue("Package", name), KeyValue("Architecture", arch), KeyValue("Version", version),
     KeyValue("Filename", file), KeyValue("Size", DecimalString(size))]
  }

  /** Without empty lines the whole input is one stanza. */
  lemma {:induction false} StanzasWithoutBlank(lines: seq<string>)
    requires "" !in lines
    ensures Stanzas(lines) == [lines]
  {
    if |lines| > 0 {
      StanzasWithoutBlank(lines[..|lines| - 1]);
      assert lines[..|lines| - 1] + [lines[|lines| - 1]] == lines;
    }
  }

  /** Without empty lines the input is one stanza, whose record is emitted
      exactly when it is kept. */
  lemma ParseSingleStanza(d: Dialect, stanza: seq<string>)
    requires "" !in stanza
    ensures ParsePackages(d, stanza) == if Keep(d, Assemble(d, stanza)) then [Assemble(d, stanza)] else []
  {
    StanzasWithoutBlank(stanza);
    ParsePackagesIsKeptStanzas(d, stanza);
    assert [stanza][..0] == [];
  }

  /** A stanza whose last "Package", "Architecture", "Version", "Filename"
      and parsable "Size" lines carry the given values parses to exactly the
      package with those values, when that package is a valid kernel image. */
  lemma ParseStanzaOfValues(d: Dialect, stanza: seq<string>,
                            name: string, arch: string, version: string, file: string, size: nat)
    requires "" !in stanza
    requires LastValue(stanza, "Package") == Some(name) && LastValue(stanza, "Architecture") == Some(arch)
    requires LastValue(stanza, "Version") == Some(version) && LastValue(stanza, "Filename") == Some(file)
    requires LastSize(stanza) == Some(size)
    requires HasPrefix(name, KernelPrefix) && DeriveFileName(name) != "" && version != ""
    requires d.sizeFloor ==> size > SizeFloor
    ensures size <= MaxUint64
    ensures ParsePackages(d, stanza)
            == [UbuntuPackage(name, arch, KernelVersion.NewKernelVersion(version), DeriveFileName(name),
                              d.repoURL + "/" + file, size, d.release, "")]
  {
    AssembleIsLastValues(d, stanza);
    KernelVersion.NewKernelVersionKeepsString(version);
    ParseSingleStanza(d, stanza);
  }



  /** A line with the key, followed only by lines without it, gives the
      key's last value. */
  lemma {:induction false} LastValueAt(lines: seq<string>, i: nat, key: string, v: string)
    requires i < |lines| && LineField(lines[i]) == Some((key, v))
    requires forall j :: i < j < |lines| ==> LineField(lines[j]).None? || LineField(lines[j]).value.0 != key
    ensures LastValue(lines, key) == Some(v)
  {
    if i < |lines| - 1 {
      LastValueAt(lines[..|lines| - 1], i, key, v);
    }
  }

  /** A "Size" line with a number, followed only by lines that are not "Size"
      lines, gives the last parsable size. */
  lemma {:induction false} LastSizeAt(lines: seq<string>, i: nat, v: string, n: nat)
    requires i < |lines| && LineField(lines[i]) == Some(("Size", v)) && ParseUint(v) == Some(n)
    requires forall j :: i < j < |lines| ==> LineField(lines[j]).None? || LineField(lines[j]).value.0 != "Size"
    ensures LastSize(lines) == Some(n)
  {
    if i < |lines| - 1 {
      LastSizeAt(lines[..|lines| - 1], i, v, n);
    }
  }

  /** The key of a rendered line is its own and no other. */
  lemma KeyOfLine(key: string, v: string, other: string)
    requires |key| > 0 && key[0] != ' ' && ':' !in key && other != key
    ensures LineField(KeyValue(key, v)).Some? && LineField(KeyValue(key, v)).value.0 != other
  {
    KeyLine(key, v);
  }

  /** The rendered "Package" line is the last of its key. */
  lemma RenderedPackage(name: string, arch: string, version: string, file: string, size: nat)
    ensures LastValue(RenderStanza(name, arch, version, file, size), "Package") == Some(name)
  {
    var s := RenderStanza(name, arch, version, file, size);
    KeyLine("Package", name);
    forall j | 0 < j < |s| ensures LineField(s[j]).None? || LineField(s[j]).value.0 != "Package" {
      if j == 1 {
        assert s[j] == KeyValue("Architecture", arch);
        KeyOfLine("Architecture", arch, "Package");
      } else if j == 2 {
        assert s[j] == KeyValue("Version", version);
        KeyOfLine("Version", version, "Package");
      } else if j == 3 {
        assert s[j] == KeyValue("Filename", file);
        KeyOfLine("Filename", file, "Package");
      } else if j == 4 {
        assert s[j] == KeyValue("Size", DecimalString(size));
        KeyOfLine("Size", DecimalString(size), "Package");
      }
    }
    LastValueAt(s, 0, "Package", name);
  }

  /** The rendered "Architecture" line is the last of its key. */
  lemma RenderedArchitecture(name: string, arch: string, version: string, file: string, size: nat)
    ensures LastValue(RenderStanza(name, arch, version, file, size), "Architecture") == Some(arch)
  {
    var s := RenderStanza(name, arch, version, file, size);
    KeyLine("Architecture", arch);
    forall j | 1 < j < |s| ensures LineField(s[j]).None? || LineField(s[j]).value.0 != "Architecture" {
      if j == 2 {
        assert s[j] == KeyValue("Version", version);
        KeyOfLine("Version", version, "Architecture");
      } else if j == 3 {
        assert s[j] == KeyValue("Filename", file);
        KeyOfLine("Filename", file, "Architecture");
      } else if j == 4 {
        assert s[j] == KeyValue("Size", DecimalString(size));
        KeyOfLine("Size", DecimalString(size), "Architecture");
      }
    }
    LastValueAt(s, 1, "Architecture", arch);
  }

  /** The rendered "Version" line is the last of its key. */
  lemma RenderedVersion(name: string, arch: string, version: string, file: string, size: nat)
    ensures LastValue(RenderStanza(name, arch, version, file, size), "Version") == Some(version)
  {
    var s := RenderStanza(name, arch, version, file, size);
    KeyLine("Version", version);
    forall j | 2 < j < |s| ensures LineField(s[j]).None? || LineField(s[j]).value.0 != "Version" {
      if j == 3 {
        assert s[j] == KeyValue("Filename", file);
        KeyOfLine("Filename", file, "Version");
      } else if j == 4 {
        assert s[j] == KeyValue("Size", DecimalString(size));
        KeyOfLine("Size", DecimalString(size), "Version");
      }
    }
    LastValueAt(s, 2, "Version", version);
  }

  /** The rendered "Filename" line is the last of its key. */
  lemma RenderedFilename(name: string, arch: string, version: string, file: string, size: nat)
    ensures LastValue(RenderStanza(name, arch, version, file, size), "Filename") == Some(file)
  {
    var s := RenderStanza(name, arch, version, file, size);
    KeyLine("Filename", file);
    forall j | 3 < j < |s| ensures LineField(s[j]).None? || LineField(s[j]).value.0 != "Filename" {
      if j == 4 {
        assert s[j] == KeyValue("Size", DecimalString(size));
        KeyOfLine("Size", DecimalString(size), "Filename");
      }
    }
    LastValueAt(s, 3, "Filename", file);
  }

  /** The rendered "Size" line is the last parsable size. */
  lemma RenderedSize(name: string, arch: string, version: string, file: string, size: nat)
    requires size <= MaxUint64
    ensures LastSize(RenderStanza(name, arch, version, file, size)) == Some(size)
  {
    var s := RenderStanza(name, arch, version, file, size);
    KeyLine("Size", DecimalString(size));
    ParseUintOfDecimal(size);
    LastSizeAt(s, 4, DecimalString(size), size);
  }

  /** No rendered line is empty, so the lines form one stanza. */
  lemma RenderedNoBlank(name: string, arch: string, version: string, file: string, size: nat)
    ensures "" !in RenderStanza(name, arch, version, file, size)
  {
  }

  /** The index lines of one kernel-image package parse back to exactly that
      package: the name, architecture, version, URL under the repository and
      size come from the lines, the release from the dialect. */
  lemma ParseRenderedStanza(d: Dialect, name: string, arch: string, version: string, file: string, size: nat)
    requires HasPrefix(name, KernelPrefix) && DeriveFileName(name) != "" && version != ""
    requires size <= MaxUint64 && (d.sizeFloor ==> size > SizeFloor)
    ensures ParsePackages(d, RenderStanza(name, arch, version, file, size))
            == [UbuntuPackage(name, arch, KernelVersion.NewKernelVersion(version), DeriveFileName(name),
                              d.repoURL + "/" + file, size, d.release, "")]
  {
    var s := RenderStanza(name, arch, version, file, size);
    RenderedPackage(name, arch, version, file, size);
    RenderedArchitecture(name, arch, version, file, size);
    RenderedVersion(name, arch, version, file, size);
    RenderedFilename(name, arch, version, file, size);
    RenderedSize(name, arch, version, file, size);
    RenderedNoBlank(name, arch, version, file, size);
    ParseStanzaOfValues(d, s, name, arch, version, file, size);
  }

  lemma {:induction false} KeptAreAssembled(d: Dialect, ps: seq<seq<string>>)
    ensures forall p :: p in KeptRecords(d, ps) ==>
              exists i :: 0 <= i < |ps| && p == Assemble(d, ps[i]) && Keep(d, p)
  {
    if |ps| > 0 {
      KeptAreAssembled(d, ps[..|ps| - 1]);
      forall p | p in KeptRecords(d, ps)
        ensures exists i :: 0 <= i < |ps| && p == Assemble(d, ps[i]) && Keep(d, p)
      {
        if p in KeptRecords(d, ps[..|ps| - 1]) {
          var i :| 0 <= i < |ps| - 1 && p == Assemble(d, ps[..|ps| - 1][i]) && Keep(d, p);
          assert ps[..|ps| - 1][i] == ps[i];
        } else {
          assert p == Assemble(d, ps[|ps| - 1]);
        }
      }
    }
  }
}
