# btfhub: a Dafny model of its kernel-selection core

btfhub collects BTF (BPF Type Format) files for kernels of many distributions.
For each distribution, release and architecture it lists the kernel
debug-info packages a repository offers. It keeps the kernels it wants and
sorts them by kernel version. It then processes them oldest first, stopping
at the first kernel that already carries BTF. This project models that
selection logic as pure functions over strings and sequences, and proves
what each step promises:

- **Kernel versions** (`KernelVersion`, `LegacyVersion`, `KernelVersionExamples`).
  A version string is split on '.', '~' and '-'. The leading pieces that are
  numbers form the version's integers, and versions are ordered
  lexicographically on them. This order is a strict weak order, so
  `sort.Sort` can use it. The older copy of the type in version.go is
  modelled as loops that compute the same functions.
- **Package records and markers** (`Packages`, `VersionSort`). These are the
  four record types and the marker files next to each BTF archive
  (".btf.tar.xz", ".failed", ".hasbtf"). They also cover `ByVersion` and
  what any ascending sort by version produces.
- **APT `Packages` indices** (`Apt`). A Debian control file is a sequence of
  stanzas separated by empty lines (section 5.1 of the Debian Policy
  Manual). The parser turns each stanza into a record and keeps the valid
  `linux-image-*` ones. Its three copies differ in two ways: whether records
  carry a release, and whether a 10,000,000-byte size floor applies. A
  `Dialect` names that difference.
- **Ubuntu** (`KernelTypes`, `Ubuntu`, `UbuntuLegacy`, `FlavorGroups`).
  - The kernel-type regular expressions are written out by hand, with Go's
    leftmost-first, greedy semantics.
  - Main-archive kernels are matched against debug-symbol packages. A size
    floor and first-wins de-duplication apply, and a pseudo package is added
    for every kernel that has no debug package.
  - Packages are grouped by flavour, and each group is sorted.
- **RHEL, Amazon Linux and SUSE listings** (`Yum`, `Suse`). These are the
  line parsers of `yum search`, `repoquery` and `zypper search`. They use
  prefix filters, a last-dot split into version and architecture, and
  first-wins de-duplication by name. SUSE adds a release-to-repository
  table, the alias table of `zypper repos`, and the "unknown repo" error.
- **Oracle Linux** (`Oracle`). Debug-info kernels are picked from the links
  of a directory listing by a regular expression. Kernels older than
  3.10.0-957 are dropped.
- **The processing loop** (`Processing`). Packages are handed out in order
  until the first one that stops the loop. The Ubuntu, SUSE and Oracle loops
  skip errors. The RHEL and Amazon loops return them.
- **Target selection** (`Targets`). The distribution and release given on
  the command line are validated. Then one producer runs per distribution,
  release and architecture, each with its own work directory.
- **The example tracer's records** (`Records`). These are the 120-byte
  `context_t` and the 32-byte record of mine.go, decoded as little-endian
  fields with NUL padding trimmed. They also cover `KERNEL_VERSION` and the
  `O_DIRECTORY` rule of the kernel side.

Inputs the Go code reads from the outside are parameters:
- fetched listings, as sequences of lines or links;
- the set of existing files, as a `FileSet`;
- the outcome of processing each package, as an `Outcome`.

Go maps that are iterated appear as an explicit enumeration of their keys
or as a sequence, given as a parameter. What does and does not depend on
that order is stated member by member:
- The flavour groups of the Ubuntu debug map are the same for every
  enumeration of its keys, up to the order of packages with equal versions.
- The Ubuntu map of kernel types is visited in no fixed order, and it is
  visited twice: once for the main archive (pkg/repo/ubuntu.go:57) and once
  for the debug archive (pkg/repo/ubuntu.go:82). The two visits need not
  agree, so `Ubuntu.Reconcile` takes one order for each pass. The keys of
  the reconciled map, and which of them hold debug packages, are the same
  for every pair of orders. The entries themselves are the same only when
  no two listed packages share a file name. When the signed and the
  unsigned debug package of one kernel are both listed, which of them a
  file name gets depends on the order of the debug pass, whatever the
  order of the main pass (`Ubuntu.ReconcileDependsOnHeadOrder`).

## Model

| member | source | states |
|---|---|---|
| KernelVersion.NumericPrefix | pkg/kernel/kernel.go:41-47 | The integers are exactly the leading pieces that `strconv.Atoi` accepts, each with its value; reading stops at the first piece it rejects |
| KernelVersion.NewKernelVersionKeepsString | pkg/kernel/kernel.go:13-23 | `String` returns the source string unchanged; `IsZero` holds exactly when that string is empty; the zero version has no integers |
| KernelVersion.SplitIntoIntsNonNegative | pkg/kernel/kernel.go:39-49 | No integer of a version is negative, because '-' always separates pieces and is never read as a sign |
| KernelVersion.LexLessIsLexicographic | pkg/kernel/kernel.go:25-37 | `Less` holds exactly when the integer lists first differ at a place where the left one is smaller, or when the left list is a proper prefix of the right one |
| KernelVersion.LexLessTotal | pkg/kernel/kernel.go:25-37 | Any two integer lists are equal or ordered one way or the other |
| KernelVersion.LexLessIrreflexive | pkg/kernel/kernel.go:25-37 | No integer list is less than itself |
| KernelVersion.LexLessAsymmetric | pkg/kernel/kernel.go:25-37 | No two integer lists are each less than the other |
| KernelVersion.LexLessTransitive | pkg/kernel/kernel.go:25-37 | The order on integer lists is transitive |
| KernelVersion.LessIsStrictOrder | pkg/kernel/kernel.go:25-37 | `Less` on versions is irreflexive, asymmetric and transitive |
| KernelVersion.IncomparableIffSameInts | pkg/kernel/kernel.go:25-37 | Two versions are unordered exactly when their integer lists are equal, whatever their strings, so incomparability is an equivalence |
| KernelVersion.NotLessTransitive | pkg/kernel/kernel.go:25-37 | "Not less than" is transitive, which completes the strict weak order a sort needs |
| KernelVersionExamples.IntsOfRhelEl7 | pkg/kernel/kernel.go:39-49 | "3.10.0-957.el7" has the integers [3, 10, 0, 957]: reading stops at "el7" |
| KernelVersionExamples.IntsOfRhel957Dot100 | pkg/kernel/kernel.go:39-49 | "3.10.0-957.100" has the integers [3, 10, 0, 957, 100] |
| KernelVersionExamples.VersionOrderingExamples | pkg/kernel/kernel_test.go:5-19 | "3.10.0-957" and "3.10.0-957.el7" are unordered both ways; "3.10.0-956" < "3.10.0-957.el7"; "3.10.0-957" < "3.10.0-957.100". The same test in version_test.go holds too, since the older type computes the same order |
| KernelVersionExamples.UbuntuVersionsOrdered | ubuntu_test.go:62-76 | A 5.4.0-90 kernel sorts before a 5.4.0-92 kernel and not after it, whatever follows the ABI number |
| LegacyVersion.SplitIntoInts | version.go:39-49 | The loop that appends integers until a piece fails to convert returns exactly the integers of the `pkg/kernel` definition |
| LegacyVersion.NewKernelVersion | version.go:13-15 | The older constructor gives the same version as `pkg/kernel` for every string |
| LegacyVersion.Less | version.go:25-37 | The loop over positions (false once the right list runs out, else the first difference decides, else the shorter list is less) decides exactly the lexicographic order of `pkg/kernel` |
| Packages.MarkPackageHasBTF | pkg/pkg/package.go:36-44 | Marking succeeds exactly when the file can be created; on success exactly one file, the package's ".hasbtf" marker path, is added and `PackageHasBTF` holds; on failure the files are unchanged |
| Packages.MarkingKeepsOtherMarkers | pkg/pkg/package.go:22-49 | Marking a package never changes whether any package has a BTF archive or a failure marker, in any directory |
| Packages.MarkerPathInjective | pkg/pkg/package.go:22-34 | Two packages share a marker path in a directory only if they share a BTF file name |
| Packages.Swap | pkg/pkg/package.go:54 | `Swap` exchanges positions i and j, leaves every other position unchanged, and keeps the same multiset of packages |
| Packages.SwapInvolution | pkg/pkg/package.go:54 | Swapping the same two positions twice restores the slice |
| VersionSort.AdjacentSortedIsSorted | pkg/pkg/package.go:51-57 | No package is less than its predecessor exactly when no package is less than any earlier one |
| VersionSort.Insert | pkg/pkg/package.go:55-57 | Inserting into a sorted sequence keeps it sorted and adds exactly the new package |
| VersionSort.Sort | pkg/pkg/package.go:51-57 | The result is sorted by `ByVersion.Less` and is a permutation of the input |
| VersionSort.SortedUniqueUpToTies | pkg/pkg/package.go:51-57 | Two sorted permutations of the same packages agree, position by position, on the version integers: an unstable sort can only reorder ties |
| Processing.FirstStop | pkg/repo/ubuntu.go:153-170 | Locates the first package whose outcome ends the loop, and no earlier one ends it |
| Processing.ProcessPackages | pkg/repo/ubuntu.go:153-170 | The packages handed to `processPackage` are exactly the list up to and including the first package whose outcome stops the loop, or the whole list when none does. Under the error-skipping policy (this loop, and those of cmd/btfhub/ubuntu.go, pkg/repo/suse.go and pkg/repo/oracle.go) that is the first `ErrHasBTF` or cancellation, other errors are skipped and the result is nil. Under the error-returning policy (rhel.go and pkg/repo/amazon.go) any outcome but success stops the loop, and every error but `ErrHasBTF` is returned. Over a list sorted ascending, every package the loop leaves out is at least as new as the one it stopped at |
| Processing.PoliciesAgreeWithoutErrors | pkg/repo/amazon.go:55-64 | When every outcome is success or `ErrHasBTF`, the error-returning loops stop where the error-skipping ones do, and return nil |
| Apt.Fresh | pkg/pkg/utils.go:85 | A new record is tagged with the release being parsed |
| Apt.DeriveFileNameOfKernelNames | pkg/pkg/utils.go:113-118 | Stripping "linux-image-", then "-dbgsym", then "-dbg", then "unsigned-" recovers the kernel file name from signed, unsigned and unsigned debug-symbol package names |
| Apt.LineField | pkg/pkg/utils.go:102-108 | A line starting with a space yields no field; otherwise a key and value are found exactly when ": " occurs, and they reassemble the line around it |
| Apt.ApplyLine | pkg/pkg/utils.go:105-131 | A "Package" line sets the name to its value and the file name to the one derived from it, "Architecture" sets the architecture, "Version" the version parsed from the value, "Filename" the URL under the repository, and "Size" the size when the value parses as a 64-bit unsigned integer (otherwise the size stays); no field changes except the one its line's key names, so unknown keys and lines that are not fields change nothing; release and flavour never change |
| Apt.Assemble | pkg/pkg/utils.go:85-131 | A stanza's record carries the release and no flavour; its file name is derived from its name, and its URL, when set, lies under the repository URL |
| Apt.AssembleIsLastValues | pkg/pkg/utils.go:85-131 | A stanza's record holds the value of the stanza's last "Package", "Architecture", "Version" and "Filename" line and the last "Size" value that parses, each field keeping its zero value where no such line exists, so later lines override earlier ones |
| Apt.KeyLine | pkg/pkg/utils.go:102-108 | A "Key: value" line whose key has no colon yields exactly that key and value, even when the value contains ": " |
| Apt.ParseSingleStanza | pkg/pkg/utils.go:80-145 | An index without empty lines is one stanza, and its record is emitted, alone, exactly when it names a kernel image and is valid |
| Apt.ParseStanzaOfValues | pkg/pkg/utils.go:80-145 | A single stanza whose last "Package", "Architecture", "Version" and "Filename" lines and last parsable "Size" line carry given values parses to exactly the one package holding those values, its derived file name, the URL under the repository and the release, whenever that package names a kernel image and is valid |
| Apt.ParseRenderedStanza | pkg/pkg/utils.go:80-145 | An index holding the lines of one kernel-image package with a non-empty version and file name (and more than 10,000,000 bytes where the floor applies) parses to exactly that one package |
| Apt.Stanzas | pkg/pkg/utils.go:95-101 | The stanzas of an index contain no empty line, and there is always at least one (the last, possibly empty) |
| Apt.UnstanzaStanzas | pkg/pkg/utils.go:95-101 | Joining the stanzas back with empty lines gives the input exactly: the empty lines are precisely the stanza boundaries |
| Apt.KeptRecords | pkg/pkg/utils.go:96-98 | Only records satisfying the keep condition are emitted, at most one per stanza |
| Apt.ScanFollowsStanzas | pkg/pkg/utils.go:90-133 | At every point of the loop the saved packages are the kept records of the finished stanzas, and the current record is that of the open stanza |
| Apt.ParsePackagesIsKeptStanzas | pkg/pkg/utils.go:80-145 | The result is the kept records of all stanzas in stanza order, the last stanza included even without a trailing empty line. This holds for every copy of the parser: with a release and no size floor (this one and cmd/btfhub/ubuntu.go), and with no release and a size floor (ubuntu.go) |
| Apt.ParsedPackages | pkg/pkg/ubuntu.go:33-35 | Every parsed package is named "linux-image-…", is valid (name, URL, file name and version string non-empty), carries the release, has its derived file name, and has a URL under the repository; in the older parser (ubuntu.go) it is also larger than 10,000,000 bytes, strictly |
| Apt.KeptAreAssembled | pkg/pkg/utils.go:140-142 | Every emitted package is the record of some stanza that passed the keep condition |
| FlavorGroups.Members | pkg/repo/ubuntu.go:123-131 | The members of a flavour are exactly the input packages with that flavour, in input order |
| FlavorGroups.GroupByFlavorIsMembers | pkg/repo/ubuntu.go:123-131 | A group exists exactly for each flavour that occurs, and it holds exactly that flavour's packages in input order, so each package lands in the one group its flavour names |
| FlavorGroups.MembersPermutation | pkg/repo/ubuntu.go:124-131 | Reordering the input (such as Go's map iteration order) does not change which packages each group holds, or how often |
| FlavorGroups.SortGroups | pkg/repo/ubuntu.go:134-137 | Sorting keeps the flavours, and every group becomes sorted by version while holding the same packages |
| FlavorGroups.GroupedAndSorted | pkg/repo/ubuntu.go:123-137 | Grouping and sorting two orderings of the same packages gives the same flavours and the same packages per flavour |
| FlavorGroups.GroupedMember | pkg/repo/suse.go:85-98 | Every package in a sorted group came from the input and has the group's flavour |
| KernelTypes.RunEnd | pkg/repo/ubuntu.go:33-34 | "[0-9.]+" takes the longest run of digits and dots |
| KernelTypes.HeadEnd | pkg/repo/ubuntu.go:33-34 | The literal head and version part of a kernel type, when present, end just after a '-' |
| KernelTypes.FirstFlavorAt | pkg/repo/ubuntu.go:33-34 | The alternation captures the first listed flavour that fits at a position, and none when no flavour fits there |
| KernelTypes.LineEnd | pkg/repo/ubuntu.go:33-34 | ".*" cannot cross a newline: it reaches the first newline or the end of the name |
| KernelTypes.LastFlavor | pkg/repo/ubuntu.go:33-34 | Greedy ".*" places the flavour at the last position where one fits, and no later position fits |
| KernelTypes.MatchAt | pkg/repo/ubuntu.go:58-60 | A match starting at a given place exists exactly when the pattern fits there; it takes the longest ".*", and its flavour is the first alternative at that end |
| KernelTypes.MatchFrom | pkg/repo/ubuntu.go:58-60 | Searching from a position finds a match exactly when one starts at or after it, and reports the flavour of the leftmost one |
| KernelTypes.Match | pkg/repo/ubuntu.go:58-60 | `FindStringSubmatch` succeeds exactly when the pattern fits somewhere in the name, and the capture is one of the listed flavours |
| KernelTypes.MatchIsLastFlavor | pkg/repo/ubuntu.go:58-67 | In a one-line name the captured flavour is the one at the last place a flavour fits, whatever the start of the match |
| KernelTypes.FlavorIndependentOfHead | pkg/repo/ubuntu.go:82-95 | When both the signed and the unsigned kernel types match a name, they capture the same flavour |
| KernelTypes.AnchoredMatchSuffix | pkg/repo/ubuntu.go:58 | With "$" appended, the name ends in "-" followed by the captured flavour |
| Ubuntu.SelectMain | pkg/repo/ubuntu.go:59-69 | A kept main kernel is the package unchanged but for its flavour, which is one of the kernel-type flavours; it has neither a BTF archive nor a failure marker |
| Ubuntu.SelectMainIff | pkg/repo/ubuntu.go:56-70 | A main kernel is kept by a kernel type exactly when the end-anchored pattern matches its name and it has neither marker; its flavour is the capture, and the name ends in "-" and that flavour |
| Ubuntu.SelectDebug | pkg/repo/ubuntu.go:84-95 | A kept debug package has at least 10,000,000 bytes and no marker, and is unchanged but for its captured flavour |
| Ubuntu.SelectDebugIff | pkg/repo/ubuntu.go:81-95 | A debug package is kept by a kernel type exactly when the "-dbgsym" pattern matches, its size is not below 10,000,000, and it has neither marker; it is kept unchanged but for its flavour, the capture (cmd/btfhub/ubuntu.go has the same filter) |
| Ubuntu.SizeFloorInclusive | pkg/repo/ubuntu.go:89-91 | A matching debug package of exactly 10,000,000 bytes is kept |
| Ubuntu.SelectDebugFlavorIndependent | pkg/repo/ubuntu.go:82-95 | Both kernel types give a debug package the same flavour, so the order in which the map of kernel types is visited cannot change the flavour |
| Ubuntu.FilterWith | pkg/repo/ubuntu.go:59-69 | One kernel type's pass keeps exactly the packages it selects, with their flavours |
| Ubuntu.Filter | pkg/repo/ubuntu.go:57-70 | Over all kernel types, the kept packages are exactly those some kernel type selects |
| Ubuntu.Pseudo | pkg/repo/ubuntu.go:109-118 | The pseudo package as written copies file name, architecture, version and flavour, has URL "pull-lp-ddebs" and the largest 64-bit size, and has no release (cmd/btfhub/ubuntu.go builds it the same way) |
| Ubuntu.PseudoDropsRelease | pkg/repo/ubuntu.go:109-118 | For any kernel with a release, the pseudo package as written loses it |
| Ubuntu.PseudoWithRelease | pkg/pkg/ubuntu.go:151 | The corrected pseudo package keeps the kernel's release, which `pull-lp-ddebs` is given, as well as everything the as-written one copies |
| Ubuntu.PseudoNameRoundTrip | pkg/repo/ubuntu.go:111 | The pseudo name "linux-image-unsigned-<file>-dbgsym" derives back to the kernel's file name under the APT derivation |
| Ubuntu.AddPseudo | pkg/repo/ubuntu.go:105-120 | Existing entries are never replaced; a file name gains an entry exactly when some kernel has it; a new entry is the pseudo package of the first such kernel, built as written (no release) or corrected to keep the release, as the flag says; entries stay keyed by their file name |
| Ubuntu.ReconcileCovers | pkg/repo/ubuntu.go:81-120 | For either pseudo package: every kept main kernel's file name has an entry; the entries are exactly the file names of debug candidates and kept kernels; a debug candidate's entry is the first candidate with that name; the others are pseudo packages of the first kept kernel with that name (the same in cmd/btfhub/ubuntu.go) |
| Ubuntu.DebugCandidateOrigin | pkg/repo/ubuntu.go:84-97 | Every debug candidate was selected from the debug listing by some kernel type, has at least 10,000,000 bytes and has no marker |
| Ubuntu.ReconcileEntries | pkg/repo/ubuntu.go:96-119 | For either pseudo package, every entry is either a debug package some kernel type kept, with at least 10,000,000 bytes and no marker, or the pseudo package of a kept main kernel |
| Ubuntu.ReconcileKeepsRelease | pkg/pkg/ubuntu.go:151 | With the corrected pseudo package, when both listings come from one release, every entry carries that release |
| Ubuntu.ReconcileAsWrittenDropsRelease | pkg/repo/ubuntu.go:105-120 | As written, a kept main kernel that no debug candidate shares a file name with gets a pull-lp-ddebs entry whose release is empty |
| Ubuntu.SelectMainFlavorIndependent | pkg/repo/ubuntu.go:56-69 | Both kernel types give a main kernel the same flavour |
| Ubuntu.FirstSelectedIndependent | pkg/repo/ubuntu.go:56-95 | When no two listed packages share a file name, the first package a pass keeps for a file name is the same whatever the order of the kernel types |
| Ubuntu.ReconcileAt | pkg/repo/ubuntu.go:81-120 | For one file name: it has an entry exactly when a debug candidate or a kept main kernel has it; the entry carries that file name; it is the first debug candidate with the name if there is one, else the pseudo package of the first kept kernel with it |
| Ubuntu.ReconcileKeyIndependentAt | pkg/repo/ubuntu.go:56-120 | For one file name, whatever order each of the two passes visits the kernel types in, independently of each other: it has an entry under both orders or neither, and the entry is a debug candidate under both or neither |
| Ubuntu.ReconcileKeysIndependentOfHeadOrder | pkg/repo/ubuntu.go:56-120 | Whatever order the main pass and, independently, the debug pass visit the map of kernel types in, the reconciled map has the same file names, and the same ones hold debug packages rather than pseudo packages |
| Ubuntu.ReconcileEntryIndependentAt | pkg/repo/ubuntu.go:56-120 | When no two listed packages share a file name and no name spans lines, the entry of a file name is the same for any two pairs of orders of the main and the debug pass |
| Ubuntu.ReconcileIndependentOfHeadOrder | pkg/repo/ubuntu.go:56-120 | When no two listed packages share a file name and no name spans lines, the reconciled map is the same whatever order the main pass and, independently, the debug pass visit the kernel types in |
| Ubuntu.FocalNamesShareFile | pkg/pkg/utils.go:113-118 | The signed and the unsigned debug package names of one kernel derive the same file name |
| Ubuntu.UnsignedSkipsSigned | pkg/repo/ubuntu.go:82-87 | The unsigned kernel type's "-dbgsym" pattern does not match the signed debug package |
| Ubuntu.TwoCandidatesHeadOrder | pkg/repo/ubuntu.go:81-101 | When the first kernel type the debug pass visits keeps one of two packages sharing a file name and the other type keeps only the other, the file name goes to the package kept by the type visited first, whatever the order of the main pass |
| Ubuntu.ReconcileDependsOnHeadOrder | pkg/repo/ubuntu.go:81-101 | For the signed and unsigned debug packages of 5.4.0-90-generic, a debug pass visiting the signed kernel type first gives the file name the signed package, and one visiting the unsigned type first gives it the unsigned package, whatever the order of the main pass |
| Ubuntu.Values | pkg/repo/ubuntu.go:124 | The values are visited in the order of the key enumeration, one per key |
| Ubuntu.ValuesDistinct | pkg/repo/ubuntu.go:124 | No value is visited twice |
| Ubuntu.GroupIndexCovers | pkg/repo/ubuntu.go:123-131 | Each entry appears exactly once, in the group of its flavour (the same in cmd/btfhub/ubuntu.go) |
| Ubuntu.GroupIndexOnlyMap | pkg/repo/ubuntu.go:123-137 | Every group is sorted, and holds only entries of the map that have the group's flavour |
| Ubuntu.GroupIndexOrderIndependent | pkg/repo/ubuntu.go:123-137 | Whatever order the map is iterated in, the same flavours arise, each with the same packages, and the sorted groups agree position by position on the version integers |
| UbuntuLegacy.Patterns | ubuntu.go:67-69 | For each kernel version of the release there is a signed and an unsigned pattern, and no other |
| UbuntuLegacy.Collect | ubuntu.go:67-85 | A package is appended exactly when some version and kernel type match it, labelled with the captured flavour |
| UbuntuLegacy.PickLabels | ubuntu.go:71-76 | A picked package is the package labelled with the flavour the pattern captured |
| UbuntuLegacy.GroupMemberMatched | ubuntu.go:66-91 | Every grouped package was matched by some version and kernel type of the release with the group's flavour, and every group is sorted |
| UbuntuLegacy.MatchedInGroup | ubuntu.go:66-85 | Every package matched with a flavour lands in that flavour's group |
| Yum.SplitArch | pkg/repo/utils.go:39-48 | A file name is split at its last '.' into version text and architecture; without a '.' the line is skipped |
| Yum.YumLine | pkg/repo/utils.go:26-48 | A package comes only from a "kernel-debuginfo-" line that is not "kernel-debuginfo-common-", and its file name is its name without "kernel-debuginfo-" |
| Yum.DigitLineIsCandidate | pkg/repo/utils.go:27-32 | A "kernel-debuginfo-" line followed by a digit passes both prefix filters |
| Yum.SplitArchOf | pkg/repo/utils.go:39-42 | A version and a dot-free architecture joined by '.' split back into the two |
| Yum.YumLineOfName | pkg/repo/utils.go:33-48 | The name is the text before the first ':' with surrounding spaces trimmed, and the record is built from it |
| Yum.YumLineRoundTrip | pkg/repo/utils.go:33-48 | A `yum search` line "kernel-debuginfo-<ver>.<arch> : <summary>" parses to that name, file name, architecture and version |
| Yum.ParseOrdered | rhel.go:71-107 | The order-preserving parser keeps exactly the parsed lines whose version is not below a non-zero minimum |
| Yum.ParseOrderedAppend | rhel.go:74-102 | Parsing two runs of lines one after the other gives the concatenation of their parses, so line order is kept |
| Yum.ParseOrderedSnoc | rhel.go:74-102 | One more line appends its record, once, exactly when it parses and is not below the minimum, so duplicates are kept |
| Yum.ParseDeduplicated | pkg/repo/utils.go:22-60 | Each name is held by its first kept record, every record is not below the minimum, and every record comes from some line |
| Yum.RepoqueryLine | pkg/repo/amazon.go:86-107 | A package comes only from a candidate line, and its name is "kernel-debuginfo-" followed by its file name |
| Yum.RepoqueryLineRoundTrip | pkg/repo/amazon.go:93-107 | A `repoquery` line "kernel-debuginfo-<epoch>:<ver>.<arch>" parses to that version, architecture and file name, the epoch dropped |
| Yum.AmazonPackages | pkg/repo/amazon.go:49 | With the empty minimum every parsed line's name is kept, and every kept record comes from a line |
| Suse.PoolAndUpdates | pkg/repo/suse.go:44-61 | A product line enables its "-Debuginfo-Pool" and "-Debuginfo-Updates" repositories |
| Suse.Repos | pkg/repo/suse.go:43-62 | A release enables either no repositories or a pool and an updates repository |
| Suse.ReposOfKnownReleases | pkg/repo/suse.go:43-62 | Exactly the releases 12.3, 12.5, 15.1, 15.2, 15.3 and 15.4 enable two repositories |
| Suse.TableSepsAreSpaceOrBar | pkg/repo/suse.go:122-124 | Table fields are separated by white space or '|' |
| Suse.AliasRow | pkg/repo/suse.go:122-132 | A row gives an alias only when it has at least three fields and a numeric first field; the second field is the alias and the third the name |
| Suse.RepoAliasesKeys | pkg/repo/suse.go:119-134 | A repository name has an alias exactly when some row names it |
| Suse.RepoAliasesLastWins | pkg/repo/suse.go:132-133 | A name's alias comes from the last row that names it |
| Suse.KernelFlavor | pkg/repo/suse.go:159 | A name is accepted only as "kernel-<flavor>-debuginfo" with a non-empty, dash-free flavour |
| Suse.KernelFlavorRoundTrip | pkg/repo/suse.go:159 | Every non-empty, dash-free flavour is read back from its package name |
| Suse.BTFVersion | pkg/repo/suse.go:184-186 | The BTF version is the version without its last '.'-component, or empty when it has no '.' |
| Suse.PackageRow | pkg/repo/suse.go:163-197 | A row fails only with "unknown repo" and a repository without an alias; a package it gives has the requested architecture, a flavour other than "preempt", a known repository, and the download directory of its alias |
| Suse.PackageRowErrors | pkg/repo/suse.go:166-182 | A row fails exactly when it has five fields, the architecture matches, the name is a kernel, and the repository has no alias; the check runs before the "preempt" skip |
| Suse.PackageRowNames | pkg/repo/suse.go:184-197 | The file name is "<ver>-<flavor>", the BTF file name is "<btfver>-<flavor>", and the version is read from the version field |
| Suse.ParseZypperPackagesOk | pkg/repo/suse.go:157-205 | The parse succeeds exactly when no row fails |
| Suse.ParseZypperPackagesMembers | pkg/repo/suse.go:188-198 | On success the packages are exactly those the rows give |
| Suse.ParseZypperPackagesErr | pkg/repo/suse.go:175-178 | On failure the error is that of the first failing row |
| Suse.ParseZypperPackagesUnknownRepo | pkg/repo/suse.go:175-178 | A failed parse always reports an unknown repository that has no alias |
| Suse.ParsedPackage | pkg/repo/suse.go:169-197 | Every parsed package is a kernel of the requested architecture, from an aliased repository, with a flavour other than "preempt" |
| Suse.GroupsOfParsed | pkg/repo/suse.go:85-98 | Every group is sorted, and holds only parsed packages of its flavour |
| Suse.GroupFlavorOfListing | pkg/repo/suse.go:85-93 | Every group's flavour is that of some parsed package |
| Suse.NoPreemptGroup | pkg/repo/suse.go:179-182 | No "preempt" group is ever formed |
| Oracle.AltArch | pkg/repo/oracle.go:26-29 | Only arm64 and x86_64 have an Oracle architecture name |
| Oracle.RepoURL | pkg/repo/oracle.go:30-33 | Only releases 7 and 8 have a debug-info repository |
| Oracle.CaptureStart | pkg/repo/oracle.go:59 | The optional "-uek" is taken exactly when it is present, and at most one spelling of the prefix fits |
| Oracle.MatchAt | pkg/repo/oracle.go:59-62 | A match at a given start exists exactly when the pattern fits there, with the longest ".*" |
| Oracle.FindFrom | pkg/repo/oracle.go:62 | The search finds the leftmost match, and no match starts before it |
| Oracle.MatchParts | pkg/repo/oracle.go:68-69 | The matched text without ".rpm" is the prefix followed by the capture, and the capture ends in "." and the architecture |
| Oracle.MatchPackage | pkg/repo/oracle.go:67-73 | The record keeps the link as its URL and the Oracle architecture; its file name is the capture, starting with a digit and ending in the architecture, and its version is read from the capture |
| Oracle.LinkPackage | pkg/repo/oracle.go:61-73 | A link yields a package exactly when the pattern matches it, with name, file name, architecture and URL as the match gives |
| Oracle.FoundPackage | pkg/repo/oracle.go:62-73 | The package of a link is built from its leftmost match: the name is the match without ".rpm", the file name is the capture |
| Oracle.LinkRoundTrip | pkg/repo/oracle.go:59-73 | A link "kernel[-uek]-debuginfo-<ver>.<arch>.rpm" yields that file name and name |
| Oracle.Pick | pkg/repo/oracle.go:61-79 | A link is kept exactly when it matches and its kernel is not older than 3.10.0-957 |
| Oracle.Found | pkg/repo/oracle.go:61-80 | The found packages are exactly those of the kept links |
| Oracle.Listing | pkg/repo/oracle.go:61-82 | The processing order is sorted by version and is a permutation of the found packages |
| Oracle.ListingMembers | pkg/repo/oracle.go:61-82 | A package is processed exactly when some link yields it and is kept |
| Oracle.PackagesNotOlder | pkg/repo/oracle.go:74-76 | No processed kernel is older than 3.10.0-957, and each has the Oracle architecture name |
| Targets.ReleaseListed | cmd/btfhub/main.go:71-77 | The loop over a distribution's releases finds the release exactly when it is listed |
| Targets.Validate | cmd/btfhub/main.go:66-85 | Validation passes on the release to use: the given one with a distribution, none without one |
| Targets.RunFails | cmd/btfhub/main.go:66-81 | The run fails exactly for an unknown distribution ("invalid distribution …") or a release its distribution does not list |
| Targets.ReleaseClearedWithoutDistro | cmd/btfhub/main.go:82-85 | Without a distribution, any given release is ignored |
| Targets.ForArchs | cmd/btfhub/main.go:123-135 | One target per architecture, each in archive/<distro>/<release>/<arch> |
| Targets.ForReleases | cmd/btfhub/main.go:121-136 | One target per release and architecture |
| Targets.ForDistros | cmd/btfhub/main.go:116-137 | The targets are exactly the distributions given, their releases (or the chosen one), and the architectures, each with its work directory |
| Targets.RunTargets | cmd/btfhub/main.go:94-137 | A target runs exactly when its distribution is the given one (else ubuntu, debian, fedora, centos or ol), its release is the given one (else any listed), and its architecture is the given one (else x86_64 or arm64) |
| Targets.RunDistinct | cmd/btfhub/main.go:116-137 | No (distribution, release, architecture) producer is started twice |
| Targets.TableDistinct | cmd/btfhub/main.go:19-27 | No distribution lists a release twice |
| Collections.FirstWinsBy | pkg/repo/utils.go:52-54 | Inserting in order without replacing, each key is held by the first element with that key, and only keys that occur are present |
| Collections.FirstWinsByCovers | pkg/repo/ubuntu.go:96-100 | Every element's key has an entry after first-wins insertion |
| Text.Cut | pkg/pkg/utils.go:105 | `strings.Cut` splits at the first occurrence of the separator, and reports its absence |
| Text.LastIndexOf | pkg/repo/utils.go:39 | `strings.LastIndex` finds the last occurrence of a character, or reports that there is none |
| Text.TrimSpace | pkg/repo/utils.go:37 | The result is the text between a run of white space at the front and one at the back, and it neither starts nor ends with white space |
| Text.TrimSpaceUnique | pkg/repo/utils.go:37 | Any middle part of the text with only white space outside it and none at its ends is what trimming returns |
| Text.ParseUint | pkg/pkg/utils.go:126 | `strconv.ParseUint(s, 10, 64)` succeeds exactly for non-empty decimal digits whose value fits in 64 bits, giving that value |
| Text.ParseUintOfDecimal | pkg/pkg/utils.go:125-129 | Every 64-bit size written in decimal is read back |
| Text.Atoi | pkg/kernel/kernel.go:42 | `strconv.Atoi` accepts exactly an optional sign followed by decimal digits; plain and "+" digits read as their value, "-" digits as its negation |
| Text.SplitOn | pkg/kernel/kernel.go:41 | Splitting yields at least one piece, no piece contains a separator, and a text without separators is its own single piece |
| Text.SplitOnStep | pkg/kernel/kernel.go:41 | For any set of separators, a separator-free run followed by a separator is the first piece and splitting goes on after it; with the single-piece case this fixes every split |
| Text.JoinSplit | pkg/repo/suse.go:185-186 | Joining the pieces of a split with the separator restores the text |
| Text.JoinDropLast | pkg/repo/suse.go:185-186 | Joining all but the last piece gives the text before the last separator, or "" when there is none |
| Text.Fields | pkg/repo/suse.go:163-165 | `strings.FieldsFunc` yields only non-empty fields free of separators, and a text without separators is its own single field, or none when empty |
| Text.FieldsStep | pkg/repo/suse.go:163-165 | A separator-free run followed by a separator is the first field unless empty, and fields go on after it; with the separator-free case this fixes every result |
| Records.LittleEndianRoundTrip | example/example.go:154 | Reading back the little-endian bytes of a value that fits the width gives the value |
| Records.ToLittleEndianRoundTrip | example/example.go:154 | Writing back the value of some bytes gives the same bytes |
| Records.TrimNul | example/example.go:168-169 | `bytes.TrimRight(…, "\x00")` removes exactly the trailing NUL bytes: the result is a prefix, what is removed is all NUL, and the result does not end in NUL |
| Records.TrimNulPadding | example/example.go:168-169 | A string padded with any number of NULs is recovered exactly, including a field that fills its capacity with no NUL |
| Records.ContextLayout | example/example.h:52-62 | `context_t` is four u32s, three u64s, comm[16] and filename[64], laid out with no gap and each aligned, 120 bytes in all |
| Records.DecodeEvent | example/example.go:154-170 | Decoding fails exactly for a sample shorter than 120 bytes; the decoded numbers fit their widths and the strings their capacities |
| Records.EncodeContextLayout | example/example.go:34-44 | Each field of the written record lies at its offset (pid 0, tid 4, ppid 8, uid 12, flags 16, mode 24, ts 32, comm 40, filename 56) |
| Records.DecodeEncodedEvent | example/example.go:154-170 | Decoding what the kernel side wrote, followed by anything, gives every number unchanged and the strings without NUL padding |
| Records.DecodeEventIgnoresTail | example/example.go:154 | Bytes past the first 120 do not change the event |
| Records.DecodeAll | example/example.go:148-158 | The events are exactly those of the samples that decode; no sample yields more than one |
| Records.ShortSampleSkipped | example/example.go:154-158 | A sample shorter than the record is skipped and the loop goes on |
| Records.DecodeLogin | example/mine.go:140-152 | Decoding fails exactly for a sample shorter than 32 bytes; the command name is at most 16 bytes |
| Records.EncodeLogin | example/mine.go:34-40 | The written record is 32 bytes |
| Records.DecodeEncodedLogin | example/mine.go:140-152 | Decoding the written record gives pid, uid, gid and loginuid unchanged and the command name without NUL padding |
| Records.KernelVersionCodeOrder | example/example.h:20-22 | For minor and patch below 256, `KERNEL_VERSION` orders versions lexicographically and tells different versions apart |
| Records.SuppressedOnlyBit16 | example/example.bpf.c:76-77 | An open is suppressed exactly by bit 16 (`O_DIRECTORY`, octal 00200000); the other bits do not matter |

## Left out

- Network access: downloading package lists, scraping links (`GetLinks`), and every `Download` and `ExtractKernel` method. They are I/O; fetched listings are inputs.
- External commands: yum, repoquery, zypper, subscription-manager, pull-lp-ddebs, pahole, tar and sudo. Running a process is outside the model; its output is an input.
- `processPackage` and the worker pool, errgroup fan-out and job channels (pkg/job). These are concurrency; the outcome of each package is an input to `Processing`.
- `bufio.Scanner`'s 128 KiB line limit and the error of `bio.Err()`. Input is already a sequence of lines.
- Text.Atoi: does not reject values outside Go's 64-bit `int`, because kernel version numbers never come near it.
- Packages.MarkPackageHasBTF: does not model `os.Create`'s error message text, only whether creation succeeded.
- Records.DecodeEvent: `binary.Read` reports `io.EOF` for an empty sample and `io.ErrUnexpectedEOF` otherwise; the model gives one error for both, since the loop treats them alike.
- Marker and work-directory paths are joined with "/" rather than cleaned by `filepath.Join`; the directories btfhub builds are already clean.
- Go's map iteration order is not chosen by the model: maps that are iterated are given as an explicit key enumeration or a sequence, and the introduction above says which results depend on it.
- Regular expressions in general. Only the patterns btfhub uses are written out by hand.
- `unicode.IsSpace` is modelled on Latin-1 white space only, which covers the tables zypper prints.
- The Go `string` conversion of decoded byte fields; decoded strings stay byte sequences.
- Logging, progress reporting, the `numWorkers` default, `os.Getwd` and `os.MkdirAll`. They have no effect on which kernels are selected.
- The other distributions (fedora, centos, debian, cmd/btfhub/oracle.go, pkg/repository, pkg/package). They wrap the same filter, sort and stop loop in network and exec code.
- `parsePackages` of the Ubuntu test is not part of this model. Only the test's expected ordering is stated (`KernelVersionExamples.UbuntuVersionsOrdered`).
- The libbpf life cycle, the perf buffer, the timeout and the printing of the example tracer (example/example.c and the goroutine plumbing of example/*.go), because they are thin wrappers over a library that is not modelled. Of example.bpf.c only the `O_DIRECTORY` rule is modelled.
- Ubuntu.AddPseudo: the `keepRelease` flag chooses between the pseudo package as written and the corrected one (see Findings); the release is promised only for the corrected one (`Ubuntu.ReconcileKeepsRelease`).
- UbuntuLegacy.Collect: the older record type has no flavour field. The model writes the captured flavour into the record so that one grouping function serves every copy, and the group key is the same as in the Go code.

## Findings

| source | as written | input that shows it | evidently intended | confidence | as-written member | corrected member |
|---|---|---|---|---|---|---|
| pkg/repo/ubuntu.go:109-118 | The pseudo package for a kernel without a debug package copies name, architecture, version, file name and flavour but not `Release`, although `pullLaunchpadDdeb` (pkg/pkg/ubuntu.go:151) passes `pkg.Release` to pull-lp-ddebs; cmd/btfhub/ubuntu.go:137-146 does the same | a focal kernel "linux-image-5.4.0-90-generic" with no debug package: its pseudo package has release "", so pull-lp-ddebs is called without a release | the pseudo package carries the kernel's release, so pull-lp-ddebs looks in the release being processed | high for the missing field, medium for its effect (not executed) | Ubuntu.ReconcileAsWrittenDropsRelease | Ubuntu.ReconcileKeepsRelease |
