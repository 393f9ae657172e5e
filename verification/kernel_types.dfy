/** The kernel-type regular expressions of the Ubuntu repositories, written
    out by hand. Every pattern has the shape
      <literal> <version> "-" ".*" "-" "(" flavour | flavour | ... ")" <tail>
    where <version> is either a run of digits and dots ("[0-9.]+") or a
    given version string whose dots match any character, and <tail> is either
    the end of the string ("$") or the literal "-dbgsym". Go's `regexp` finds
    the leftmost match, and within it prefers the longest ".*"; the flavour
    is the first alternative that fits there. */
module KernelTypes {
  import opened Wrappers
  import opened Text

  datatype Head =
    | RunHead(lit: string)
    | VersionHead(lit: string, version: string)

  datatype Tail = AtEnd | BeforeDbgsym

  datatype Pattern = Pattern(head: Head, flavors: seq<string>, tail: Tail)

  const Dbgsym := "-dbgsym"

  predicate IsVersionChar(c: char) {
    IsDigit(c) || c == '.'
  }

  /** The end of the run of digits and dots starting at `j`. */
  function RunEnd(name: string, j: nat): (r: nat)
    requires j <= |name|
    ensures j <= r <= |name|
    ensures forall k :: j <= k < r ==> IsVersionChar(name[k])
    ensures r < |name| ==> !IsVersionChar(name[r])
    decreases |name| - j
  {
    if j < |name| && IsVersionChar(name[j]) then RunEnd(name, j + 1) else j
  }

  /** `.` in a pattern matches any character but a newline. */
  predicate WildMatch(s: string, v: string) {
    |s| == |v| && forall k :: 0 <= k < |s| ==> if v[k] == '.' then s[k] != '\n' else s[k] == v[k]
  }

  /** Where ".*" may start when the head of the pattern matches at `i`: just
      after the '-' that closes the version. */
  function HeadEnd(name: string, i: nat, h: Head): (q: Option<nat>)
    requires i <= |name|
    ensures q.Some? ==> i < q.value <= |name| && name[q.value - 1] == '-'
    ensures q.Some? ==> HasPrefix(name[i..], h.lit)
  {
    if !HasPrefix(name[i..], h.lit) then None
    else
      var j := i + |h.lit|;
      match h
      case RunHead(_) =>
        var r := RunEnd(name, j);
        if j < r < |name| && name[r] == '-' then Some(r + 1) else None
      case VersionHead(_, v) =>
        var r := j + |v|;
        if r < |name| && WildMatch(name[j..r], v) && name[r] == '-' then Some(r + 1) else None
  }

  /** "-" flavour and then the tail sit at position `p`. */
  predicate FlavorAt(name: string, p: int, f: string, t: Tail) {
    && 0 <= p && p + 1 + |f| <= |name|
    && name[p] == '-' && name[p + 1..p + 1 + |f|] == f
    && match t
       case AtEnd => p + 1 + |f| == |name|
       case BeforeDbgsym => HasPrefix(name[p + 1 + |f|..], Dbgsym)
  }

  predicate NoNewline(name: string, q: int, p: int) {
    forall k :: q <= k < p && 0 <= k < |name| ==> name[k] != '\n'
  }

  /** One way the pattern matches: the head at `i`, ".*" up to `p`, then
      "-" flavour and the tail. */
  predicate MatchesAt(name: string, pat: Pattern, i: int, p: int, f: string) {
    && 0 <= i <= |name|
    && HeadEnd(name, i, pat.head).Some?
    && HeadEnd(name, i, pat.head).value <= p
    && NoNewline(name, HeadEnd(name, i, pat.head).value, p)
    && f in pat.flavors
    && FlavorAt(name, p, f, pat.tail)
  }

  /** The first alternative that fits at `p`. */
  function FirstFlavorAt(name: string, p: int, flavors: seq<string>, t: Tail): (r: Option<string>)
    ensures r.Some? ==> r.value in flavors && FlavorAt(name, p, r.value, t)
    ensures r.None? ==> forall f :: f in flavors ==> !FlavorAt(name, p, f, t)
  {
    if |flavors| == 0 then None
    else if FlavorAt(name, p, flavors[0], t) then Some(flavors[0])
    else FirstFlavorAt(name, p, flavors[1..], t)
  }

  /** The first newline at or after `q`, or the end of the string. */
  function LineEnd(name: string, q: nat): (e: nat)
    requires q <= |name|
    ensures q <= e <= |name| && NoNewline(name, q, e)
    ensures e < |name| ==> name[e] == '\n'
    ensures forall p :: q <= p <= |name| && NoNewline(name, q, p) ==> p <= e
    decreases |name| - q
  {
    if q == |name| || name[q] == '\n' then q else LineEnd(name, q + 1)
  }

  /** The largest `p` in `[q, hi]` where some alternative fits, with the
      first alternative that fits there. */
  function LastFlavor(name: string, q: nat, hi: int, flavors: seq<string>, t: Tail)
    : (r: Option<(nat, string)>)
    ensures r.Some? ==> q <= r.value.0 <= hi && FirstFlavorAt(name, r.value.0, flavors, t) == Some(r.value.1)
    ensures r.Some? ==> forall p, f :: r.value.0 < p <= hi && f in flavors ==> !FlavorAt(name, p, f, t)
    ensures r.None? ==> forall p, f :: q <= p <= hi && f in flavors ==> !FlavorAt(name, p, f, t)
    decreases hi - q
  {
    if hi < q then None
    else match FirstFlavorAt(name, hi, flavors, t)
      case Some(f) => Some((hi, f))
      case None => LastFlavor(name, q, hi - 1, flavors, t)
  }

  /** The flavour captured by a match starting at `i`, if one starts there. */
  function MatchAt(name: string, pat: Pattern, i: nat): (r: Option<(nat, string)>)
    requires i <= |name|
    ensures r.Some? ==> MatchesAt(name, pat, i, r.value.0, r.value.1)
    ensures r.Some? ==> forall p, f :: MatchesAt(name, pat, i, p, f) ==> p <= r.value.0
    ensures r.Some? ==> forall f :: MatchesAt(name, pat, i, r.value.0, f) ==>
                          FirstFlavorAt(name, r.value.0, pat.flavors, pat.tail) == Some(r.value.1)
    ensures r.None? ==> forall p, f :: !MatchesAt(name, pat, i, p, f)
  {
    match HeadEnd(name, i, pat.head)
    case None => None
    case Some(q) =>
      var e := LineEnd(name, q);
      LastFlavor(name, q, e, pat.flavors, pat.tail)
  }

  /** `FindStringSubmatch`'s capture: the flavour of the leftmost match. */
  function MatchFrom(name: string, pat: Pattern, i: nat): (r: Option<string>)
    requires i <= |name| + 1
    ensures r.Some? ==> exists j, p :: i <= j && MatchesAt(name, pat, j, p, r.value)
    ensures r.Some? ==> exists j :: i <= j <= |name| && MatchAt(name, pat, j).Some?
                                    && MatchAt(name, pat, j).value.1 == r.value
    ensures r.None? ==> forall j, p, f :: i <= j ==> !MatchesAt(name, pat, j, p, f)
    decreases |name| + 1 - i
  {
    if i > |name| then None
    else match MatchAt(name, pat, i)
      case Some((p, f)) => Some(f)
      case None => MatchFrom(name, pat, i + 1)
  }

  function Match(name: string, pat: Pattern): (r: Option<string>)
    ensures r.Some? <==> exists i, p, f :: MatchesAt(name, pat, i, p, f)
    ensures r.Some? ==> r.value in pat.flavors
  {
    MatchFrom(name, pat, 0)
  }

  /** Once some alternative fits in `[q, hi]`, the last place one fits does
      not depend on where the search starts. */
  lemma {:induction false} LastFlavorAnyStart(name: string, q: nat, hi: int, flavors: seq<string>, t: Tail)
    requires LastFlavor(name, q, hi, flavors, t).Some?
    ensures LastFlavor(name, 0, hi, flavors, t) == LastFlavor(name, q, hi, flavors, t)
    decreases hi - q
  {
    if FirstFlavorAt(name, hi, flavors, t).None? {
      LastFlavorAnyStart(name, q, hi - 1, flavors, t);
    }
  }

  /** On a single line, a match at `j` ends its ".*" at the last place
      after the head where an alternative fits. */
  lemma MatchAtIsLastFrom(name: string, pat: Pattern, j: nat)
    requires '\n' !in name && j <= |name| && MatchAt(name, pat, j).Some?
    ensures HeadEnd(name, j, pat.head).Some?
    ensures MatchAt(name, pat, j) == LastFlavor(name, HeadEnd(name, j, pat.head).value, |name|, pat.flavors, pat.tail)
  {
    var q := HeadEnd(name, j, pat.head).value;
    var e := LineEnd(name, q);
    assert forall k :: 0 <= k < |name| ==> name[k] in name;
    assert e == |name|;
    assert MatchAt(name, pat, j) == LastFlavor(name, q, e, pat.flavors, pat.tail);
  }

  /** On a single line, the captured flavour is the one at the last place in
      the whole name where "-" flavour and the tail fit, whichever head the
      pattern has. */
  lemma MatchIsLastFlavor(name: string, pat: Pattern)
    requires '\n' !in name
    ensures Match(name, pat).Some? ==>
              && LastFlavor(name, 0, |name|, pat.flavors, pat.tail).Some?
              && Match(name, pat).value == LastFlavor(name, 0, |name|, pat.flavors, pat.tail).value.1
  {
    if Match(name, pat).Some? {
      var j :| 0 <= j <= |name| && MatchAt(name, pat, j).Some?
               && MatchAt(name, pat, j).value.1 == Match(name, pat).value;
      MatchAtIsLastFrom(name, pat, j);
      LastFlavorAnyStart(name, HeadEnd(name, j, pat.head).value, |name|, pat.flavors, pat.tail);
    }
  }

  /** Two patterns with the same alternatives and tail capture the same
      flavour from a name both match: which kernel type matched a package
      cannot change its flavour, so the order in which the Go code visits its
      map of patterns does not matter. */
  lemma FlavorIndependentOfHead(name: string, p1: Pattern, p2: Pattern)
    requires '\n' !in name
    requires p1.flavors == p2.flavors && p1.tail == p2.tail
    requires Match(name, p1).Some? && Match(name, p2).Some?
    ensures Match(name, p1) == Match(name, p2)
  {
    MatchIsLastFlavor(name, p1);
    MatchIsLastFlavor(name, p2);
  }

  lemma FlavorAtEndSuffix(name: string, p: int, f: string)
    requires FlavorAt(name, p, f, AtEnd)
    ensures HasSuffix(name, "-" + f)
  {
    assert name[|name| - |"-" + f|..] == [name[p]] + name[p + 1..p + 1 + |f|];
  }

  /** An end-anchored match captures the flavour the name ends with. */
  lemma AnchoredMatchSuffix(name: string, pat: Pattern)
    requires pat.tail == AtEnd && Match(name, pat).Some?
    ensures HasSuffix(name, "-" + Match(name, pat).value)
  {
    var f := Match(name, pat).value;
    var i, p :| i <= |name| && MatchesAt(name, pat, i, p, f);
    FlavorAtEndSuffix(name, p, f);
  }
}
