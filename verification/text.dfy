/** The slice of Go's `strings`, `strconv` and `unicode` packages that the
    package-index parsers rely on, over strings as sequences of characters. */
module Text {
  import opened Wrappers

  /** Largest value of a Go `uint64`. */
  const MaxUint64: nat := 0xFFFF_FFFF_FFFF_FFFF

  predicate HasPrefix(s: string, p: string) {
    |p| <= |s| && s[..|p|] == p
  }

  predicate HasSuffix(s: string, p: string) {
    |p| <= |s| && s[|s| - |p|..] == p
  }

  /** `strings.TrimPrefix`: removes `p` once from the front of `s` if it is there. */
  function TrimPrefix(s: string, p: string): (r: string)
    ensures HasPrefix(s, p) ==> p + r == s
    ensures !HasPrefix(s, p) ==> r == s
  {
    if HasPrefix(s, p) then
      assert s == s[..|p|] + s[|p|..];
      s[|p|..]
    else s
  }

  /** `strings.TrimSuffix`: removes `p` once from the end of `s` if it is there. */
  function TrimSuffix(s: string, p: string): (r: string)
    ensures HasSuffix(s, p) ==> r + p == s
    ensures !HasSuffix(s, p) ==> r == s
  {
    if HasSuffix(s, p) then
      assert s == s[..|s| - |p|] + s[|s| - |p|..];
      s[..|s| - |p|]
    else s
  }

  /** `sep` occurs in `s` starting at position `k`. */
  predicate OccursAt(s: string, sep: string, k: int) {
    0 <= k && k + |sep| <= |s| && s[k..k + |sep|] == sep
  }

  /** The first position at or after `i` where `sep` occurs in `s`. */
  function IndexFrom(s: string, sep: string, i: nat): (r: Option<nat>)
    requires i <= |s|
    ensures r.Some? ==> i <= r.value && OccursAt(s, sep, r.value)
    ensures r.Some? ==> forall k :: i <= k < r.value ==> !OccursAt(s, sep, k)
    ensures r.None? ==> forall k :: i <= k <= |s| ==> !OccursAt(s, sep, k)
    decreases |s| - i
  {
    if OccursAt(s, sep, i) then Some(i)
    else if i == |s| then None
    else IndexFrom(s, sep, i + 1)
  }

  /** `strings.Cut`: the text before and after the first occurrence of `sep`,
      or `None` (Go's `found == false`) when `sep` does not occur. */
  function Cut(s: string, sep: string): (r: Option<(string, string)>)
    ensures r.Some? ==> r.value.0 + sep + r.value.1 == s
    ensures r.Some? ==> forall k :: 0 <= k < |r.value.0| ==> !OccursAt(s, sep, k)
    ensures r.None? ==> forall k :: 0 <= k <= |s| ==> !OccursAt(s, sep, k)
  {
    match IndexFrom(s, sep, 0)
    case None => None
    case Some(i) =>
      assert s == s[..i] + s[i..i + |sep|] + s[i + |sep|..];
      Some((s[..i], s[i + |sep|..]))
  }

  /** A one-character separator absent from `a` cuts `a + [c] + b` right
      after `a`. */
  lemma CutAtFirst(a: string, c: char, b: string)
    requires c !in a
    ensures Cut(a + [c] + b, [c]) == Some((a, b))
  {
    var s := a + [c] + b;
    assert OccursAt(s, [c], |a|);
    var i := IndexFrom(s, [c], 0);
    assert i.Some? && i.value <= |a|;
    assert s[i.value] == c;
    assert forall k :: 0 <= k < |a| ==> s[k] == a[k];
    assert i.value == |a|;
    assert s[..|a|] == a && s[|a| + 1..] == b;
  }

  /** `strings.LastIndex` for a one-character separator. */
  function LastIndexOf(s: string, c: char): (r: Option<nat>)
    ensures r.Some? ==> r.value < |s| && s[r.value] == c
    ensures r.Some? ==> forall k :: r.value < k < |s| ==> s[k] != c
    ensures r.None? ==> c !in s
  {
    if |s| == 0 then None
    else if s[|s| - 1] == c then Some(|s| - 1)
    else
      var r := LastIndexOf(s[..|s| - 1], c);
      assert s == s[..|s| - 1] + [s[|s| - 1]];
      r
  }

  /** The last occurrence of `c` in `a + [c] + b`, when `b` has none, is the
      one after `a`. */
  lemma {:induction false} LastIndexAt(a: string, c: char, b: string)
    requires c !in b
    ensures LastIndexOf(a + [c] + b, c) == Some(|a|)
    decreases |b|
  {
    var s := a + [c] + b;
    if |b| > 0 {
      var b' := b[..|b| - 1];
      assert s[|s| - 1] == b[|b| - 1];
      assert s[..|s| - 1] == a + [c] + b';
      LastIndexAt(a, c, b');
    }
  }

  /** The white space that `unicode.IsSpace` reports in the Latin-1 range.
      Wider Unicode spaces are outside this model. */
  predicate IsSpace(c: char) {
    c == ' ' || c == '\t' || c == '\n' || c == '\r' || c == '\U{000B}' || c == '\U{000C}'
    || c == '\U{0085}' || c == '\U{00A0}'
  }

  function TrimLeftSpace(s: string): (r: string)
    ensures |r| <= |s| && r == s[|s| - |r|..]
    ensures forall k :: 0 <= k < |s| - |r| ==> IsSpace(s[k])
    ensures |r| > 0 ==> !IsSpace(r[0])
  {
    if |s| > 0 && IsSpace(s[0]) then TrimLeftSpace(s[1..]) else s
  }

  function TrimRightSpace(s: string): (r: string)
    ensures |r| <= |s| && r == s[..|r|]
    ensures forall k :: |r| <= k < |s| ==> IsSpace(s[k])
    ensures |r| > 0 ==> !IsSpace(r[|r| - 1])
  {
    if |s| > 0 && IsSpace(s[|s| - 1]) then TrimRightSpace(s[..|s| - 1]) else s
  }

  /** `strings.TrimSpace`: strips leading and trailing white space. The
      result is the middle of `s` between a run of spaces at each end, and
      it neither starts nor ends with a space. */
  function TrimSpace(s: string): (r: string)
    ensures exists i, j :: 0 <= i <= j <= |s| && r == s[i..j] && SpaceOutside(s, i, j)
    ensures |r| > 0 ==> !IsSpace(r[0]) && !IsSpace(r[|r| - 1])
  {
    var l := TrimLeftSpace(s);
    var r := TrimRightSpace(l);
    var i := |s| - |l|;
    assert r == s[i..i + |r|] && SpaceOutside(s, i, i + |r|);
    r
  }

  /** Every character of `s` before `i` and from `j` on is white space. */
  predicate SpaceOutside(s: string, i: int, j: int)
    requires 0 <= i <= j <= |s|
  {
    (forall k :: 0 <= k < i ==> IsSpace(s[k])) && (forall k :: j <= k < |s| ==> IsSpace(s[k]))
  }

  /** Trimming is the only way to cut `s` down to a middle part with white
      space outside it and none at its ends: any such part is `TrimSpace(s)`. */
  lemma TrimSpaceUnique(s: string, i: int, j: int)
    requires 0 <= i <= j <= |s| && SpaceOutside(s, i, j)
    requires i < j ==> !IsSpace(s[i]) && !IsSpace(s[j - 1])
    ensures TrimSpace(s) == s[i..j]
  {
    var r := TrimSpace(s);
    var i', j' :| 0 <= i' <= j' <= |s| && r == s[i'..j'] && SpaceOutside(s, i', j');
    if i < j && i' < j' {
      assert !IsSpace(r[0]) && !IsSpace(r[|r| - 1]);
      assert r[0] == s[i'] && r[|r| - 1] == s[j' - 1];
      assert i == i' && j == j';
    } else if i < j || i' < j' {
      assert false;
    }
  }

  /** Trailing white space is trimmed off a string that starts and ends with
      other characters. */
  lemma TrimSpaceTrailing(s: string, t: string)
    requires |s| > 0 && !IsSpace(s[0]) && !IsSpace(s[|s| - 1])
    requires forall k :: 0 <= k < |t| ==> IsSpace(t[k])
    ensures TrimSpace(s + t) == s
    decreases |t|
  {
    if |t| == 0 {
      assert s + t == s;
      TrimSpaceOfTrimmed(s);
    } else {
      var u := s + t;
      assert TrimLeftSpace(u) == u;
      assert u[..|u| - 1] == s + t[..|t| - 1];
      TrimSpaceTrailing(s, t[..|t| - 1]);
      assert TrimLeftSpace(s + t[..|t| - 1]) == s + t[..|t| - 1];
    }
  }

  /** Trimming leaves a string alone when it starts with a non-space and its
      last character is not a space either. */
  lemma TrimSpaceOfTrimmed(s: string)
    requires |s| > 0 && !IsSpace(s[0]) && !IsSpace(s[|s| - 1])
    ensures TrimSpace(s) == s
  {
  }

  /** Trimming keeps a non-space prefix in place. */
  lemma {:induction false} TrimSpaceKeepsPrefix(s: string, p: string)
    requires HasPrefix(s, p) && |p| > 0 && !IsSpace(p[0]) && !IsSpace(p[|p| - 1])
    ensures HasPrefix(TrimSpace(s), p)
  {
    var l := TrimLeftSpace(s);
    assert l == s;
    var r := TrimRightSpace(l);
    assert s[|p| - 1] == p[|p| - 1];
    assert |r| >= |p|;
    assert r == s[..|r|];
  }

  predicate IsDigit(c: char) {
    '0' <= c <= '9'
  }

  predicate AllDigits(s: string) {
    forall k :: 0 <= k < |s| ==> IsDigit(s[k])
  }

  /** The value of a string of decimal digits. */
  function DecimalValue(s: string): nat
    requires AllDigits(s)
  {
    if |s| == 0 then 0
    else DecimalValue(s[..|s| - 1]) * 10 + (s[|s| - 1] as int - '0' as int)
  }

  /** The decimal digits of `n`, without leading zeros. */
  function DecimalString(n: nat): (s: string)
    ensures |s| > 0 && AllDigits(s)
  {
    var d := ['0' + (n % 10) as char];
    if n < 10 then d else DecimalString(n / 10) + d
  }

  /** Reading back the digits of a number gives the number. */
  lemma {:induction false} DecimalRoundTrip(n: nat)
    ensures DecimalValue(DecimalString(n)) == n
  {
    var s := DecimalString(n);
    var d := ['0' + (n % 10) as char];
    assert d[0] as int - '0' as int == n % 10;
    if n < 10 {
      assert s == d;
      assert s[..|s| - 1] == "";
    } else {
      DecimalRoundTrip(n / 10);
      assert s == DecimalString(n / 10) + d;
      assert s[..|s| - 1] == DecimalString(n / 10);
      assert s[|s| - 1] == d[0];
    }
  }

  /** `strconv.ParseUint(s, 10, 64)`: a non-empty run of decimal digits whose
      value fits in 64 bits; anything else is an error (`None`). */
  function ParseUint(s: string): (r: Option<nat>)
    ensures r.Some? <==> |s| > 0 && AllDigits(s) && DecimalValue(s) <= MaxUint64
    ensures r.Some? ==> r.value == DecimalValue(s) && r.value <= MaxUint64
  {
    if |s| > 0 && AllDigits(s) && DecimalValue(s) <= MaxUint64 then Some(DecimalValue(s)) else None
  }

  /** Every 64-bit value written in decimal is accepted by `ParseUint`. */
  lemma ParseUintOfDecimal(n: nat)
    requires n <= MaxUint64
    ensures ParseUint(DecimalString(n)) == Some(n)
  {
    DecimalRoundTrip(n);
  }

  /** `strconv.Atoi`: an optional sign followed by at least one decimal digit.
      The range check against 64 bits is outside this model. */
  function Atoi(s: string): (r: Option<int>)
    ensures r.Some? <==> (|s| > 0 && AllDigits(s)) || (|s| > 1 && (s[0] == '+' || s[0] == '-') && AllDigits(s[1..]))
    ensures |s| > 0 && AllDigits(s) ==> r == Some(DecimalValue(s) as int)
    ensures |s| > 1 && s[0] == '+' && AllDigits(s[1..]) ==> r == Some(DecimalValue(s[1..]) as int)
    ensures |s| > 1 && s[0] == '-' && AllDigits(s[1..]) ==> r == Some(-(DecimalValue(s[1..]) as int))
  {
    if |s| > 0 && AllDigits(s) then Some(DecimalValue(s) as int)
    else if |s| > 1 && s[0] == '+' && AllDigits(s[1..]) then Some(DecimalValue(s[1..]) as int)
    else if |s| > 1 && s[0] == '-' && AllDigits(s[1..]) then Some(-(DecimalValue(s[1..]) as int))
    else None
  }

  /** No character of `t` is in `seps`. */
  predicate Avoids(t: string, seps: set<char>) {
    forall k :: 0 <= k < |t| ==> t[k] !in seps
  }

  /** Splits `s` at every character of `seps`, keeping empty pieces, as
      `strings.Split` and `regexp.Split(s, -1)` do. */
  function SplitOn(s: string, seps: set<char>): (parts: seq<string>)
    ensures |parts| >= 1
    ensures forall k :: 0 <= k < |parts| ==> Avoids(parts[k], seps)
    ensures |parts| == 1 <==> Avoids(s, seps)
    ensures Avoids(s, seps) ==> parts == [s]
  {
    if |s| == 0 then [""]
    else
      var rest := SplitOn(s[1..], seps);
      assert s == [s[0]] + s[1..];
      assert Avoids(s, seps) <==> s[0] !in seps && Avoids(s[1..], seps);
      if s[0] in seps then [""] + rest
      else [[s[0]] + rest[0]] + rest[1..]
  }

  /** A piece free of separators followed by a separator is the first piece
      of the split, and splitting goes on after the separator; with the
      contract's case of a string free of separators, this determines
      `SplitOn` for any set of separators. */
  lemma {:induction false} SplitOnStep(a: string, c: char, b: string, seps: set<char>)
    requires Avoids(a, seps) && c in seps
    ensures SplitOn(a + [c] + b, seps) == [a] + SplitOn(b, seps)
  {
    var s := a + [c] + b;
    if |a| > 0 {
      SplitOnStep(a[1..], c, b, seps);
      assert s[1..] == a[1..] + [c] + b;
      assert s[0] == a[0] && a[0] !in seps;
      assert a == [a[0]] + a[1..];
    } else {
      assert s[1..] == b;
    }
  }

  /** `strings.Join` with a one-character separator. */
  function Join(parts: seq<string>, c: char): string {
    if |parts| == 0 then ""
    else if |parts| == 1 then parts[0]
    else parts[0] + [c] + Join(parts[1..], c)
  }

  /** Joining the pieces of a split with the same separator gives the input back. */
  lemma {:induction false} JoinSplit(s: string, c: char)
    ensures Join(SplitOn(s, {c}), c) == s
  {
    if |s| > 0 {
      var rest := SplitOn(s[1..], {c});
      JoinSplit(s[1..], c);
      if s[0] == c {
        assert SplitOn(s, {c}) == [""] + rest;
        assert s == [c] + s[1..];
      } else {
        var parts := SplitOn(s, {c});
        assert parts == [[s[0]] + rest[0]] + rest[1..];
        if |rest| > 1 {
          assert Join(rest, c) == rest[0] + [c] + Join(rest[1..], c);
          assert parts[1..] == rest[1..];
        }
        assert s == [s[0]] + s[1..];
      }
    }
  }

  /** Joining all but the last piece of a split of `s` on `c` gives the text
      before the last `c`, or the empty string when there is none. */
  ghost predicate DropsLastPiece(s: string, c: char) {
    var parts := SplitOn(s, {c});
    Join(parts[..|parts| - 1], c) == match LastIndexOf(s, c) case Some(i) => s[..i] case None => ""
  }

  /** Joining all but the last piece of a split gives the text before the last
      separator, or the empty string when there is none. */
  lemma {:induction false} JoinDropLast(s: string, c: char)
    ensures var parts := SplitOn(s, {c});
            Join(parts[..|parts| - 1], c) == match LastIndexOf(s, c) case Some(i) => s[..i] case None => ""
  {
    if |s| > 0 {
      JoinDropLast(s[1..], c);
      if s[0] == c {
        DropsLastPieceAfterSeparator(s, c);
      } else {
        DropsLastPieceAfterOther(s, c);
      }
    }
  }

  /** The step of `JoinDropLast` for a string that starts with the separator. */
  lemma DropsLastPieceAfterSeparator(s: string, c: char)
    requires |s| > 0 && s[0] == c && DropsLastPiece(s[1..], c)
    ensures DropsLastPiece(s, c)
  {
    var parts := SplitOn(s, {c});
    var t := s[1..];
    var rest := SplitOn(t, {c});
    var front := rest[..|rest| - 1];
    assert parts == [""] + rest;
    assert parts[..|parts| - 1] == [""] + front;
    LastIndexCons(s, c);
    if |rest| == 1 {
      LastIndexAvoid(t, c);
    } else {
      assert Join([""] + front, c) == "" + [c] + Join(front, c);
    }
  }

  /** The step of `JoinDropLast` for a string that starts with another character. */
  lemma DropsLastPieceAfterOther(s: string, c: char)
    requires |s| > 0 && s[0] != c && DropsLastPiece(s[1..], c)
    ensures DropsLastPiece(s, c)
  {
    var parts := SplitOn(s, {c});
    var t := s[1..];
    var rest := SplitOn(t, {c});
    var front := rest[..|rest| - 1];
    assert parts == [[s[0]] + rest[0]] + rest[1..];
    LastIndexCons(s, c);
    if |rest| == 1 {
      assert parts[..|parts| - 1] == [];
      LastIndexAvoid(t, c);
    } else {
      DropsLastPieceAfterOtherSplit(s, c);
    }
  }

  /** `DropsLastPieceAfterOther` when the tail holds a separator. */
  lemma DropsLastPieceAfterOtherSplit(s: string, c: char)
    requires |s| > 0 && s[0] != c && DropsLastPiece(s[1..], c)
    requires |SplitOn(s[1..], {c})| > 1
    ensures DropsLastPiece(s, c)
  {
    var parts := SplitOn(s, {c});
    var t := s[1..];
    var rest := SplitOn(t, {c});
    var front := rest[..|rest| - 1];
    assert parts == [[s[0]] + rest[0]] + rest[1..];
    assert parts[..|parts| - 1] == [[s[0]] + front[0]] + front[1..];
    JoinPrependHead(s[0], front, c);
    assert !Avoids(t, {c});
    var i := LastIndexOf(t, c).value;
    LastIndexCons(s, c);
    assert s[..i + 1] == [s[0]] + t[..i];
  }

  /** Prefixing the first piece prefixes the join. */
  lemma JoinPrependHead(x: char, ps: seq<string>, c: char)
    requires |ps| > 0
    ensures Join([[x] + ps[0]] + ps[1..], c) == [x] + Join(ps, c)
  {
    var q := [[x] + ps[0]] + ps[1..];
    if |ps| > 1 {
      assert q[1..] == ps[1..];
    }
  }

  /** A string that avoids `c` has no last occurrence of it. */
  lemma LastIndexAvoid(s: string, c: char)
    requires Avoids(s, {c})
    ensures LastIndexOf(s, c).None?
  {
    if |s| > 0 {
      assert s[|s| - 1] in s;
      LastIndexAvoid(s[..|s| - 1], c);
    }
  }

  /** The last occurrence of `c` in `s` is found in the tail `s[1..]` when
      there is one there, and is position 0 otherwise. */
  lemma {:induction false} LastIndexCons(s: string, c: char)
    requires |s| > 0
    ensures match LastIndexOf(s[1..], c)
            case Some(i) => LastIndexOf(s, c) == Some(i + 1)
            case None => LastIndexOf(s, c) == if s[0] == c then Some(0) else None
  {
    if |s| > 1 && s[|s| - 1] != c {
      var init := s[..|s| - 1];
      LastIndexCons(init, c);
      assert init[1..] == s[1..][..|s[1..]| - 1];
    }
  }

  /** `strings.FieldsFunc`: the non-empty runs of characters outside `seps`. */
  function Fields(s: string, seps: set<char>): (fields: seq<string>)
    ensures forall k :: 0 <= k < |fields| ==> |fields[k]| > 0 && Avoids(fields[k], seps)
    ensures Avoids(s, seps) ==> fields == if |s| > 0 then [s] else []
  {
    var parts := SplitOn(s, seps);
    assert Avoids(s, seps) ==> parts == [s] && NonEmpty(parts[1..]) == [];
    NonEmpty(parts)
  }

  /** A run free of separators followed by a separator is the first field
      when it is not empty, and fields go on after the separator; with the
      contract's case of a string free of separators, this determines
      `Fields`. */
  lemma FieldsStep(a: string, c: char, b: string, seps: set<char>)
    requires Avoids(a, seps) && c in seps
    ensures Fields(a + [c] + b, seps) == (if |a| > 0 then [a] else []) + Fields(b, seps)
  {
    SplitOnStep(a, c, b, seps);
    var rest := SplitOn(b, seps);
    assert ([a] + rest)[1..] == rest;
  }

  /** Drops the empty strings of a sequence, keeping the order of the rest. */
  function NonEmpty(parts: seq<string>): (r: seq<string>)
    ensures forall k :: 0 <= k < |r| ==> |r[k]| > 0
    ensures forall t :: t in r <==> t in parts && |t| > 0
  {
    if |parts| == 0 then []
    else if |parts[0]| == 0 then NonEmpty(parts[1..])
    else [parts[0]] + NonEmpty(parts[1..])
  }
}
