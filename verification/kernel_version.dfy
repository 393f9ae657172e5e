/** Kernel version strings and the order in which every repository processes
    kernels: a version keeps its source string and the integers read from it. */
module KernelVersion {
  import opened Wrappers
  import opened Text

  /** The characters the version string is split on. */
  const Separators: set<char> := {'.', '~', '-'}

  /** A kernel version: the string it was made from and its leading integers. */
  datatype Version = Version(str: string, ints: seq<int>)

  /** The leading components that `Atoi` accepts, stopping at the first it rejects. */
  function NumericPrefix(parts: seq<string>): (nums: seq<int>)
    ensures |nums| <= |parts|
    ensures forall k :: 0 <= k < |nums| ==> Atoi(parts[k]) == Some(nums[k])
    ensures |nums| < |parts| ==> Atoi(parts[|nums|]).None?
  {
    if |parts| == 0 then []
    else match Atoi(parts[0])
      case None => []
      case Some(x) => [x] + NumericPrefix(parts[1..])
  }

  /** The integers of a version string: its pieces between '.', '~' and '-',
      up to the first piece that is not a number. */
  function SplitIntoInts(s: string): seq<int> {
    NumericPrefix(SplitOn(s, Separators))
  }

  function NewKernelVersion(v: string): Version {
    Version(v, SplitIntoInts(v))
  }

  predicate IsZero(k: Version) {
    k.str == ""
  }

  function String(k: Version): string {
    k.str
  }

  /** A version keeps its source string; it is zero exactly when that string is
      empty, and the zero version has no integers. */
  lemma NewKernelVersionKeepsString(v: string)
    ensures String(NewKernelVersion(v)) == v
    ensures IsZero(NewKernelVersion(v)) <==> v == ""
    ensures v == "" ==> NewKernelVersion(v).ints == []
  {
    if v == "" {
      assert SplitOn(v, Separators) == [""];
    }
  }

  /** The integers of a version are never negative, since '-' separates pieces
      and so can never be a sign. */
  lemma SplitIntoIntsNonNegative(s: string)
    ensures forall k :: 0 <= k < |SplitIntoInts(s)| ==> SplitIntoInts(s)[k] >= 0
  {
    var parts := SplitOn(s, Separators);
    var nums := SplitIntoInts(s);
    forall k | 0 <= k < |nums|
      ensures nums[k] >= 0
    {
      assert Avoids(parts[k], Separators);
      if |parts[k]| > 0 {
        assert parts[k][0] != '-';
      }
    }
  }

  /** Lexicographic order on integer lists; a proper prefix comes first. */
  predicate LexLess(x: seq<int>, y: seq<int>) {
    if |x| == 0 then |y| > 0
    else if |y| == 0 then false
    else if x[0] == y[0] then LexLess(x[1..], y[1..])
    else x[0] < y[0]
  }

  /** `KernelVersion.Less`: compares the integer lists only. */
  predicate Less(a: Version, b: Version) {
    LexLess(a.ints, b.ints)
  }

  /** `x` and `y` first differ at position `k`, and there `x` is smaller. */
  ghost predicate FirstDifferenceBelow(x: seq<int>, y: seq<int>, k: int) {
    0 <= k < |x| && k < |y| && x[..k] == y[..k] && x[k] < y[k]
  }

  /** `LexLess` is the lexicographic order: either the lists first differ at a
      place where `x` is smaller, or `x` is a proper prefix of `y`. */
  lemma {:induction false} LexLessIsLexicographic(x: seq<int>, y: seq<int>)
    ensures LexLess(x, y) <==>
            (exists k :: FirstDifferenceBelow(x, y, k)) || (|x| < |y| && x == y[..|x|])
  {
    if |x| > 0 && |y| > 0 {
      LexLessIsLexicographic(x[1..], y[1..]);
      if x[0] == y[0] {
        if exists k :: FirstDifferenceBelow(x[1..], y[1..], k) {
          var k :| FirstDifferenceBelow(x[1..], y[1..], k);
          assert x[..k + 1] == [x[0]] + x[1..][..k];
          assert y[..k + 1] == [y[0]] + y[1..][..k];
          assert FirstDifferenceBelow(x, y, k + 1);
        }
        if exists k :: FirstDifferenceBelow(x, y, k) {
          var k :| FirstDifferenceBelow(x, y, k);
          assert k != 0;
          assert x[1..][..k - 1] == x[..k][1..];
          assert y[1..][..k - 1] == y[..k][1..];
          assert FirstDifferenceBelow(x[1..], y[1..], k - 1);
        }
        assert x == [x[0]] + x[1..];
        if |x| <= |y| {
          assert y[..|x|] == [y[0]] + y[1..][..|x| - 1];
        }
      } else {
        assert x[..0] == y[..0];
        if x[0] < y[0] {
          assert FirstDifferenceBelow(x, y, 0);
        }
        forall k | FirstDifferenceBelow(x, y, k)
          ensures x[0] < y[0]
        {
          if k > 0 {
            assert x[..k][0] == y[..k][0];
          }
        }
        assert |x| < |y| ==> y[..|x|][0] == y[0];
      }
    } else if |x| == 0 {
      assert x == y[..0];
    }
  }

  /** Any two integer lists are ordered one way or the other, or are equal. */
  lemma {:induction false} LexLessTotal(x: seq<int>, y: seq<int>)
    ensures LexLess(x, y) || x == y || LexLess(y, x)
  {
    if |x| > 0 && |y| > 0 && x[0] == y[0] {
      LexLessTotal(x[1..], y[1..]);
      if x[1..] == y[1..] {
        assert x == [x[0]] + x[1..] && y == [y[0]] + y[1..];
      }
    }
  }

  lemma {:induction false} LexLessIrreflexive(x: seq<int>)
    ensures !LexLess(x, x)
  {
    if |x| > 0 {
      LexLessIrreflexive(x[1..]);
    }
  }

  lemma {:induction false} LexLessAsymmetric(x: seq<int>, y: seq<int>)
    ensures !(LexLess(x, y) && LexLess(y, x))
  {
    if |x| > 0 && |y| > 0 && x[0] == y[0] {
      LexLessAsymmetric(x[1..], y[1..]);
    }
  }

  lemma {:induction false} LexLessTransitive(x: seq<int>, y: seq<int>, z: seq<int>)
    requires LexLess(x, y) && LexLess(y, z)
    ensures LexLess(x, z)
  {
    if |x| > 0 && x[0] == y[0] && y[0] == z[0] {
      LexLessTransitive(x[1..], y[1..], z[1..]);
    }
  }

  /** `Less` never relates a version to itself, never both ways, and chains. */
  lemma LessIsStrictOrder(a: Version, b: Version, c: Version)
    ensures !Less(a, a)
    ensures !(Less(a, b) && Less(b, a))
    ensures Less(a, b) && Less(b, c) ==> Less(a, c)
  {
    LexLessIrreflexive(a.ints);
    LexLessAsymmetric(a.ints, b.ints);
    if Less(a, b) && Less(b, c) {
      LexLessTransitive(a.ints, b.ints, c.ints);
    }
  }

  /** Two versions are unordered exactly when their integer lists are equal,
      whatever their strings; so being unordered is an equivalence and `Less`
      is a strict weak order that `sort.Sort` can use. */
  lemma IncomparableIffSameInts(a: Version, b: Version)
    ensures !Less(a, b) && !Less(b, a) <==> a.ints == b.ints
  {
    LexLessTotal(a.ints, b.ints);
    LexLessIrreflexive(a.ints);
  }

  /** "Not less than" chains: the fact sorting by insertion relies on. */
  lemma NotLessTransitive(a: Version, b: Version, c: Version)
    requires !Less(a, b) && !Less(b, c)
    ensures !Less(a, c)
  {
    LexLessTotal(a.ints, b.ints);
    LexLessTotal(b.ints, c.ints);
    if Less(a, c) {
      if b.ints == a.ints {
        LexLessAsymmetric(c.ints, a.ints);
      } else if b.ints == c.ints {
        LexLessAsymmetric(a.ints, c.ints);
      } else {
        LexLessTransitive(c.ints, b.ints, a.ints);
        LexLessAsymmetric(a.ints, c.ints);
      }
    }
  }
}
