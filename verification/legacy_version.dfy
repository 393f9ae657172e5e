/** The kernel version type of the older top-level program (version.go). Its
    code is the same as the packaged one; here it is written as the loops it
    is, and each loop is shown to compute the packaged definition. */
module LegacyVersion {
  import opened Wrappers
  import opened Text
  import KernelVersion

  /** Reads integers from the pieces of `s` one by one until a piece is not a
      number, as `splitIntoInts` does. */
  method SplitIntoInts(s: string) returns (nums: seq<int>)
    ensures nums == KernelVersion.SplitIntoInts(s)
  {
    var parts := SplitOn(s, KernelVersion.Separators);
    nums := [];
    var i := 0;
    while i < |parts|
      invariant 0 <= i <= |parts|
      invariant KernelVersion.NumericPrefix(parts) == nums + KernelVersion.NumericPrefix(parts[i..])
    {
      assert parts[i..][1..] == parts[i + 1..];
      var x := Atoi(parts[i]);
      if x.None? {
        return;
      }
      nums := nums + [x.value];
      i := i + 1;
    }
  }

  method NewKernelVersion(v: string) returns (k: KernelVersion.Version)
    ensures k == KernelVersion.NewKernelVersion(v)
  {
    var ints := SplitIntoInts(v);
    k := KernelVersion.Version(v, ints);
  }

  /** Walks both integer lists together: the first position where they differ
      decides, running past the end of `j` means `k` is not smaller, and when
      `k` runs out first it is smaller exactly when `j` is longer. */
  method Less(k: KernelVersion.Version, j: KernelVersion.Version) returns (r: bool)
    ensures r == KernelVersion.Less(k, j)
  {
    var vi, vj := k.ints, j.ints;
    var x := 0;
    while x < |vi|
      invariant 0 <= x <= |vi| && x <= |vj|
      invariant KernelVersion.LexLess(vi, vj) == KernelVersion.LexLess(vi[x..], vj[x..])
    {
      if x > |vj| - 1 {
        return false;
      }
      if vi[x] == vj[x] {
        assert vi[x..][1..] == vi[x + 1..] && vj[x..][1..] == vj[x + 1..];
        x := x + 1;
        continue;
      }
      return vi[x] < vj[x];
    }
    return |vi| < |vj|;
  }
}
