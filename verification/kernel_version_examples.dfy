/** The expectations of the repository's version tests (kernel_test.go and
    version_test.go), derived from the version model. */
module KernelVersionExamples {
  import opened Wrappers
  import opened Text
  import opened KernelVersion

  /** A leading piece of digits contributes its value and reading goes on. */
  lemma NumericPrefixCons(p: string, rest: seq<string>)
    requires |p| > 0 && AllDigits(p)
    ensures NumericPrefix([p] + rest) == [DecimalValue(p)] + NumericPrefix(rest)
  {
    assert ([p] + rest)[1..] == rest;
  }

  /** A literal prefix `p`, made of a piece `a` and a separator `c` and more
      text `m`, contributes `a` as the first piece of `p + t`. */
  lemma SplitPrefix(p: string, a: string, c: char, m: string, t: string)
    requires p == a + [c] + m && Avoids(a, Separators) && c in Separators
    ensures SplitOn(p + t, Separators) == [a] + SplitOn(m + t, Separators)
  {
    assert p + t == a + [c] + (m + t);
    SplitOnStep(a, c, m + t, Separators);
  }

  /** The pieces of a base "x.y.z-" followed by `t`, for pieces `x`, `y`, `z`
      free of separators. */
  lemma SplitBase(x: string, y: string, z: string, t: string)
    requires Avoids(x, Separators) && Avoids(y, Separators) && Avoids(z, Separators)
    ensures SplitOn(x + "." + y + "." + z + "-" + t, Separators) == [x, y, z] + SplitOn(t, Separators)
  {
    var rest := SplitOn(t, Separators);
    assert z + "-" == z + ['-'] + "" && "" + t == t;
    assert y + "." + z + "-" == y + ['.'] + (z + "-");
    assert x + "." + y + "." + z + "-" == x + ['.'] + (y + "." + z + "-");
    assert [x] + ([y] + ([z] + rest)) == [x, y, z] + rest;
    SplitPrefix(z + "-", z, '-', "", t);
    SplitPrefix(y + "." + z + "-", y, '.', z + "-", t);
    SplitPrefix(x + "." + y + "." + z + "-", x, '.', y + "." + z + "-", t);
  }

  /** A piece that spells the number `n` contributes `n`, and reading goes on. */
  lemma IntsCons(p: string, n: nat, rest: seq<string>)
    requires p == DecimalString(n)
    ensures NumericPrefix([p] + rest) == [n] + NumericPrefix(rest)
  {
    DecimalRoundTrip(n);
    NumericPrefixCons(p, rest);
  }

  lemma IntsOfZero(rest: seq<string>)
    ensures NumericPrefix(["0"] + rest) == [0] + NumericPrefix(rest)
  {
    IntsCons("0", 0, rest);
  }

  lemma IntsOfTenZero(rest: seq<string>)
    ensures NumericPrefix(["10", "0"] + rest) == [10, 0] + NumericPrefix(rest)
  {
    assert ["10", "0"] + rest == ["10"] + (["0"] + rest);
    IntsOfZero(rest);
    IntsCons("10", 10, ["0"] + rest);
  }

  lemma IntsOfRhelBase(rest: seq<string>)
    ensures NumericPrefix(["3", "10", "0"] + rest) == [3, 10, 0] + NumericPrefix(rest)
  {
    assert ["3", "10", "0"] + rest == ["3"] + (["10", "0"] + rest);
    IntsOfTenZero(rest);
    IntsCons("3", 3, ["10", "0"] + rest);
  }

  /** The integers of "3.10.0-" followed by `t` start with 3, 10, 0 and go on
      with those of `t`. */
  lemma IntsAfterRhelBase(t: string)
    ensures SplitIntoInts("3.10.0-" + t) == [3, 10, 0] + SplitIntoInts(t)
  {
    assert "3" + "." + "10" + "." + "0" + "-" == "3.10.0-";
    SplitBase("3", "10", "0", t);
    IntsOfRhelBase(SplitOn(t, Separators));
  }

  /** A piece spelling `n`, a separator and more text: `n` is read first. */
  lemma IntsOfNumberThen(p: string, n: nat, c: char, t: string)
    requires p == DecimalString(n) && c in Separators
    ensures SplitIntoInts(p + [c] + t) == [n] + SplitIntoInts(t)
  {
    DecimalRoundTrip(n);
    SplitOnStep(p, c, t, Separators);
    IntsCons(p, n, SplitOn(t, Separators));
  }

  /** A piece spelling `n`, alone. */
  lemma IntsOfNumber(p: string, n: nat)
    requires p == DecimalString(n)
    ensures SplitIntoInts(p) == [n]
  {
    DecimalRoundTrip(n);
    assert SplitOn(p, Separators) == [p];
    IntsCons(p, n, []);
    assert [p] + [] == [p];
  }

  lemma IntsOfEl7()
    ensures SplitIntoInts("el7") == []
  {
    assert Avoids("el7", Separators);
    assert SplitOn("el7", Separators) == ["el7"];
    assert !IsDigit('e');
  }

  lemma IntsOf957El7()
    ensures SplitIntoInts("957.el7") == [957]
  {
    assert "957" + ['.'] + "el7" == "957.el7";
    IntsOfEl7();
    IntsOfNumberThen("957", 957, '.', "el7");
  }

  lemma IntsOf957Dot100()
    ensures SplitIntoInts("957.100") == [957, 100]
  {
    assert "957" + ['.'] + "100" == "957.100";
    IntsOfNumber("100", 100);
    IntsOfNumberThen("957", 957, '.', "100");
  }

  /** The integers of "3.10.0-" followed by a tail whose integers are known. */
  lemma IntsOfRhel(v: string, t: string, tail: seq<int>)
    requires v == "3.10.0-" + t && SplitIntoInts(t) == tail
    ensures SplitIntoInts(v) == [3, 10, 0] + tail
  {
    IntsAfterRhelBase(t);
  }

  /** The integers read from typical RHEL version strings: reading stops at
      the first piece that is not a number. */
  lemma IntsOfRhelEl7()
    ensures SplitIntoInts("3.10.0-957.el7") == [3, 10, 0, 957]
  {
    assert "3.10.0-957.el7" == "3.10.0-" + "957.el7";
    IntsOf957El7();
    IntsOfRhel("3.10.0-957.el7", "957.el7", [957]);
  }

  lemma IntsOfRhel957()
    ensures SplitIntoInts("3.10.0-957") == [3, 10, 0, 957]
  {
    assert "3.10.0-957" == "3.10.0-" + "957";
    IntsOfNumber("957", 957);
    IntsOfRhel("3.10.0-957", "957", [957]);
  }

  lemma IntsOfRhel957Dot100()
    ensures SplitIntoInts("3.10.0-957.100") == [3, 10, 0, 957, 100]
  {
    assert "3.10.0-957.100" == "3.10.0-" + "957.100";
    IntsOf957Dot100();
    IntsOfRhel("3.10.0-957.100", "957.100", [957, 100]);
  }

  lemma IntsOfRhel956()
    ensures SplitIntoInts("3.10.0-956") == [3, 10, 0, 956]
  {
    assert "3.10.0-956" == "3.10.0-" + "956";
    IntsOfNumber("956", 956);
    IntsOfRhel("3.10.0-956", "956", [956]);
  }

  /** A version with an extra non-numeric piece is unordered with the same
      version without it; a smaller last number, or an extra numeric piece,
      orders as expected. */
  lemma VersionOrderingExamples()
    ensures !Less(NewKernelVersion("3.10.0-957"), NewKernelVersion("3.10.0-957.el7"))
    ensures !Less(NewKernelVersion("3.10.0-957.el7"), NewKernelVersion("3.10.0-957"))
    ensures Less(NewKernelVersion("3.10.0-956"), NewKernelVersion("3.10.0-957.el7"))
    ensures Less(NewKernelVersion("3.10.0-957"), NewKernelVersion("3.10.0-957.100"))
  {
    IntsOfRhelEl7();
    IntsOfRhel957();
    IntsOfRhel957Dot100();
    IntsOfRhel956();
    LexLessIrreflexive([3, 10, 0, 957]);
    assert [3, 10, 0, 956][1..][1..][1..] == [956];
    assert [3, 10, 0, 957][1..][1..][1..] == [957];
    assert [3, 10, 0, 957, 100][1..][1..][1..][1..] == [100];
  }

  lemma IntsOfUbuntuBase(rest: seq<string>)
    ensures NumericPrefix(["5", "4", "0"] + rest) == [5, 4, 0] + NumericPrefix(rest)
  {
    assert ["4", "0"] + rest == ["4"] + (["0"] + rest);
    assert ["5", "4", "0"] + rest == ["5"] + (["4", "0"] + rest);
    IntsOfZero(rest);
    IntsCons("4", 4, ["0"] + rest);
    IntsCons("5", 5, ["4", "0"] + rest);
  }

  /** The integers of "5.4.0-" followed by `t`. */
  lemma IntsAfterUbuntuBase(t: string)
    ensures SplitIntoInts("5.4.0-" + t) == [5, 4, 0] + SplitIntoInts(t)
  {
    assert "5" + "." + "4" + "." + "0" + "-" == "5.4.0-";
    SplitBase("5", "4", "0", t);
    IntsOfUbuntuBase(SplitOn(t, Separators));
  }

  /** A number, a dot and more text: the number is read first. */
  lemma IntsOfAbi(abi: string, n: nat, t: string)
    requires abi == DecimalString(n)
    ensures SplitIntoInts(abi + "." + t) == [n] + SplitIntoInts(t)
  {
    IntsOfNumberThen(abi, n, '.', t);
    assert abi + ['.'] + t == abi + "." + t;
  }

  lemma IntsOfAbi90(t: string)
    ensures SplitIntoInts("5.4.0-90." + t) == [5, 4, 0] + ([90] + SplitIntoInts(t))
  {
    assert "90" + "." + t == "90." + t;
    assert "5.4.0-" + ("90." + t) == "5.4.0-90." + t;
    IntsOfAbi("90", 90, t);
    IntsAfterUbuntuBase("90." + t);
  }

  lemma IntsOfAbi92(t: string)
    ensures SplitIntoInts("5.4.0-92." + t) == [5, 4, 0] + ([92] + SplitIntoInts(t))
  {
    assert "92" + "." + t == "92." + t;
    assert "5.4.0-" + ("92." + t) == "5.4.0-92." + t;
    IntsOfAbi("92", 92, t);
    IntsAfterUbuntuBase("92." + t);
  }

  /** The kernels of the package-parsing test, 5.4.0-90.101~18.04.1 and
      5.4.0-92.103~18.04.2, sort with ABI 90 first, whatever follows the ABI
      number. */
  lemma UbuntuVersionsOrdered(t1: string, t2: string)
    ensures Less(NewKernelVersion("5.4.0-90." + t1), NewKernelVersion("5.4.0-92." + t2))
    ensures !Less(NewKernelVersion("5.4.0-92." + t2), NewKernelVersion("5.4.0-90." + t1))
  {
    IntsOfAbi90(t1);
    IntsOfAbi92(t2);
    var x := [5, 4, 0] + ([90] + SplitIntoInts(t1));
    var y := [5, 4, 0] + ([92] + SplitIntoInts(t2));
    assert x[..3] == y[..3] && x[3] == 90 && y[3] == 92;
    LexLessAtFirstDifference(x, y, 3);
  }

  /** Lists that agree before position `k` and are smaller there are ordered. */
  lemma LexLessAtFirstDifference(x: seq<int>, y: seq<int>, k: nat)
    requires k < |x| && k < |y| && x[..k] == y[..k] && x[k] < y[k]
    ensures LexLess(x, y) && !LexLess(y, x)
  {
    LexLessIsLexicographic(x, y);
    assert FirstDifferenceBelow(x, y, k);
    LexLessAsymmetric(x, y);
  }
}
