/** Sequence helpers shared by the list filters. */
module Collections {
  import opened Wrappers

  /** Applies `f` to each element in order and keeps the values it returns,
      as a Go loop that appends what survives its `continue`s. */
  function FilterMap<T(!new), U(!new)>(f: T -> Option<U>, s: seq<T>): (r: seq<U>)
    ensures |r| <= |s|
    ensures forall u :: u in r <==> exists t :: t in s && f(t) == Some(u)
  {
    if |s| == 0 then []
    else
      var init := s[..|s| - 1];
      var t := s[|s| - 1];
      assert s == init + [t];
      FilterMap(f, init) + (if f(t).Some? then [f(t).value] else [])
  }

  /** Mapping a sequence with one more element in front puts that element's
      value, if any, in front. */
  lemma {:induction false} FilterMapCons<T(!new), U(!new)>(f: T -> Option<U>, x: T, s: seq<T>)
    ensures FilterMap(f, [x] + s) == (if f(x).Some? then [f(x).value] else []) + FilterMap(f, s)
    decreases |s|
  {
    var c := [x] + s;
    if |s| > 0 {
      var init := s[..|s| - 1];
      assert c[..|c| - 1] == [x] + init;
      assert c[|c| - 1] == s[|s| - 1];
      FilterMapCons(f, x, init);
    } else {
      assert c[..0] == [];
    }
  }

  /** Mapping a concatenation maps each part, in order. */
  lemma {:induction false} FilterMapAppend<T(!new), U(!new)>(f: T -> Option<U>, a: seq<T>, b: seq<T>)
    ensures FilterMap(f, a + b) == FilterMap(f, a) + FilterMap(f, b)
    decreases |b|
  {
    var c := a + b;
    if |b| == 0 {
      assert c == a;
    } else {
      var init := b[..|b| - 1];
      assert c[..|c| - 1] == a + init;
      assert c[|c| - 1] == b[|b| - 1];
      FilterMapAppend(f, a, init);
    }
  }

  /** The first position of an element whose key is `k`. */
  function FirstIndexBy<T>(key: T -> string, c: seq<T>, k: string): (r: Option<nat>)
    ensures r.Some? ==> r.value < |c| && key(c[r.value]) == k
    ensures r.Some? ==> forall j :: 0 <= j < r.value ==> key(c[j]) != k
    ensures r.None? ==> forall j :: 0 <= j < |c| ==> key(c[j]) != k
  {
    if |c| == 0 then None
    else
      var init := c[..|c| - 1];
      assert forall j :: 0 <= j < |init| ==> init[j] == c[j];
      match FirstIndexBy(key, init, k)
      case Some(i) => Some(i)
      case None => if key(c[|c| - 1]) == k then Some(|c| - 1) else None
  }

  /** The first position of a key in a sequence with one more element. */
  lemma FirstIndexBySnoc<T>(key: T -> string, c: seq<T>)
    requires |c| > 0
    ensures forall k :: FirstIndexBy(key, c, k) ==
              if FirstIndexBy(key, c[..|c| - 1], k).Some? then FirstIndexBy(key, c[..|c| - 1], k)
              else if key(c[|c| - 1]) == k then Some(|c| - 1) else None
  {
  }

  /** Inserting the elements in order into a map under their keys, where a
      key already present is never replaced: each key is held by its first
      element. */
  function FirstWinsBy<T>(key: T -> string, c: seq<T>): (m: map<string, T>)
    ensures forall k :: k in m ==> key(m[k]) == k
    ensures forall k :: k in m <==> FirstIndexBy(key, c, k).Some?
    ensures forall k :: k in m ==> m[k] == c[FirstIndexBy(key, c, k).value]
  {
    if |c| == 0 then map[]
    else
      var init := c[..|c| - 1];
      var p := c[|c| - 1];
      var m := FirstWinsBy(key, init);
      FirstIndexBySnoc(key, c);
      if key(p) in m then m else m[key(p) := p]
  }

  /** One more element enters the map only if its key is new. */
  lemma FirstWinsBySnoc<T>(key: T -> string, c: seq<T>, x: T)
    ensures FirstWinsBy(key, c + [x]) ==
              if key(x) in FirstWinsBy(key, c) then FirstWinsBy(key, c)
              else FirstWinsBy(key, c)[key(x) := x]
  {
    assert (c + [x])[..|c|] == c;
  }

  /** Every element's key is in the map. */
  lemma FirstWinsByCovers<T>(key: T -> string, c: seq<T>, x: T)
    requires x in c
    ensures key(x) in FirstWinsBy(key, c)
  {
    var j :| 0 <= j < |c| && c[j] == x;
    assert key(c[j]) == key(x);
  }

  predicate Distinct<T(==)>(s: seq<T>) {
    forall i, j :: 0 <= i < j < |s| ==> s[i] != s[j]
  }

  /** A sequence without repeats holds each of its elements once. */
  lemma {:induction false} DistinctCount<T>(s: seq<T>, x: T)
    requires Distinct(s)
    ensures multiset(s)[x] == if x in s then 1 else 0
  {
    if |s| > 0 {
      var init := s[..|s| - 1];
      assert s == init + [s[|s| - 1]];
      assert Distinct(init);
      DistinctCount(init, x);
      assert s[|s| - 1] !in init;
    }
  }

  /** Two sequences without repeats that hold the same elements are
      permutations of each other. */
  lemma DistinctSameElements<T>(a: seq<T>, b: seq<T>)
    requires Distinct(a) && Distinct(b)
    requires forall x :: x in a <==> x in b
    ensures multiset(a) == multiset(b)
  {
    forall x
      ensures multiset(a)[x] == multiset(b)[x]
    {
      DistinctCount(a, x);
      DistinctCount(b, x);
    }
  }

  /** Two sequences without repeats and with no element in common join into
      one without repeats. */
  lemma DistinctConcat<T>(a: seq<T>, b: seq<T>)
    requires Distinct(a) && Distinct(b)
    requires forall x :: x in a ==> x !in b
    ensures Distinct(a + b)
  {
    var s := a + b;
    forall i, j | 0 <= i < j < |s|
      ensures s[i] != s[j]
    {
      if i < |a| && j >= |a| {
        assert s[i] in a && s[j] == b[j - |a|];
      }
    }
  }
}
