/** Filtering and sorting of lists, and what they keep of the multiset. */
module Lists {
  import opened Sequences
  import opened Bits

  function Filter<T(!new)>(s: seq<T>, keep: T -> bool): (r: seq<T>)
    ensures forall x :: x in r <==> x in s && keep(x)
  {
    if s == [] then []
    else Filter(s[..|s| - 1], keep) + if keep(s[|s| - 1]) then [s[|s| - 1]] else []
  }

  lemma {:induction false} FilterCounts<T(!new)>(s: seq<T>, keep: T -> bool, x: T)
    ensures multiset(Filter(s, keep))[x] == if keep(x) then multiset(s)[x] else 0
  {
    if s != [] {
      var init := s[..|s| - 1];
      assert s == init + [s[|s| - 1]];
      FilterCounts(init, keep, x);
    }
  }

  lemma {:induction false} FilterOfPermutation<T(!new)>(a: seq<T>, b: seq<T>, keep: T -> bool)
    requires multiset(a) == multiset(b)
    ensures multiset(Filter(a, keep)) == multiset(Filter(b, keep))
  {
    forall x: T
      ensures multiset(Filter(a, keep))[x] == multiset(Filter(b, keep))[x]
    {
      FilterCounts(a, keep, x);
      FilterCounts(b, keep, x);
    }
  }

  lemma {:induction false} FilterOfConcat<T(!new)>(a: seq<T>, b: seq<T>, keep: T -> bool)
    ensures Filter(a + b, keep) == Filter(a, keep) + Filter(b, keep)
  {
    if b == [] {
      assert a + b == a;
    } else {
      LastOff(a, b);
      FilterOfConcat(a, b[..|b| - 1], keep);
    }
  }

  lemma {:induction false} FilterKeepsAll<T(!new)>(s: seq<T>, keep: T -> bool)
    requires forall x :: x in s ==> keep(x)
    ensures Filter(s, keep) == s
  {
    if s != [] {
      FilterKeepsAll(s[..|s| - 1], keep);
      assert s == s[..|s| - 1] + [s[|s| - 1]];
    }
  }

  function Map<T, U>(s: seq<T>, f: T -> U): (r: seq<U>)
    ensures |r| == |s| && forall i :: 0 <= i < |s| ==> r[i] == f(s[i])
  {
    seq(|s|, i requires 0 <= i < |s| => f(s[i]))
  }

  function Without<T>(s: seq<T>, j: nat): (r: seq<T>)
    requires j < |s|
    ensures |r| == |s| - 1
  {
    s[..j] + s[j + 1..]
  }

  lemma TakenOut<T>(s: seq<T>, j: nat)
    requires j < |s|
    ensures multiset(s) == multiset(Without(s, j)) + multiset{s[j]}
  {
    assert s == s[..j] + [s[j]] + s[j + 1..];
  }

  lemma Cancel<T>(a: multiset<T>, b: multiset<T>, x: T)
    requires a + multiset{x} == b + multiset{x}
    ensures a == b
  {
    assert a == a + multiset{x} - multiset{x};
    assert b == b + multiset{x} - multiset{x};
  }

  /** Where a permutation of `a` holds the first element of `a`; the others are permutations of each other. */
  lemma FirstElsewhere<T>(a: seq<T>, b: seq<T>) returns (j: nat)
    requires multiset(a) == multiset(b) && a != []
    ensures j < |b| && b[j] == a[0] && multiset(Without(a, 0)) == multiset(Without(b, j))
  {
    assert a[0] in multiset(b);
    j :| 0 <= j < |b| && b[j] == a[0];
    TakenOut(a, 0);
    TakenOut(b, j);
    Cancel(multiset(Without(a, 0)), multiset(Without(b, j)), a[0]);
  }

  lemma MapTakenOut<T, U>(s: seq<T>, j: nat, f: T -> U)
    requires j < |s|
    ensures multiset(Map(s, f)) == multiset(Map(Without(s, j), f)) + multiset{f(s[j])}
  {
    TakenOut(Map(s, f), j);
    assert Map(Without(s, j), f) == Without(Map(s, f), j);
  }

  lemma {:induction false} MapOfPermutation<T, U>(a: seq<T>, b: seq<T>, f: T -> U)
    requires multiset(a) == multiset(b)
    ensures multiset(Map(a, f)) == multiset(Map(b, f))
    decreases |a|
  {
    if a == [] {
      assert |multiset(b)| == 0;
    } else {
      var j := FirstElsewhere(a, b);
      MapTakenOut(a, 0, f);
      MapTakenOut(b, j, f);
      MapOfPermutation(Without(a, 0), Without(b, j), f);
    }
  }

  // ----- repetition -----

  ghost predicate Distinct<T>(s: seq<T>) {
    forall i, j :: 0 <= i < j < |s| ==> s[i] != s[j]
  }

  lemma DistinctAppended<T>(s: seq<T>, x: T)
    requires Distinct(s) && x !in s
    ensures Distinct(s + [x])
  {
  }

  lemma {:induction false} DistinctCount<T>(s: seq<T>, x: T)
    requires Distinct(s)
    ensures multiset(s)[x] == if x in s then 1 else 0
  {
    if s != [] {
      var last := |s| - 1;
      DistinctCount(s[..last], x);
      assert s == s[..last] + [s[last]];
    }
  }

  lemma SameElements<T(!new)>(a: seq<T>, b: seq<T>)
    requires Distinct(a) && Distinct(b) && forall x :: x in a <==> x in b
    ensures multiset(a) == multiset(b) && |a| == |b|
  {
    forall x: T
      ensures multiset(a)[x] == multiset(b)[x]
    {
      DistinctCount(a, x);
      DistinctCount(b, x);
    }
    assert multiset(a) == multiset(b);
    assert |multiset(a)| == |multiset(b)|;
  }

  // ----- sorting -----

  predicate Ascending(s: seq<u16>) {
    forall i, j :: 0 <= i < j < |s| ==> s[i] <= s[j]
  }

  lemma InsertedStaysBelow(x: u16, s: seq<u16>, r: seq<u16>, top: u16)
    requires multiset(r) == multiset(s) + multiset{x}
    requires x <= top && forall i :: 0 <= i < |s| ==> s[i] <= top
    ensures forall i :: 0 <= i < |r| ==> r[i] <= top
  {
    forall i | 0 <= i < |r|
      ensures r[i] <= top
    {
      assert r[i] in multiset(r);
      assert r[i] in multiset(s) || r[i] == x;
    }
  }

  lemma {:induction false} StillAscending(s: seq<u16>, x: u16, r: seq<u16>)
    requires s != [] && Ascending(r) && multiset(r) == multiset(s[..|s| - 1]) + multiset{x}
    requires forall i :: 0 <= i < |r| ==> r[i] <= s[|s| - 1]
    ensures Ascending(r + [s[|s| - 1]]) && multiset(r + [s[|s| - 1]]) == multiset(s) + multiset{x}
  {
    assert s == s[..|s| - 1] + [s[|s| - 1]];
  }

  function Inserted(x: u16, s: seq<u16>): (r: seq<u16>)
    requires Ascending(s)
    ensures Ascending(r) && multiset(r) == multiset(s) + multiset{x}
  {
    if s == [] || s[|s| - 1] <= x then s + [x]
    else
      var init, last := s[..|s| - 1], s[|s| - 1];
      var r := Inserted(x, init);
      InsertedStaysBelow(x, init, r, last);
      StillAscending(s, x, r);
      r + [last]
  }

  /** The ascending rearrangement. */
  function Sorted(s: seq<u16>): (r: seq<u16>)
    ensures Ascending(r) && multiset(r) == multiset(s) && |r| == |s|
  {
    if s == [] then []
    else
      assert s == s[..|s| - 1] + [s[|s| - 1]];
      var r := Inserted(s[|s| - 1], Sorted(s[..|s| - 1]));
      assert |multiset(r)| == |multiset(s)|;
      r
  }

  lemma LeastIsFirst(s: seq<u16>, x: u16)
    requires Ascending(s) && x in s
    ensures s[0] <= x
  {
  }

  lemma MultisetOfTail(s: seq<u16>)
    requires s != []
    ensures multiset(s[1..]) == multiset(s) - multiset{s[0]}
  {
    assert s == [s[0]] + s[1..];
  }

  lemma SameFirst(a: seq<u16>, b: seq<u16>)
    requires Ascending(a) && Ascending(b) && multiset(a) == multiset(b) && a != [] && b != []
    ensures a[0] == b[0]
  {
    assert a[0] in multiset(b) && b[0] in multiset(a);
    LeastIsFirst(a, b[0]);
    LeastIsFirst(b, a[0]);
  }

  /** There is one ascending list of a multiset. */
  lemma {:induction false} AscendingIsUnique(a: seq<u16>, b: seq<u16>)
    requires Ascending(a) && Ascending(b) && multiset(a) == multiset(b)
    ensures a == b
  {
    assert |multiset(a)| == |multiset(b)|;
    if a != [] {
      SameFirst(a, b);
      MultisetOfTail(a);
      MultisetOfTail(b);
      AscendingIsUnique(a[1..], b[1..]);
      assert a == [a[0]] + a[1..] && b == [b[0]] + b[1..];
    }
  }

  lemma {:induction false} SortedAlike(a: seq<u16>, b: seq<u16>)
    ensures Sorted(a) == Sorted(b) <==> multiset(a) == multiset(b)
  {
    if multiset(a) == multiset(b) {
      AscendingIsUnique(Sorted(a), Sorted(b));
    }
  }
}
