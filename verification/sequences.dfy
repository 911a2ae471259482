/** The pandas column and list operations the pipeline relies on, written out
    over sequences: `sum`, `* -1`, `unique()` and `sorted`. */
module Sequences {

  /** `Series.sum()` over integer cells, folded left to right. With
      non-negative counts the total is non-negative and no smaller than any
      one cell. */
  function Sum(s: seq<int>): (r: int)
    ensures (forall i :: 0 <= i < |s| ==> s[i] >= 0) ==> r >= 0 && forall i :: 0 <= i < |s| ==> s[i] <= r
  {
    if |s| == 0 then 0 else Sum(s[..|s| - 1]) + s[|s| - 1]
  }

  /** Summing a concatenation sums the parts. */
  lemma {:induction false} SumAppend(a: seq<int>, b: seq<int>)
    ensures Sum(a + b) == Sum(a) + Sum(b)
    decreases |b|
  {
    if |b| > 0 {
      var b' := b[..|b| - 1];
      SumAppend(a, b');
      assert (a + b)[..|a + b| - 1] == a + b';
    } else {
      assert a + b == a;
    }
  }

  /** `s * -1`: every element negated, in place. */
  function Negate(s: seq<int>): (r: seq<int>)
    ensures |r| == |s|
    ensures forall i :: 0 <= i < |r| ==> r[i] + s[i] == 0
  {
    seq(|s|, i requires 0 <= i < |s| => -s[i])
  }

  /** Negation mirrors a sequence: applied twice it restores it, and it flips
      the sign of the total. */
  lemma {:induction false} NegateMirrors(s: seq<int>)
    ensures Negate(Negate(s)) == s
    ensures Sum(Negate(s)) == -Sum(s)
    decreases |s|
  {
    if |s| > 0 {
      var p := s[..|s| - 1];
      NegateMirrors(p);
      assert Negate(s)[..|s| - 1] == Negate(p);
    }
  }

  /** Row-by-row sum of two equally long columns. */
  function AddPointwise(a: seq<int>, b: seq<int>): (r: seq<int>)
    requires |a| == |b|
    ensures |r| == |a|
    ensures forall i :: 0 <= i < |r| ==> r[i] - a[i] == b[i]
  {
    seq(|a|, i requires 0 <= i < |a| => a[i] + b[i])
  }

  /** Summing the row-by-row sums gives the sum of the two column totals. */
  lemma {:induction false} SumPointwise(a: seq<int>, b: seq<int>)
    requires |a| == |b|
    ensures Sum(AddPointwise(a, b)) == Sum(a) + Sum(b)
    decreases |a|
  {
    if |a| > 0 {
      var n := |a| - 1;
      SumPointwise(a[..n], b[..n]);
      assert AddPointwise(a, b)[..n] == AddPointwise(a[..n], b[..n]);
    }
  }

  predicate Distinct<T(==)>(s: seq<T>) {
    forall i, j :: 0 <= i < j < |s| ==> s[i] != s[j]
  }

  /** `Series.unique()`: each value of the input once. */
  function Unique<T(==,!new)>(s: seq<T>): (r: seq<T>)
    ensures forall x :: x in r <==> x in s
    ensures Distinct(r)
    ensures |r| <= |s|
  {
    if |s| == 0 then []
    else
      var u := Unique(s[..|s| - 1]);
      if s[|s| - 1] in u then u else u + [s[|s| - 1]]
  }

  predicate Ascending(s: seq<int>) {
    forall i, j :: 0 <= i < j < |s| ==> s[i] <= s[j]
  }

  predicate StrictlyAscending(s: seq<int>) {
    forall i, j :: 0 <= i < j < |s| ==> s[i] < s[j]
  }

  /** Insertion of one value into an ascending sequence. */
  function Insert(x: int, s: seq<int>): (r: seq<int>)
    requires Ascending(s)
    ensures forall y :: y in r ==> y == x || y in s
    ensures Ascending(r)
    ensures multiset(r) == multiset(s) + multiset{x}
  {
    if |s| == 0 then [x]
    else if x <= s[0] then [x] + s
    else
      var t := Insert(x, s[1..]);
      assert s == [s[0]] + s[1..];
      forall i | 0 <= i < |t|
        ensures s[0] <= t[i]
      {
        assert t[i] in t;
      }
      AscendingCons(s[0], t);
      [s[0]] + t
  }

  /** A value no larger than any element of an ascending sequence may lead it. */
  lemma AscendingCons(a: int, t: seq<int>)
    requires Ascending(t)
    requires forall i :: 0 <= i < |t| ==> a <= t[i]
    ensures Ascending([a] + t)
  {
    var r := [a] + t;
    forall i, j | 0 <= i < j < |r|
      ensures r[i] <= r[j]
    {
      assert r[j] == t[j - 1];
      if i > 0 {
        assert r[i] == t[i - 1];
      }
    }
  }

  /** Python's `sorted` on integers: an ascending permutation of the input. */
  function Sort(s: seq<int>): (r: seq<int>)
    ensures Ascending(r)
    ensures multiset(r) == multiset(s)
  {
    if |s| == 0 then []
    else
      assert s == s[..|s| - 1] + [s[|s| - 1]];
      Insert(s[|s| - 1], Sort(s[..|s| - 1]))
  }

  /** A sequence without repetitions holds each value at most once. */
  lemma {:induction false} DistinctMultiplicity(s: seq<int>, x: int)
    requires Distinct(s)
    ensures multiset(s)[x] <= 1
    decreases |s|
  {
    if |s| > 0 {
      var p := s[..|s| - 1];
      DistinctMultiplicity(p, x);
      assert s == p + [s[|s| - 1]];
      if x == s[|s| - 1] {
        assert x !in p;
      }
    }
  }

  /** A value found at two positions occurs at least twice. */
  lemma RepeatMultiplicity(r: seq<int>, i: int, j: int)
    requires 0 <= i < j < |r| && r[i] == r[j]
    ensures multiset(r)[r[i]] >= 2
  {
    assert r == r[..j] + r[j..];
    assert r[i] in multiset(r[..j]);
    assert r[j] in multiset(r[j..]);
  }

  /** Sorting a sequence without repetitions yields a strictly ascending one. */
  lemma SortDistinctIsStrict(s: seq<int>)
    requires Distinct(s)
    ensures StrictlyAscending(Sort(s))
  {
    var r := Sort(s);
    forall i, j | 0 <= i < j < |r|
      ensures r[i] < r[j]
    {
      if r[i] == r[j] {
        RepeatMultiplicity(r, i, j);
        DistinctMultiplicity(s, r[i]);
      }
    }
  }

  /** The only strictly ascending sequence holding exactly `a` and `b`, with
      `a < b`, is `[a, b]`. */
  lemma StrictPair(r: seq<int>, a: int, b: int)
    requires a < b
    requires StrictlyAscending(r)
    requires forall y :: y in r <==> y == a || y == b
    ensures r == [a, b]
  {
    assert a in r && b in r;
    var i :| 0 <= i < |r| && r[i] == a;
    var j :| 0 <= j < |r| && r[j] == b;
    assert i < j;
    forall k | 0 <= k < |r|
      ensures r[k] == a || r[k] == b
    {
      assert r[k] in r;
    }
    assert r[0] == a && r[i + 1] == b && r[|r| - 1] == b;
    assert i == 0 && j == 1 && |r| == 2;
  }

  /** A strictly ascending sequence is determined by its members. */
  lemma {:induction false} StrictSameMembers(a: seq<int>, b: seq<int>)
    requires StrictlyAscending(a) && StrictlyAscending(b)
    requires forall x :: x in a <==> x in b
    ensures a == b
    decreases |a|
  {
    if |a| == 0 {
      assert forall x :: x !in b;
    } else {
      assert a[0] in a;
      var j :| 0 <= j < |b| && b[j] == a[0];
      assert b[0] in b;
      var i :| 0 <= i < |a| && a[i] == b[0];
      assert a[0] == b[0];
      forall x
        ensures x in a[1..] <==> x in b[1..]
      {
        if x in a[1..] {
          var k :| 1 <= k < |a| && a[k] == x;
          assert x in b;
          var l :| 0 <= l < |b| && b[l] == x;
          assert l != 0;
        }
        if x in b[1..] {
          var k :| 1 <= k < |b| && b[k] == x;
          assert x in a;
          var l :| 0 <= l < |a| && a[l] == x;
          assert l != 0;
        }
      }
      StrictSameMembers(a[1..], b[1..]);
      assert a == [a[0]] + a[1..] && b == [b[0]] + b[1..];
    }
  }
}
