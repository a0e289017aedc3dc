/** The keys of a JavaScript `Map` filled from a sequence of keys: each distinct
    key once, at the position where it was first set. Both the sideload grouping
    and the limited-role dedupe iterate such a map. */
module FirstOccurrence {

  /** No value occurs twice. */
  predicate NoRepeats<T(==)>(s: seq<T>) {
    forall i, j :: 0 <= i < j < |s| ==> s[i] != s[j]
  }

  lemma {:induction false} NoRepeatsCountsOnce<T>(s: seq<T>, x: T)
    requires NoRepeats(s)
    ensures multiset(s)[x] <= 1
  {
    if |s| > 0 {
      assert s == [s[0]] + s[1..];
      assert NoRepeats(s[1..]) by {
        forall i, j | 0 <= i < j < |s[1..]|
          ensures s[1..][i] != s[1..][j]
        {
          assert s[1..][i] == s[i + 1] && s[1..][j] == s[j + 1];
        }
      }
      NoRepeatsCountsOnce(s[1..], x);
      if x == s[0] {
        assert x !in s[1..] by {
          forall k | 0 <= k < |s[1..]|
            ensures s[1..][k] != x
          {
            assert s[1..][k] == s[k + 1];
          }
        }
      }
    }
  }

  lemma CountsOnceNoRepeats<T>(s: seq<T>)
    requires forall x :: multiset(s)[x] <= 1
    ensures NoRepeats(s)
  {
    forall i, j | 0 <= i < j < |s|
      ensures s[i] != s[j]
    {
      assert s == s[..j] + s[j..];
      assert s[i] in s[..j];
      assert s[j] in s[j..];
      assert multiset(s)[s[j]] == multiset(s[..j])[s[j]] + multiset(s[j..])[s[j]];
    }
  }

  /** The distinct elements of `xs` in order of first occurrence, defined the way
      a `Map` grows: one element at a time from the left. */
  function Distinct(xs: seq<int>): (d: seq<int>)
    ensures forall x :: x in d <==> x in xs
    ensures NoRepeats(d)
    ensures |d| <= |xs|
  {
    if |xs| == 0 then []
    else
      var p := xs[..|xs| - 1];
      var y := xs[|xs| - 1];
      assert xs == p + [y];
      var dp := Distinct(p);
      if y in dp then dp else dp + [y]
  }

  /** The position of the first `x` in `xs`. */
  function FirstIndex(xs: seq<int>, x: int): (k: nat)
    requires x in xs
    ensures k < |xs| && xs[k] == x
    ensures forall j :: 0 <= j < k ==> xs[j] != x
  {
    var p := xs[..|xs| - 1];
    assert xs == p + [xs[|xs| - 1]];
    if x in p then FirstIndex(p, x) else |xs| - 1
  }

  lemma FirstIndexOfExtension(xs: seq<int>, y: int, x: int)
    requires x in xs
    ensures FirstIndex(xs + [y], x) == FirstIndex(xs, x)
  {
    assert (xs + [y])[..|xs + [y]| - 1] == xs;
  }

  /** The elements of `Distinct(xs)` appear in the order of their first
      occurrences in `xs`. */
  lemma {:induction false} DistinctKeepsFirstOccurrenceOrder(xs: seq<int>)
    ensures forall i, j :: 0 <= i < j < |Distinct(xs)| ==>
              FirstIndex(xs, Distinct(xs)[i]) < FirstIndex(xs, Distinct(xs)[j])
  {
    if |xs| > 0 {
      var p := xs[..|xs| - 1];
      var y := xs[|xs| - 1];
      assert xs == p + [y];
      var dp := Distinct(p);
      assert Distinct(xs) == if y in dp then dp else dp + [y];
      DistinctKeepsFirstOccurrenceOrder(p);
      forall k | 0 <= k < |dp|
        ensures FirstIndex(xs, dp[k]) == FirstIndex(p, dp[k])
      {
        FirstIndexOfExtension(p, y, dp[k]);
      }
      if y !in dp {
        assert FirstIndex(xs, y) == |xs| - 1;
        var d := dp + [y];
        forall i, j | 0 <= i < j < |d|
          ensures FirstIndex(xs, d[i]) < FirstIndex(xs, d[j])
        {
          if j < |dp| {
            assert d[i] == dp[i] && d[j] == dp[j];
            assert FirstIndex(xs, dp[i]) == FirstIndex(p, dp[i]);
            assert FirstIndex(xs, dp[j]) == FirstIndex(p, dp[j]);
            assert FirstIndex(p, dp[i]) < FirstIndex(p, dp[j]);
          } else {
            assert d[i] == dp[i] && d[j] == y;
            assert FirstIndex(p, dp[i]) < |p|;
          }
        }
      }
    }
  }

  /** Appending an element extends the distinct sequence exactly when it is new. */
  lemma DistinctOfExtension(xs: seq<int>, y: int)
    ensures Distinct(xs + [y]) == if y in xs then Distinct(xs) else Distinct(xs) + [y]
  {
    assert (xs + [y])[..|xs + [y]| - 1] == xs;
  }

  /** A sequence without repeats is its own distinct sequence. */
  lemma {:induction false} DistinctOfUnique(xs: seq<int>)
    requires NoRepeats(xs)
    ensures Distinct(xs) == xs
  {
    if |xs| > 0 {
      var p := xs[..|xs| - 1];
      DistinctOfUnique(p);
      assert xs == p + [xs[|xs| - 1]];
      assert xs[|xs| - 1] !in p;
    }
  }

  /** A map's values read back in a given key order, as `Map.prototype.values`
      lists them in insertion order. */
  function ValuesInOrder<V>(m: map<int, V>, order: seq<int>): (r: seq<V>)
    requires forall k :: 0 <= k < |order| ==> order[k] in m
    ensures |r| == |order|
    ensures forall k :: 0 <= k < |order| ==> r[k] == m[order[k]]
  {
    seq(|order|, k requires 0 <= k < |order| => m[order[k]])
  }
}
