/**
 * Ascending sequences of indices: the sorted form of a set (a sorted
 * ArrayList copy of a Set<Integer>), and the arithmetic of deleting some
 * indices from 0 .. n-1 and renumbering the rest.
 */
module SortedSets {

  predicate StrictlyIncreasing(xs: seq<nat>) {
    forall i, j :: 0 <= i < j < |xs| ==> xs[i] < xs[j]
  }

  predicate IsLeast(m: nat, s: set<nat>) {
    m in s && forall y :: y in s ==> m <= y
  }

  lemma {:induction false} MinExists(s: set<nat>)
    requires s != {}
    ensures exists m :: IsLeast(m, s)
    decreases |s|
  {
    var x :| x in s;
    var rest := s - {x};
    if rest == {} {
      forall y | y in s
        ensures x <= y
      {
        assert y !in rest;
      }
      assert IsLeast(x, s);
    } else {
      MinExists(rest);
      var m :| IsLeast(m, rest);
      LeastOfInsert(x, m, rest, s);
    }
  }

  lemma LeastOfInsert(x: nat, m: nat, rest: set<nat>, s: set<nat>)
    requires IsLeast(m, rest) && s == rest + {x}
    ensures IsLeast(if x < m then x else m, s)
  {
  }

  /** The least element of a non-empty set. */
  function SetMin(s: set<nat>): (m: nat)
    requires s != {}
    ensures m in s && forall y :: y in s ==> m <= y
  {
    MinExists(s);
    var m :| IsLeast(m, s);
    m
  }

  /** The elements of s in ascending order. */
  function SortedElements(s: set<nat>): (xs: seq<nat>)
    ensures StrictlyIncreasing(xs)
    ensures forall x :: x in xs <==> x in s
    ensures |xs| == |s|
    decreases s
  {
    if s == {} then []
    else
      var m := SetMin(s);
      var rest := SortedElements(s - {m});
      assert forall i :: 0 <= i < |rest| ==> m < rest[i];
      [m] + rest
  }

  /** The number of entries of d below x: how many deleted indices precede x. */
  function CountBelow(d: seq<nat>, x: nat): (c: nat)
    ensures c <= |d|
  {
    if |d| == 0 then 0 else CountBelow(d[..|d| - 1], x) + (if d[|d| - 1] < x then 1 else 0)
  }

  lemma {:induction false} IncreasingAtLeastIndex(d: seq<nat>, i: nat)
    requires StrictlyIncreasing(d) && i < |d|
    ensures d[i] >= i
  {
    if i > 0 {
      IncreasingAtLeastIndex(d, i - 1);
    }
  }

  lemma {:induction false} CountBelowAll(d: seq<nat>, x: nat)
    requires forall i :: 0 <= i < |d| ==> d[i] < x
    ensures CountBelow(d, x) == |d|
  {
    if |d| > 0 {
      CountBelowAll(d[..|d| - 1], x);
    }
  }

  /** At most x distinct indices lie below x. */
  lemma {:induction false} CountBelowBound(d: seq<nat>, x: nat)
    requires StrictlyIncreasing(d)
    ensures CountBelow(d, x) <= x
  {
    if |d| > 0 {
      var last := d[|d| - 1];
      if last < x {
        CountBelowAll(d, x);
        IncreasingAtLeastIndex(d, |d| - 1);
      } else {
        CountBelowBound(d[..|d| - 1], x);
      }
    }
  }

  /** Counting up to x + 1 adds one exactly when x itself is deleted. */
  lemma {:induction false} CountBelowStep(d: seq<nat>, x: nat)
    requires StrictlyIncreasing(d)
    ensures CountBelow(d, x + 1) == CountBelow(d, x) + (if x in d then 1 else 0)
  {
    if |d| > 0 {
      var init := d[..|d| - 1];
      CountBelowStep(init, x);
      assert d == init + [d[|d| - 1]];
      assert x in d <==> x in init || x == d[|d| - 1];
      if x in init {
        var i :| 0 <= i < |init| && init[i] == x;
        assert d[i] < d[|d| - 1];
      }
    }
  }

  /**
   * The index x gets once the indices in d are deleted: x minus the number
   * of deleted indices below it.
   */
  function Shift(x: nat, d: seq<nat>): nat
    requires StrictlyIncreasing(d)
  {
    CountBelowBound(d, x);
    x - CountBelow(d, x)
  }

  /** The indices below n that are not deleted, in ascending order. */
  function Kept(n: nat, d: seq<nat>): seq<nat>
  {
    if n == 0 then [] else Kept(n - 1, d) + (if n - 1 in d then [] else [n - 1])
  }

  /** Kept(n, d) is ascending and holds exactly the indices below n outside d. */
  lemma {:induction false} KeptMembers(n: nat, d: seq<nat>)
    ensures StrictlyIncreasing(Kept(n, d))
    ensures forall x: nat :: x in Kept(n, d) <==> x < n && x !in d
  {
    if n > 0 {
      KeptMembers(n - 1, d);
      var ks := Kept(n - 1, d);
      assert forall i :: 0 <= i < |ks| ==> ks[i] in ks;
    }
  }

  lemma {:induction false} KeptPrefix(m: nat, n: nat, d: seq<nat>)
    requires m <= n
    ensures |Kept(m, d)| <= |Kept(n, d)| && Kept(m, d) == Kept(n, d)[..|Kept(m, d)|]
    decreases n
  {
    if m < n {
      KeptPrefix(m, n - 1, d);
      var prev := Kept(n - 1, d);
      var cur := Kept(n, d);
      var short := Kept(m, d);
      assert cur == prev + (if n - 1 in d then [] else [n - 1]);
      assert |prev| <= |cur| && cur[..|prev|] == prev;
      assert short == prev[..|short|];
      assert cur[..|short|] == prev[..|short|];
    }
  }

  /** The number of indices kept below x is x minus the deleted ones below x. */
  lemma {:induction false} KeptLength(x: nat, d: seq<nat>)
    requires StrictlyIncreasing(d)
    ensures |Kept(x, d)| == x - CountBelow(d, x)
  {
    CountBelowBound(d, x);
    if x > 0 {
      KeptLength(x - 1, d);
      CountBelowStep(d, x - 1);
    }
  }

  /** Deleting all of d (every entry below n) from 0 .. n-1 keeps n - |d| indices. */
  lemma KeptCount(n: nat, d: seq<nat>)
    requires StrictlyIncreasing(d)
    requires forall i :: 0 <= i < |d| ==> d[i] < n
    ensures |Kept(n, d)| == n - |d|
  {
    KeptLength(n, d);
    CountBelowAll(d, n);
  }

  /**
   * A kept index x is renumbered to its position among the kept indices:
   * the Shift-th kept index is x itself.
   */
  lemma ShiftIsRank(x: nat, n: nat, d: seq<nat>)
    requires StrictlyIncreasing(d)
    requires x < n && x !in d
    ensures Shift(x, d) < |Kept(n, d)| && Kept(n, d)[Shift(x, d)] == x
  {
    KeptLength(x, d);
    KeptPrefix(x + 1, n, d);
    assert Kept(x + 1, d) == Kept(x, d) + [x];
    KeptMembers(n, d);
  }

  /** Renumbering the i-th kept index gives i. */
  lemma RankOfKept(i: nat, n: nat, d: seq<nat>)
    requires StrictlyIncreasing(d)
    requires i < |Kept(n, d)|
    ensures Shift(Kept(n, d)[i], d) == i
  {
    var ks := Kept(n, d);
    var x := ks[i];
    assert x in ks;
    KeptMembers(n, d);
    ShiftIsRank(x, n, d);
  }

  /** Renumbering keeps the order of kept indices and never merges two of them. */
  lemma ShiftMonotone(x: nat, y: nat, d: seq<nat>)
    requires StrictlyIncreasing(d)
    requires x !in d && y !in d && x < y
    ensures Shift(x, d) < Shift(y, d)
  {
    ShiftIsRank(x, y + 1, d);
    ShiftIsRank(y, y + 1, d);
    KeptMembers(y + 1, d);
  }

  /**
   * Scanning upwards with i indices kept below x, while fewer than all of
   * Kept(n, d) have been met: x is still below n, a deleted x keeps the
   * count, and a kept x is the i-th kept index.
   */
  lemma KeptNext(x: nat, i: nat, n: nat, d: seq<nat>)
    requires x <= n && |Kept(x, d)| == i && i < |Kept(n, d)|
    ensures x < n
    ensures x in d ==> |Kept(x + 1, d)| == i
    ensures x !in d ==> |Kept(x + 1, d)| == i + 1 && Kept(n, d)[i] == x
  {
    if x < n {
      KeptPrefix(x + 1, n, d);
    }
  }

  /** Deleting nothing renumbers nothing. */
  lemma ShiftNothing(x: nat)
    ensures Shift(x, []) == x
  {
  }
}
