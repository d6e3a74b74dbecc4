/**
 * The transitive closure of a list of simple FDs, as a specification:
 * grouping the list by left side (getCombinedFds), the FDs addSimpleFuncDeps
 * keeps, the state in which deriveFd finds nothing new, the finite pool every
 * derived FD comes from, and why every derived FD holds on the table.
 */
module Closure {
  import opened FunctionalDependencies
  import opened Tables

  predicate AllSimple(fds: seq<FD>) {
    forall k :: 0 <= k < |fds| ==> IsSimple(fds[k])
  }

  /** The FDs of a list, as a set. */
  function FdSet(fds: seq<FD>): set<FD> {
    set k | 0 <= k < |fds| :: fds[k]
  }

  /** The left sides that occur in fds. */
  function LeftsOf(fds: seq<FD>): set<set<nat>> {
    set k | 0 <= k < |fds| :: fds[k].left
  }

  /** The right attributes of the FDs whose left side is exactly left. */
  function RightsOf(fds: seq<FD>, left: set<nat>): set<nat>
    requires AllSimple(fds)
  {
    set k | 0 <= k < |fds| && fds[k].left == left :: RightAttr(fds[k])
  }

  /** Every right attribute of fds. */
  function RightsAll(fds: seq<FD>): set<nat>
    requires AllSimple(fds)
  {
    set k | 0 <= k < |fds| :: RightAttr(fds[k])
  }

  /**
   * getCombinedFds: one FD l -> RightsOf(fds, l) for every left side l of
   * fds, and no left side twice. The order is left open (hash order).
   */
  predicate IsCombined(fds: seq<FD>, combined: seq<FD>)
    requires AllSimple(fds)
  {
    (forall i :: 0 <= i < |combined| ==>
       combined[i].left in LeftsOf(fds) && combined[i].right == RightsOf(fds, combined[i].left))
    && (forall k :: 0 <= k < |fds| ==> exists i :: 0 <= i < |combined| && combined[i].left == fds[k].left)
    && (forall i, j :: 0 <= i < j < |combined| ==> combined[i].left != combined[j].left)
  }

  /** coversOtherFuncDep: fd covers some FD of the list. */
  predicate CoversSome(fds: seq<FD>, fd: FD) {
    exists k :: 0 <= k < |fds| && Covers(fd, fds[k])
  }

  /** addSimpleFuncDeps skips an FD that is trivial or covers one already in the list. */
  predicate Redundant(fds: seq<FD>, fd: FD) {
    IsTrivial(fd) || CoversSome(fds, fd)
  }

  /**
   * addSimpleFuncDeps: the FDs of simple, in order, each appended unless it
   * is redundant with respect to the list as it stands at that moment
   * (including the FDs appended just before it).
   */
  function AppendNew(fds: seq<FD>, simple: seq<FD>): (r: seq<FD>)
    ensures fds <= r && |r| <= |fds| + |simple|
    ensures forall k :: |fds| <= k < |r| ==> r[k] in simple && !Redundant(r[..k], r[k])
  {
    if |simple| == 0 then fds
    else
      var acc := AppendNew(fds, simple[..|simple| - 1]);
      var x := simple[|simple| - 1];
      if Redundant(acc, x) then acc
      else
        assert (acc + [x])[..|acc|] == acc;
        acc + [x]
  }

  lemma CoversSomePrefix(a: seq<FD>, b: seq<FD>, fd: FD)
    requires a <= b && CoversSome(a, fd)
    ensures CoversSome(b, fd)
  {
    var k :| 0 <= k < |a| && Covers(fd, a[k]);
    assert b[k] == a[k];
  }

  /**
   * addSimpleFuncDeps reports whether it appended anything: the list is
   * unchanged exactly when every candidate was redundant to begin with.
   */
  lemma {:induction false} AppendNewUnchanged(fds: seq<FD>, simple: seq<FD>)
    ensures AppendNew(fds, simple) == fds <==> forall k :: 0 <= k < |simple| ==> Redundant(fds, simple[k])
  {
    if |simple| > 0 {
      var init := simple[..|simple| - 1];
      AppendNewUnchanged(fds, init);
      assert forall k :: 0 <= k < |init| ==> init[k] == simple[k];
    }
  }

  /** After addSimpleFuncDeps every candidate is redundant: appended, or skipped for a reason that persists. */
  lemma {:induction false} AppendNewCovers(fds: seq<FD>, simple: seq<FD>)
    ensures forall k :: 0 <= k < |simple| ==> Redundant(AppendNew(fds, simple), simple[k])
  {
    if |simple| > 0 {
      var init := simple[..|simple| - 1];
      var acc := AppendNew(fds, init);
      var r := AppendNew(fds, simple);
      AppendNewCovers(fds, init);
      forall k | 0 <= k < |simple| ensures Redundant(r, simple[k]) {
        if k < |init| {
          assert init[k] == simple[k];
          if !IsTrivial(simple[k]) {
            CoversSomePrefix(acc, r, simple[k]);
          }
        } else if !Redundant(acc, simple[k]) {
          assert r[|acc|] == simple[k] && Covers(simple[k], r[|acc|]);
        }
      }
    }
  }

  /** Every simple FD that the derivation l1 -> rights yields is redundant. */
  predicate NothingNew(fds: seq<FD>, derived: FD) {
    var simple := GetSimpleFunctionalDependencies(derived);
    forall k :: 0 <= k < |simple| ==> Redundant(fds, simple[k])
  }

  /**
   * deriveFd returns false: for every pair fd1, fd2 of the combined FDs with
   * fd2.left inside fd1.right, fd1.left -> fd2.right yields nothing new.
   */
  predicate Saturated(fds: seq<FD>, combined: seq<FD>) {
    forall i, j {:trigger NothingNew(fds, FD(combined[i].left, combined[j].right))} ::
      0 <= i < |combined| && 0 <= j < |combined| && combined[j].left <= combined[i].right ==>
      NothingNew(fds, FD(combined[i].left, combined[j].right))
  }

  /**
   * The closure's fixpoint, independent of any grouping order: whenever
   * every attribute of l2 follows from l1 and l2 -> a is in the list,
   * l1 -> a is trivial or covers an FD of the list.
   */
  predicate Closed(fds: seq<FD>)
    requires AllSimple(fds)
  {
    forall k1, k2 {:trigger Redundant(fds, FD(fds[k1].left, fds[k2].right))} ::
      0 <= k1 < |fds| && 0 <= k2 < |fds| && fds[k2].left <= RightsOf(fds, fds[k1].left) ==>
      Redundant(fds, FD(fds[k1].left, fds[k2].right))
  }

  /** The simple FDs of l -> r are exactly l -> {a} for a in r. */
  lemma SimpleFdsShape(l: set<nat>, r: set<nat>, x: FD)
    requires x in GetSimpleFunctionalDependencies(FD(l, r))
    ensures x.left == l && IsSimple(x) && RightAttr(x) in r && x == FD(l, {RightAttr(x)})
  {
  }

  /** For a grouped list, deriveFd finding nothing is exactly the closure's fixpoint. */
  lemma SaturatedIffClosed(fds: seq<FD>, combined: seq<FD>)
    requires AllSimple(fds) && IsCombined(fds, combined)
    ensures Saturated(fds, combined) <==> Closed(fds)
  {
    if Saturated(fds, combined) {
      forall k1, k2 | 0 <= k1 < |fds| && 0 <= k2 < |fds| && fds[k2].left <= RightsOf(fds, fds[k1].left)
        ensures Redundant(fds, FD(fds[k1].left, fds[k2].right))
      {
        SaturatedGivesClosedPair(fds, combined, k1, k2);
      }
    }
    if Closed(fds) {
      forall i, j | 0 <= i < |combined| && 0 <= j < |combined| && combined[j].left <= combined[i].right
        ensures NothingNew(fds, FD(combined[i].left, combined[j].right))
      {
        ClosedGivesNothingNew(fds, combined, i, j);
      }
    }
  }

  lemma SaturatedGivesClosedPair(fds: seq<FD>, combined: seq<FD>, k1: nat, k2: nat)
    requires AllSimple(fds) && IsCombined(fds, combined) && Saturated(fds, combined)
    requires k1 < |fds| && k2 < |fds| && fds[k2].left <= RightsOf(fds, fds[k1].left)
    ensures Redundant(fds, FD(fds[k1].left, fds[k2].right))
  {
    var i :| 0 <= i < |combined| && combined[i].left == fds[k1].left;
    var j :| 0 <= j < |combined| && combined[j].left == fds[k2].left;
    var a := RightAttr(fds[k2]);
    assert a in combined[j].right;
    var derived := FD(combined[i].left, combined[j].right);
    assert NothingNew(fds, derived);
    NothingNewAt(fds, derived, a);
    assert fds[k2].right == {a};
  }

  /** When derived yields nothing new, neither does any one of its right attributes. */
  lemma NothingNewAt(fds: seq<FD>, derived: FD, a: nat)
    requires NothingNew(fds, derived) && a in derived.right
    ensures Redundant(fds, FD(derived.left, {a}))
  {
    SimpleFdsOnePerAttribute(derived);
    var k :| 0 <= k < |GetSimpleFunctionalDependencies(derived)| && GetSimpleFunctionalDependencies(derived)[k] == FD(derived.left, {a});
  }

  lemma ClosedGivesNothingNew(fds: seq<FD>, combined: seq<FD>, i: nat, j: nat)
    requires AllSimple(fds) && IsCombined(fds, combined) && Closed(fds)
    requires i < |combined| && j < |combined| && combined[j].left <= combined[i].right
    ensures NothingNew(fds, FD(combined[i].left, combined[j].right))
  {
    var simple := GetSimpleFunctionalDependencies(FD(combined[i].left, combined[j].right));
    forall k | 0 <= k < |simple| ensures Redundant(fds, simple[k]) {
      SimpleFdsShape(combined[i].left, combined[j].right, simple[k]);
      var a := RightAttr(simple[k]);
      var k1 :| 0 <= k1 < |fds| && fds[k1].left == combined[i].left;
      var k2 :| 0 <= k2 < |fds| && fds[k2].left == combined[j].left && RightAttr(fds[k2]) == a;
      assert fds[k2].right == {a};
    }
  }

  /** Every row of the table is either free of 0 cells or entirely 0. */
  predicate NoPartialRows(t: Table) {
    forall i, j, j' :: 0 <= i < |t| && 0 <= j < |t[i]| && 0 <= j' < |t[i]| && t[i][j] != 0 ==> t[i][j'] != 0
  }

  /**
   * The transitivity rule is sound on such tables: if every FD of the list
   * holds, l1 -> b is in the list for every b of l2, and l2 -> a is in the
   * list, then l1 -> a holds as well.
   */
  lemma TransitivityHolds(t: Table, fds: seq<FD>, l1: set<nat>, l2: set<nat>, a: nat)
    requires AllSimple(fds) && AllFit(t, fds) && Holds(t, fds) && NoPartialRows(t)
    requires l2 <= RightsOf(fds, l1) && a in RightsOf(fds, l2)
    requires Fits(t, FD(l1, {a}))
    ensures !Violated(t, FD(l1, {a}))
  {
    var fd := FD(l1, {a});
    if Violated(t, fd) {
      var r1, r2 :| 0 <= r1 < r2 < |t| && Conflict(t, fd, r1, r2);
      forall b | b in l2 ensures t[r1][b] == t[r2][b] && t[r1][b] != 0 && t[r2][b] != 0 {
        var k :| 0 <= k < |fds| && fds[k].left == l1 && RightAttr(fds[k]) == b;
        PairAgreesOn(t, fds[k], r1, r2, a);
      }
      var k :| 0 <= k < |fds| && fds[k].left == l2 && RightAttr(fds[k]) == a;
      PairAgreesOn(t, fds[k], r1, r2, a);
      assert false;
    }
  }

  /** Two rows with no 0 cell that agree on the left side of a holding FD agree on its right side. */
  lemma PairAgreesOn(t: Table, fd: FD, r1: nat, r2: nat, c: nat)
    requires Fits(t, fd) && !Violated(t, fd) && NoPartialRows(t)
    requires r1 < r2 < |t| && c < |t[r1]| && c < |t[r2]| && t[r1][c] != 0 && t[r2][c] != 0
    requires AgreeOn(t, r1, r2, fd.left)
    ensures t[r1][RightAttr(fd)] == t[r2][RightAttr(fd)]
  {
    assert !Conflict(t, fd, r1, r2);
  }

  /**
   * Without that restriction the rule is unsound. The table
   * [[1, 1, 1], [1, 2, 0]] is what a CSV file whose second row is short
   * becomes (the missing cell is padded with 0). On it the FDs 0 -> 2 and
   * 2 -> 1 hold (the 0 cell makes the second row irrelevant to both), yet
   * the derived 0 -> 1 is violated.
   */
  lemma TransitivityNeedsKnownCells()
    ensures var t: Table := [[1, 1, 1], [1, 2, 0]];
            var fds := [FD({0}, {2}), FD({2}, {1})];
            AllFit(t, fds) && Holds(t, fds) && {2} <= RightsOf(fds, {0}) && 1 in RightsOf(fds, {2})
            && Fits(t, FD({0}, {1})) && Violated(t, FD({0}, {1}))
  {
    var t: Table := [[1, 1, 1], [1, 2, 0]];
    var fds := [FD({0}, {2}), FD({2}, {1})];
    assert RightAttr(fds[0]) == 2 && RightAttr(fds[1]) == 1;
    assert !Violated(t, fds[0]) by {
      assert !Relevant(t, fds[0], 1);
    }
    assert !Violated(t, fds[1]) by {
      assert !Relevant(t, fds[1], 1);
    }
    assert RightAttr(FD({0}, {1})) == 1;
    assert Conflict(t, FD({0}, {1}), 0, 1);
  }

  /** The FDs the closure can ever add: l -> {a} for a left side l and a right attribute a it started with. */
  function Pool(lefts: set<set<nat>>, rights: set<nat>): set<FD> {
    set l, a | l in lefts && a in rights :: FD(l, {a})
  }

  lemma SubsetCard<T>(a: set<T>, b: set<T>)
    requires a <= b
    ensures |a| <= |b|
    decreases a
  {
    if a != {} {
      var y :| y in a;
      SubsetCard(a - {y}, b - {y});
    }
  }

  /** next extends fds by FDs l1 -> {a} with a in rights only. */
  predicate AppendsFrom(fds: seq<FD>, next: seq<FD>, l1: set<nat>, rights: set<nat>) {
    fds <= next
    && forall k :: |fds| <= k < |next| ==>
         IsSimple(next[k]) && next[k] == FD(l1, {RightAttr(next[k])}) && RightAttr(next[k]) in rights
  }

  /** addSimpleFuncDeps on the decomposition of l1 -> rights appends only FDs l1 -> {a}, a in rights. */
  lemma AppendNewShape(fds: seq<FD>, l1: set<nat>, rights: set<nat>)
    ensures AppendsFrom(fds, AppendNew(fds, GetSimpleFunctionalDependencies(FD(l1, rights))), l1, rights)
  {
    var next := AppendNew(fds, GetSimpleFunctionalDependencies(FD(l1, rights)));
    forall k | |fds| <= k < |next|
      ensures IsSimple(next[k]) && next[k] == FD(l1, {RightAttr(next[k])}) && RightAttr(next[k]) in rights
    {
      SimpleFdsShape(l1, rights, next[k]);
    }
  }

  /** Appending l1 -> {a} for an existing left side l1 and existing right attributes keeps both sets. */
  lemma AppendsKeepSides(fds: seq<FD>, next: seq<FD>, l1: set<nat>)
    requires AllSimple(fds) && l1 in LeftsOf(fds) && AppendsFrom(fds, next, l1, RightsAll(fds))
    ensures AllSimple(next) && LeftsOf(next) == LeftsOf(fds) && RightsAll(next) == RightsAll(fds)
  {
    assert forall k :: 0 <= k < |fds| ==> next[k] == fds[k];
    assert LeftsOf(next) == LeftsOf(fds);
    assert RightsAll(next) == RightsAll(fds);
  }

  /**
   * One successful deriveFd step for left sides l1, l2 of the list: the new
   * FDs are l1 -> a for rights a of l2, so the left sides and right
   * attributes stay the same, and the unused part of the pool shrinks.
   */
  lemma StepStaysInPool(fds: seq<FD>, l1: set<nat>, l2: set<nat>, next: seq<FD>)
    requires AllSimple(fds) && l1 in LeftsOf(fds)
    requires next == AppendNew(fds, GetSimpleFunctionalDependencies(FD(l1, RightsOf(fds, l2))))
    ensures AllSimple(next) && LeftsOf(next) == LeftsOf(fds) && RightsAll(next) == RightsAll(fds)
    ensures AppendsFrom(fds, next, l1, RightsOf(fds, l2))
    ensures |next| > |fds| ==>
              |Pool(LeftsOf(fds), RightsAll(fds)) - FdSet(next)| < |Pool(LeftsOf(fds), RightsAll(fds)) - FdSet(fds)|
  {
    AppendNewShape(fds, l1, RightsOf(fds, l2));
    assert AppendsFrom(fds, next, l1, RightsAll(fds));
    AppendsKeepSides(fds, next, l1);
    if |next| > |fds| {
      PoolShrinks(fds, l1, next);
    }
  }

  lemma PoolShrinks(fds: seq<FD>, l1: set<nat>, next: seq<FD>)
    requires AllSimple(fds) && l1 in LeftsOf(fds) && |next| > |fds|
    requires AppendsFrom(fds, next, l1, RightsAll(fds))
    requires !Redundant(next[..|fds|], next[|fds|])
    ensures |Pool(LeftsOf(fds), RightsAll(fds)) - FdSet(next)| < |Pool(LeftsOf(fds), RightsAll(fds)) - FdSet(fds)|
  {
    var pool := Pool(LeftsOf(fds), RightsAll(fds));
    var x := next[|fds|];
    assert next[..|fds|] == fds;
    assert Covers(x, x);
    assert x !in FdSet(fds);
    assert x in pool;
    assert x in FdSet(next);
    assert pool - FdSet(next) <= (pool - FdSet(fds)) - {x};
    SubsetCard(pool - FdSet(next), (pool - FdSet(fds)) - {x});
  }

  /** FDs l1 -> {a} built from left sides and right attributes of fitting FDs fit the table too. */
  lemma AppendsFit(t: Table, fds: seq<FD>, next: seq<FD>, l1: set<nat>)
    requires AllSimple(fds) && AllFit(t, fds) && l1 in LeftsOf(fds) && AppendsFrom(fds, next, l1, RightsAll(fds))
    ensures AllFit(t, next)
  {
    var k1 :| 0 <= k1 < |fds| && fds[k1].left == l1;
    assert Fits(t, fds[k1]);
    forall k | |fds| <= k < |next| ensures Fits(t, next[k]) {
      var k2 :| 0 <= k2 < |fds| && RightAttr(fds[k2]) == RightAttr(next[k]);
      assert Fits(t, fds[k2]);
    }
    assert forall k :: 0 <= k < |fds| ==> next[k] == fds[k];
  }

  /**
   * One successful deriveFd step keeps every FD of the list in range of the
   * table and, on a table without partially blank rows, holding.
   */
  lemma StepSound(t: Table, fds: seq<FD>, l1: set<nat>, l2: set<nat>, next: seq<FD>)
    requires AllSimple(fds) && AllFit(t, fds) && l1 in LeftsOf(fds)
    requires l2 <= RightsOf(fds, l1)
    requires next == AppendNew(fds, GetSimpleFunctionalDependencies(FD(l1, RightsOf(fds, l2))))
    ensures AllFit(t, next)
    ensures Holds(t, fds) && NoPartialRows(t) ==> Holds(t, next)
  {
    StepStaysInPool(fds, l1, l2, next);
    AppendsWider(fds, next, l1, RightsOf(fds, l2), RightsAll(fds));
    AppendsFit(t, fds, next, l1);
    if Holds(t, fds) && NoPartialRows(t) {
      AppendsHold(t, fds, l1, l2, next);
    }
  }

  /** An append from a set of right attributes is one from any larger set. */
  lemma AppendsWider(fds: seq<FD>, next: seq<FD>, l1: set<nat>, rights: set<nat>, wider: set<nat>)
    requires AllSimple(fds) && AppendsFrom(fds, next, l1, rights) && rights <= wider
    ensures AppendsFrom(fds, next, l1, wider)
  {
  }

  /** FDs appended by transitivity from l1 through l2 hold where the list held. */
  lemma AppendsHold(t: Table, fds: seq<FD>, l1: set<nat>, l2: set<nat>, next: seq<FD>)
    requires AllSimple(fds) && AllFit(t, fds) && AllFit(t, next) && Holds(t, fds) && NoPartialRows(t)
    requires l2 <= RightsOf(fds, l1) && AppendsFrom(fds, next, l1, RightsOf(fds, l2))
    ensures Holds(t, next)
  {
    forall k | 0 <= k < |next| ensures !Violated(t, next[k]) {
      if k < |fds| {
        assert next[k] == fds[k];
      } else {
        TransitivityHolds(t, fds, l1, l2, RightAttr(next[k]));
      }
    }
  }
}
