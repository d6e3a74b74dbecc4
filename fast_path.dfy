/**
 * The isOne fast path: cells whose information content is 1 without
 * averaging over any mask. A cell is "one" when its column is no FD's
 * right side, or when, for every FD with that right side, the cell's row
 * has a left tuple that no other row of the table shares.
 */
module FastPath {
  import opened FunctionalDependencies
  import opened Tables
  import opened Information

  /** isFdsRightSide: flag c is set exactly when some FD has c as its right attribute. */
  predicate IsRightSideFlags(flags: seq<bool>, fds: seq<FD>, cols: nat)
    requires forall k :: 0 <= k < |fds| ==> IsSimple(fds[k])
  {
    |flags| == cols
    && forall c :: 0 <= c < cols ==> (flags[c] <==> exists k :: 0 <= k < |fds| && RightAttr(fds[k]) == c)
  }

  /**
   * The isFdsRightSide array as a value: column c is flagged when some FD
   * has c as its right attribute.
   */
  ghost function RightSideFlagsOf(fds: seq<FD>, cols: nat): (flags: seq<bool>)
    requires forall k :: 0 <= k < |fds| ==> IsSimple(fds[k])
    ensures IsRightSideFlags(flags, fds, cols)
  {
    seq(cols, c => exists k :: 0 <= k < |fds| && RightAttr(fds[k]) == c)
  }

  /** The flags are determined by the FDs and the width. */
  lemma RightSideFlagsUnique(flags: seq<bool>, fds: seq<FD>, cols: nat)
    requires forall k :: 0 <= k < |fds| ==> IsSimple(fds[k])
    requires IsRightSideFlags(flags, fds, cols)
    ensures flags == RightSideFlagsOf(fds, cols)
  {
  }

  /** The row's left tuple under fd differs from that of every other row (zeros included). */
  predicate UniqueLeftTuple(t: Table, fd: FD, row: nat)
    requires row < |t| && Fits(t, fd)
  {
    forall i :: 0 <= i < |t| && i != row ==> LeftValues(t, row, fd) != LeftValues(t, i, fd)
  }

  /** isOne for the cell at (row, col). */
  predicate IsOneAt(t: Table, fds: seq<FD>, flags: seq<bool>, row: nat, col: nat)
    requires Rect(t) && AllFit(t, fds) && |flags| == Width(t)
    requires row < |t| && col < Width(t)
  {
    !flags[col]
    || forall k :: 0 <= k < |fds| && RightAttr(fds[k]) == col ==> UniqueLeftTuple(t, fds[k], row)
  }

  /** isOne(position): the cell at row position / cols, column position % cols. */
  predicate IsOne(t: Table, fds: seq<FD>, flags: seq<bool>, p: nat)
    requires Rect(t) && AllFit(t, fds) && |flags| == Width(t) && p < Size(t)
  {
    PositionInTable(t, p);
    IsOneAt(t, fds, flags, RowOf(p, Width(t)), ColOf(p, Width(t)))
  }

  /** rowIsOne: every cell of the row is one. */
  predicate RowIsOne(t: Table, fds: seq<FD>, flags: seq<bool>, row: nat)
    requires Rect(t) && AllFit(t, fds) && |flags| == Width(t) && row < |t|
  {
    forall j :: 0 <= j < Width(t) ==> IsOneAt(t, fds, flags, row, j)
  }

  /** rowIsOne visits positions row * cols .. row * cols + cols - 1; each is the cell (row, j). */
  lemma IsOneOfCell(t: Table, fds: seq<FD>, flags: seq<bool>, i: nat, j: nat)
    requires Rect(t) && AllFit(t, fds) && |flags| == Width(t) && i < |t| && j < Width(t)
    ensures RowStart(i, Width(t)) + j < Size(t)
    ensures IsOne(t, fds, flags, RowStart(i, Width(t)) + j) == IsOneAt(t, fds, flags, i, j)
  {
    CellIndex(t, i, j);
    RowColOf(RowStart(i, Width(t)) + j, Width(t));
  }

  /**
   * One FD on one pair of rows of the probed table cannot conflict when the
   * FD holds on the original table and, if its right attribute is the
   * probed column, the probed row's left tuple is unique.
   */
  lemma ProbedPairAgrees(t: Table, fd: FD, p: nat, hasValue: seq<bool>, r1: nat, r2: nat)
    requires Rect(t) && Fits(t, fd) && p < Size(t) && |hasValue| == Size(t) - 1
    requires r1 < r2 < |t| && !Violated(t, fd)
    requires Width(t) > 0 && RowOf(p, Width(t)) < |t| && ColOf(p, Width(t)) < Width(t)
    requires RightAttr(fd) == ColOf(p, Width(t)) ==> UniqueLeftTuple(t, fd, RowOf(p, Width(t)))
    ensures Fits(Probe(t, p, hasValue), fd) && !Conflict(Probe(t, p, hasValue), fd, r1, r2)
  {
    var tp := Probe(t, p, hasValue);
    var w := Width(t);
    var row, col := RowOf(p, w), ColOf(p, w);
    var b := RightAttr(fd);
    ProbeCells(t, p, hasValue);
    assert Fits(tp, fd);
    if Conflict(tp, fd, r1, r2) {
      if col in fd.left && (r1 == row || r2 == row) {
        assert false;
      } else if col == b && (r1 == row || r2 == row) {
        forall a | a in fd.left ensures t[r1][a] == t[r2][a] {
          assert tp[r1][a] != 0 && tp[r2][a] != 0;
        }
        LeftValuesAgree(t, fd, r1, r2);
        assert false;
      } else {
        forall a | a in fd.left ensures t[r1][a] == tp[r1][a] && t[r2][a] == tp[r2][a] {
          assert tp[r1][a] != 0 && tp[r2][a] != 0;
        }
        assert tp[r1][b] != 0 && tp[r2][b] != 0;
        assert Conflict(t, fd, r1, r2);
        assert false;
      }
    }
  }

  /**
   * Fast-path soundness: when every FD holds on the table and the cell is
   * one, every mask has entropy 1.
   */
  lemma IsOneEntropy(t: Table, fds: seq<FD>, flags: seq<bool>, p: nat, hasValue: seq<bool>)
    requires Rect(t) && AllFit(t, fds) && p < Size(t) && |hasValue| == Size(t) - 1
    requires IsRightSideFlags(flags, fds, Width(t)) && Holds(t, fds)
    requires IsOne(t, fds, flags, p)
    ensures Entropy(t, fds, p, hasValue) == 1.0
  {
    var tp := Probe(t, p, hasValue);
    PositionInTable(t, p);
    var w := Width(t);
    var row, col := RowOf(p, w), ColOf(p, w);
    forall k | 0 <= k < |fds| ensures Fits(tp, fds[k]) && !Violated(tp, fds[k]) {
      var fd := fds[k];
      if RightAttr(fd) == col {
        assert flags[col];
      }
      forall r1, r2 | 0 <= r1 < r2 < |t| ensures Fits(tp, fd) && !Conflict(tp, fd, r1, r2) {
        ProbedPairAgrees(t, fd, p, hasValue, r1, r2);
      }
      ProbeCells(t, p, hasValue);
      assert Fits(tp, fd);
    }
    assert Holds(tp, fds);
  }

  /** A one cell has information content exactly 1, as the fast path stores. */
  lemma IsOneFullInformation(t: Table, fds: seq<FD>, flags: seq<bool>, p: nat)
    requires Rect(t) && AllFit(t, fds) && p < Size(t)
    requires IsRightSideFlags(flags, fds, Width(t)) && Holds(t, fds)
    requires IsOne(t, fds, flags, p)
    ensures InformationContent(t, fds, p) == 1.0
  {
    forall m: seq<bool> | |m| == Size(t) - 1 ensures Entropy(t, fds, p, m) == 1.0 {
      IsOneEntropy(t, fds, flags, p, m);
    }
    RecAllOnes(t, fds, p, []);
  }

  /** A column that no FD names as its right side holds only one cells. */
  lemma UnflaggedColumnIsOne(t: Table, fds: seq<FD>, flags: seq<bool>, i: nat, j: nat)
    requires Rect(t) && AllFit(t, fds) && i < |t| && j < Width(t)
    requires IsRightSideFlags(flags, fds, Width(t))
    requires forall k :: 0 <= k < |fds| ==> j !in GetAttributeIndices(fds[k])
    ensures IsOneAt(t, fds, flags, i, j)
  {
    forall k | 0 <= k < |fds| ensures RightAttr(fds[k]) != j {
      assert RightAttr(fds[k]) in GetAttributeIndices(fds[k]);
    }
  }
}
