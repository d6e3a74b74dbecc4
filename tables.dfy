/**
 * Tables of int cells and when a functional dependency is violated on one.
 * A cell holding 0 is unknown: a row with 0 among the FD's left values or
 * as its right value constrains nothing.
 */
module Tables {
  import opened SortedSets
  import opened FunctionalDependencies

  type Table = seq<seq<int>>

  /** The number of columns: the length of the first row, 0 for no rows. */
  function Width(t: Table): nat {
    if |t| == 0 then 0 else |t[0]|
  }

  /** Every row has Width(t) cells (the tables the program builds are rectangular). */
  predicate Rect(t: Table) {
    forall i :: 0 <= i < |t| ==> |t[i]| == Width(t)
  }

  /** The number of cells, row by row. */
  function Size(t: Table): nat {
    if |t| == 0 then 0 else Size(t[..|t| - 1]) + |t[|t| - 1]|
  }

  /** A rectangular table has rows * cols cells. */
  lemma {:induction false} SizeRect(t: Table)
    requires Rect(t)
    ensures Size(t) == |t| * Width(t)
  {
    if |t| > 0 {
      var init := t[..|t| - 1];
      assert Rect(init) && (|init| == 0 || Width(init) == Width(t));
      SizeRect(init);
    }
  }

  /** Every attribute of fd is one of the columns 0 .. cols-1. */
  predicate InRange(fd: FD, cols: nat) {
    (forall a :: a in fd.left ==> a < cols) && (forall a :: a in fd.right ==> a < cols)
  }

  /** fd can be evaluated on t: it is simple and, if t has rows, names only columns of t. */
  predicate Fits(t: Table, fd: FD) {
    Rect(t) && IsSimple(fd) && (|t| == 0 || InRange(fd, Width(t)))
  }

  predicate AllFit(t: Table, fds: seq<FD>) {
    forall k :: 0 <= k < |fds| ==> Fits(t, fds[k])
  }

  /** The right attribute of a simple FD. */
  function RightAttr(fd: FD): (a: nat)
    requires IsSimple(fd)
    ensures fd.right == {a}
  {
    SimpleRightSide(fd)
  }

  /** getLeftValues: the row's cells in the FD's left columns, in ascending column order. */
  function LeftValues(t: Table, row: nat, fd: FD): (vs: seq<int>)
    requires row < |t| && Fits(t, fd)
    ensures |vs| == |fd.left|
  {
    var xs := LeftSideArray(fd);
    assert forall i :: 0 <= i < |xs| ==> xs[i] in xs;
    seq(|xs|, i requires 0 <= i < |xs| => t[row][xs[i]])
  }

  /** The two rows hold the same values in every column of attrs. */
  predicate AgreeOn(t: Table, r1: nat, r2: nat, attrs: set<nat>)
    requires r1 < |t| && r2 < |t| && Rect(t)
    requires forall a :: a in attrs ==> a < Width(t)
  {
    forall a :: a in attrs ==> t[r1][a] == t[r2][a]
  }

  /** The row takes part in the check of fd: no 0 among its left values, a non-zero right value. */
  predicate Relevant(t: Table, fd: FD, r: nat)
    requires r < |t| && Fits(t, fd)
  {
    (forall a :: a in fd.left ==> t[r][a] != 0) && t[r][RightAttr(fd)] != 0
  }

  /** Two relevant rows equal on the left side and different on the right side. */
  predicate Conflict(t: Table, fd: FD, r1: nat, r2: nat)
    requires r1 < |t| && r2 < |t| && Fits(t, fd)
  {
    Relevant(t, fd, r1) && Relevant(t, fd, r2) && AgreeOn(t, r1, r2, fd.left)
    && t[r1][RightAttr(fd)] != t[r2][RightAttr(fd)]
  }

  /** fd is violated on t when some two rows conflict. */
  predicate Violated(t: Table, fd: FD)
    requires Fits(t, fd)
  {
    exists r1, r2 :: 0 <= r1 < r2 < |t| && Conflict(t, fd, r1, r2)
  }

  /** checkFuncDeps: no FD of the list is violated. */
  predicate Holds(t: Table, fds: seq<FD>)
    requires AllFit(t, fds)
  {
    forall k :: 0 <= k < |fds| ==> !Violated(t, fds[k])
  }

  /** Equal left-value arrays are exactly agreement on the left columns. */
  lemma LeftValuesAgree(t: Table, fd: FD, r1: nat, r2: nat)
    requires r1 < |t| && r2 < |t| && Fits(t, fd)
    ensures LeftValues(t, r1, fd) == LeftValues(t, r2, fd) <==> AgreeOn(t, r1, r2, fd.left)
  {
    var xs := LeftSideArray(fd);
    var v1, v2 := LeftValues(t, r1, fd), LeftValues(t, r2, fd);
    if v1 == v2 {
      forall a | a in fd.left ensures t[r1][a] == t[r2][a] {
        var i :| 0 <= i < |xs| && xs[i] == a;
        assert v1[i] == t[r1][a];
      }
    }
    if AgreeOn(t, r1, r2, fd.left) {
      forall i | 0 <= i < |xs| ensures v1[i] == v2[i] {
        assert xs[i] in xs;
      }
    }
  }

  /** A 0 among the left values is exactly a 0 in some left column. */
  lemma LeftValuesZero(t: Table, fd: FD, r: nat)
    requires r < |t| && Fits(t, fd)
    ensures 0 in LeftValues(t, r, fd) <==> exists a :: a in fd.left && t[r][a] == 0
  {
    var xs := LeftSideArray(fd);
    var vs := LeftValues(t, r, fd);
    if 0 in vs {
      var i :| 0 <= i < |vs| && vs[i] == 0;
      assert xs[i] in xs;
    }
    if exists a :: a in fd.left && t[r][a] == 0 {
      var a :| a in fd.left && t[r][a] == 0;
      var i :| 0 <= i < |xs| && xs[i] == a;
      assert vs[i] == 0;
    }
  }

  /** A row is relevant exactly when its left values hold no 0 and its right value is not 0. */
  lemma RelevantByValues(t: Table, fd: FD, r: nat)
    requires r < |t| && Fits(t, fd)
    ensures Relevant(t, fd, r) <==> 0 !in LeftValues(t, r, fd) && t[r][RightAttr(fd)] != 0
  {
    LeftValuesZero(t, fd, r);
  }

  /**
   * funcDepIsViolated after the rows before row, with no conflict among
   * them: seen maps the left tuple of each relevant row so far to its right
   * value, and firstRow names the first row that put the tuple there.
   */
  ghost predicate Scanned(t: Table, fd: FD, row: nat, seen: map<seq<int>, int>, firstRow: map<seq<int>, nat>)
    requires Fits(t, fd) && row <= |t|
  {
    seen.Keys == firstRow.Keys
    && (forall key :: key in firstRow ==>
          firstRow[key] < row && Relevant(t, fd, firstRow[key]) && LeftValues(t, firstRow[key], fd) == key
          && seen[key] == t[firstRow[key]][RightAttr(fd)])
    && (forall r :: 0 <= r < row && Relevant(t, fd, r) ==>
          LeftValues(t, r, fd) in seen && seen[LeftValues(t, r, fd)] == t[r][RightAttr(fd)])
  }

  /** A row that is not relevant, or whose tuple was seen with its right value, changes nothing. */
  lemma ScanKeep(t: Table, fd: FD, row: nat, seen: map<seq<int>, int>, firstRow: map<seq<int>, nat>)
    requires Fits(t, fd) && row < |t| && Scanned(t, fd, row, seen, firstRow)
    requires Relevant(t, fd, row) ==>
      LeftValues(t, row, fd) in seen && seen[LeftValues(t, row, fd)] == t[row][RightAttr(fd)]
    ensures Scanned(t, fd, row + 1, seen, firstRow)
  {
  }

  /** A relevant row with an unseen tuple is remembered. */
  lemma ScanAdd(t: Table, fd: FD, row: nat, seen: map<seq<int>, int>, firstRow: map<seq<int>, nat>)
    requires Fits(t, fd) && row < |t| && Scanned(t, fd, row, seen, firstRow)
    requires Relevant(t, fd, row) && LeftValues(t, row, fd) !in seen
    ensures Scanned(t, fd, row + 1, seen[LeftValues(t, row, fd) := t[row][RightAttr(fd)]],
                    firstRow[LeftValues(t, row, fd) := row])
  {
  }

  /** A relevant row whose tuple was seen with another right value conflicts with the row that put it there. */
  lemma ScanConflict(t: Table, fd: FD, row: nat, seen: map<seq<int>, int>, firstRow: map<seq<int>, nat>)
    requires Fits(t, fd) && row < |t| && Scanned(t, fd, row, seen, firstRow)
    requires Relevant(t, fd, row) && LeftValues(t, row, fd) in seen
    requires seen[LeftValues(t, row, fd)] != t[row][RightAttr(fd)]
    ensures Violated(t, fd)
  {
    var r := firstRow[LeftValues(t, row, fd)];
    LeftValuesAgree(t, fd, r, row);
    assert Conflict(t, fd, r, row);
  }

  /** All rows scanned without a conflict: the FD is not violated. */
  lemma ScanDone(t: Table, fd: FD, seen: map<seq<int>, int>, firstRow: map<seq<int>, nat>)
    requires Fits(t, fd) && Scanned(t, fd, |t|, seen, firstRow)
    ensures !Violated(t, fd)
  {
    forall r1, r2 | 0 <= r1 < r2 < |t| ensures !Conflict(t, fd, r1, r2) {
      LeftValuesAgree(t, fd, r1, r2);
    }
  }

  /**
   * funcDepIsViolated: rows are scanned in order, remembering for each left
   * tuple the right value of the first relevant row that had it; the FD is
   * violated as soon as a relevant row disagrees with the remembered value.
   * The map is keyed by the tuple itself (the source keys it by the tuple's
   * text, which is equally injective).
   */
  method FuncDepIsViolated(t: Table, fd: FD) returns (violated: bool)
    requires Fits(t, fd)
    ensures violated == Violated(t, fd)
  {
    var relevantCols: map<seq<int>, int> := map[];
    ghost var firstRow: map<seq<int>, nat> := map[];
    var row := 0;
    while row < |t|
      invariant row <= |t| && Scanned(t, fd, row, relevantCols, firstRow)
    {
      var leftValues := LeftValues(t, row, fd);
      var rightValue := t[row][RightAttr(fd)];
      RelevantByValues(t, fd, row);
      if 0 !in leftValues && rightValue != 0 {
        if leftValues in relevantCols {
          if relevantCols[leftValues] != rightValue {
            ScanConflict(t, fd, row, relevantCols, firstRow);
            return true;
          }
          ScanKeep(t, fd, row, relevantCols, firstRow);
        } else {
          ScanAdd(t, fd, row, relevantCols, firstRow);
          relevantCols := relevantCols[leftValues := rightValue];
          firstRow := firstRow[leftValues := row];
        }
      } else {
        ScanKeep(t, fd, row, relevantCols, firstRow);
      }
      row := row + 1;
    }
    ScanDone(t, fd, relevantCols, firstRow);
    return false;
  }

  /** checkFuncDeps: true when no FD of the list is violated. */
  method CheckFuncDeps(t: Table, fds: seq<FD>) returns (ok: bool)
    requires AllFit(t, fds)
    ensures ok == Holds(t, fds)
  {
    for k := 0 to |fds|
      invariant forall j :: 0 <= j < k ==> !Violated(t, fds[j])
    {
      var violated := FuncDepIsViolated(t, fds[k]);
      if violated {
        return false;
      }
    }
    return true;
  }

  /** A trivial FD (right side inside the left side) is never violated. */
  lemma TrivialNeverViolated(t: Table, fd: FD)
    requires Fits(t, fd) && IsTrivial(fd)
    ensures !Violated(t, fd)
  {
    var b := RightAttr(fd);
    assert b in fd.left;
  }

  /**
   * An FD that covers another (same right side, larger left side) is
   * violated only where the covered one is: adding it says nothing new.
   */
  lemma CoveringIsWeaker(t: Table, a: FD, b: FD)
    requires Fits(t, a) && Fits(t, b) && Covers(a, b)
    ensures Violated(t, a) ==> Violated(t, b)
  {
    if Violated(t, a) {
      var r1, r2 :| 0 <= r1 < r2 < |t| && Conflict(t, a, r1, r2);
      assert RightAttr(a) == RightAttr(b);
      assert Conflict(t, b, r1, r2);
    }
  }

  /**
   * Two tables that differ at most in cell (row, col), where both hold a
   * non-zero value unlike every other cell of the column.
   */
  predicate FreshVariants(tv: Table, tw: Table, row: nat, col: nat)
    requires Rect(tv) && Rect(tw) && |tv| == |tw| && Width(tv) == Width(tw)
    requires row < |tv| && col < Width(tv)
  {
    && (forall i, j :: 0 <= i < |tv| && 0 <= j < Width(tv) && (i != row || j != col) ==> tv[i][j] == tw[i][j])
    && tv[row][col] != 0 && tw[row][col] != 0
    && (forall i :: 0 <= i < |tv| && i != row ==> tv[i][col] != tv[row][col] && tv[i][col] != tw[row][col])
  }

  /**
   * A conflict in one of two fresh variants is a conflict in the other: the
   * fresh cell never agrees with another row, and whether it is 0 is the same.
   */
  lemma FreshCellConflict(tv: Table, tw: Table, fd: FD, row: nat, col: nat, r1: nat, r2: nat)
    requires Rect(tv) && Rect(tw) && |tv| == |tw| && Width(tv) == Width(tw)
    requires row < |tv| && col < Width(tv) && r1 < r2 < |tv| && Fits(tv, fd) && Fits(tw, fd)
    requires FreshVariants(tv, tw, row, col) && Conflict(tv, fd, r1, r2)
    ensures Conflict(tw, fd, r1, r2)
  {
    forall a | a in fd.left
      ensures tw[r1][a] == tv[r1][a] && tw[r2][a] == tv[r2][a]
    {
      assert tv[r1][a] == tv[r2][a];
    }
  }

  /** Fresh variants satisfy the same FDs. */
  lemma FreshCellIrrelevant(tv: Table, tw: Table, fds: seq<FD>, row: nat, col: nat)
    requires Rect(tv) && Rect(tw) && |tv| == |tw| && Width(tv) == Width(tw)
    requires row < |tv| && col < Width(tv) && AllFit(tv, fds)
    requires FreshVariants(tv, tw, row, col)
    ensures AllFit(tw, fds) && (Holds(tv, fds) <==> Holds(tw, fds))
  {
    assert AllFit(tw, fds) by {
      forall k | 0 <= k < |fds| ensures Fits(tw, fds[k]) {
        assert Fits(tv, fds[k]);
      }
    }
    assert FreshVariants(tw, tv, row, col);
    forall k | 0 <= k < |fds|
      ensures Violated(tv, fds[k]) <==> Violated(tw, fds[k])
    {
      if Violated(tv, fds[k]) {
        var r1, r2 :| 0 <= r1 < r2 < |tv| && Conflict(tv, fds[k], r1, r2);
        FreshCellConflict(tv, tw, fds[k], row, col, r1, r2);
      }
      if Violated(tw, fds[k]) {
        var r1, r2 :| 0 <= r1 < r2 < |tw| && Conflict(tw, fds[k], r1, r2);
        FreshCellConflict(tw, tv, fds[k], row, col, r1, r2);
      }
    }
  }
}
