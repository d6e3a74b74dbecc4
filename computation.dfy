/**
 * The Computation object: a table, fixed at construction, and an
 * append-only list of simple FDs that hold on it. Its methods insert FDs
 * (checked, or derived by the transitive closure) and compute the matrix of
 * information contents, directly or through the subtable reduction.
 */
module Computations {
  import opened Grouping
  import opened Wrappers
  import opened Strings
  import opened SortedSets
  import opened FunctionalDependencies
  import opened Tables
  import opened Information
  import opened FastPath
  import opened Closure
  import opened Subtables
  import opened Sequences

  /**
   * addFuncDepWithCheck's outcome: appended, one of the two
   * IllegalArgumentExceptions it throws, or the IndexOutOfBoundsException
   * that FunctionalDependency.toString throws on an empty left side while
   * the error text is formatted.
   */
  datatype CheckOutcome = Added | EmptyLeftSide | AttributeOutOfBounds | NotFulfilled

  /** No FD of the list has an empty left side. */
  predicate NonEmptyLefts(fds: seq<FD>) {
    forall k :: 0 <= k < |fds| ==> fds[k].left != {}
  }

  /** The simple FDs of l1 -> RightsOf(fds, l2), for l1 a left side of fds, fit every table fds fits. */
  lemma DerivedFits(t: Table, fds: seq<FD>, l1: set<nat>, l2: set<nat>)
    requires AllFit(t, fds) && AllSimple(fds) && l1 in LeftsOf(fds)
    ensures forall x :: x in GetSimpleFunctionalDependencies(FD(l1, RightsOf(fds, l2))) ==> Fits(t, x)
  {
    forall x | x in GetSimpleFunctionalDependencies(FD(l1, RightsOf(fds, l2))) ensures Fits(t, x) {
      SimpleFdsShape(l1, RightsOf(fds, l2), x);
      var k1 :| 0 <= k1 < |fds| && fds[k1].left == l1;
      var k2 :| 0 <= k2 < |fds| && fds[k2].left == l2 && RightAttr(fds[k2]) == RightAttr(x);
      assert Fits(t, fds[k1]) && Fits(t, fds[k2]);
    }
  }

  /** A trivial derived FD yields only trivial simple FDs, which addSimpleFuncDeps skips. */
  lemma TrivialNothingNew(fds: seq<FD>, derived: FD)
    requires IsTrivial(derived)
    ensures NothingNew(fds, derived)
  {
    var simple := GetSimpleFunctionalDependencies(derived);
    forall k | 0 <= k < |simple| ensures IsTrivial(simple[k]) {
      SimpleFdsShape(derived.left, derived.right, simple[k]);
    }
  }

  /**
   * deriveFd part-way: every pair it has already looked at, fd2 = combined[j]
   * before column jj or fd1 = combined[i] before ii in column jj, yields
   * nothing new.
   */
  predicate PairsDone(fds: seq<FD>, combined: seq<FD>, jj: nat, ii: nat) {
    forall i, j {:trigger NothingNew(fds, FD(combined[i].left, combined[j].right))} ::
      (0 <= i < |combined| && 0 <= j < |combined| && (j < jj || (j == jj && i < ii))
       && combined[j].left <= combined[i].right) ==> NothingNew(fds, FD(combined[i].left, combined[j].right))
  }

  /** The pair (fd1, fd2) = (combined[ii], combined[jj]) yields nothing new: move on to the next fd1. */
  lemma PairDone(fds: seq<FD>, combined: seq<FD>, jj: nat, ii: nat)
    requires PairsDone(fds, combined, jj, ii) && ii < |combined| && jj < |combined|
    requires combined[jj].left <= combined[ii].right ==> NothingNew(fds, FD(combined[ii].left, combined[jj].right))
    ensures PairsDone(fds, combined, jj, ii + 1)
  {
  }

  /** Every fd1 done for this fd2: move on to the next fd2; all fd2 done: saturated. */
  lemma ColumnDone(fds: seq<FD>, combined: seq<FD>, jj: nat)
    requires PairsDone(fds, combined, jj, |combined|)
    ensures PairsDone(fds, combined, jj + 1, 0)
    ensures jj + 1 >= |combined| ==> Saturated(fds, combined)
  {
  }

  /**
   * A non-trivial derivation from the pair (combined[ii], combined[jj]) that
   * adds something: its left sides come from the list, it is the step
   * AppendNew describes, and the list was not saturated.
   */
  lemma DerivedStep(fds: seq<FD>, combined: seq<FD>, ii: nat, jj: nat, next: seq<FD>)
    requires AllSimple(fds) && IsCombined(fds, combined) && ii < |combined| && jj < |combined|
    requires combined[jj].left <= combined[ii].right
    requires next == AppendNew(fds, GetSimpleFunctionalDependencies(FD(combined[ii].left, combined[jj].right)))
    requires next != fds
    ensures combined[ii].left in LeftsOf(fds) && combined[jj].left <= RightsOf(fds, combined[ii].left)
    ensures next == AppendNew(fds, GetSimpleFunctionalDependencies(FD(combined[ii].left, RightsOf(fds, combined[jj].left))))
    ensures |next| > |fds| && !Saturated(fds, combined)
  {
    var derived := FD(combined[ii].left, combined[jj].right);
    AppendNewUnchanged(fds, GetSimpleFunctionalDependencies(derived));
    assert !NothingNew(fds, derived);
  }

  /**
   * addTransitiveClosure part-way from start to fds: the FDs are still
   * keyable, start is a prefix, no left side or right attribute is new, and
   * every appended FD was new when it was appended.
   */
  ghost predicate ClosureShape(start: seq<FD>, fds: seq<FD>) {
    AllSimple(start) && AllSimple(fds) && KeyableLefts(fds)
    && start <= fds && LeftsOf(fds) == LeftsOf(start) && RightsAll(fds) == RightsAll(start)
    && (forall k :: |start| <= k < |fds| ==> !Redundant(fds[..k], fds[k]))
  }

  /**
   * One round of addTransitiveClosure that derived something keeps
   * ClosureShape and brings the list closer to the pool of FDs it can reach.
   */
  lemma ClosureStep(start: seq<FD>, before: seq<FD>, l1: set<nat>, l2: set<nat>, next: seq<FD>)
    requires ClosureShape(start, before) && l1 in LeftsOf(before)
    requires next == AppendNew(before, GetSimpleFunctionalDependencies(FD(l1, RightsOf(before, l2))))
    requires |next| > |before|
    ensures ClosureShape(start, next)
    ensures |Pool(LeftsOf(start), RightsAll(start)) - FdSet(next)| < |Pool(LeftsOf(start), RightsAll(start)) - FdSet(before)|
  {
    StepStaysInPool(before, l1, l2, next);
    KeyableBySides(before, next);
    AppendKeepsFresh(start, before, next);
    PrefixTransitive(start, before, next);
  }

  /** On a table without partially blank rows, fds holds whenever start does. */
  ghost predicate SoundFrom(t: Table, start: seq<FD>, fds: seq<FD>) {
    AllFit(t, start) && AllFit(t, fds) && (Holds(t, start) && NoPartialRows(t) ==> Holds(t, fds))
  }

  lemma SoundStep(t: Table, start: seq<FD>, before: seq<FD>, l1: set<nat>, l2: set<nat>, next: seq<FD>)
    requires SoundFrom(t, start, before) && AllSimple(before) && l1 in LeftsOf(before) && l2 <= RightsOf(before, l1)
    requires next == AppendNew(before, GetSimpleFunctionalDependencies(FD(l1, RightsOf(before, l2))))
    ensures SoundFrom(t, start, next)
  {
    StepSound(t, before, l1, l2, next);
  }

  lemma PrefixTransitive(a: seq<FD>, b: seq<FD>, c: seq<FD>)
    requires a <= b <= c
    ensures a <= c
  {
    assert c[..|a|] == b[..|a|];
  }

  /** Appending only new FDs to a list whose appended FDs were new keeps them all new. */
  lemma AppendKeepsFresh(start: seq<FD>, before: seq<FD>, next: seq<FD>)
    requires start <= before <= next
    requires forall k :: |start| <= k < |before| ==> !Redundant(before[..k], before[k])
    requires forall k :: |before| <= k < |next| ==> !Redundant(next[..k], next[k])
    ensures forall k :: |start| <= k < |next| ==> !Redundant(next[..k], next[k])
  {
    forall k | |start| <= k < |before| ensures !Redundant(next[..k], next[k]) {
      assert next[..k] == before[..k] && next[k] == before[k];
    }
  }

  /** arrayContainsInt: a linear search for val. */
  method ArrayContainsInt(arr: seq<nat>, val: nat) returns (found: bool)
    ensures found <==> val in arr
  {
    for k := 0 to |arr|
      invariant val !in arr[..k]
    {
      if arr[k] == val {
        return true;
      }
    }
    assert arr[..|arr|] == arr;
    return false;
  }

  /** getMaxEntry: Math.max over every cell, row by row, starting from -1. */
  method GetMaxEntry(t: Table) returns (max: int)
    ensures max == MaxEntry(t)
  {
    max := -1;
    for i := 0 to |t|
      invariant max == MaxEntry(t[..i])
    {
      max := MaxFrom(max, t[i]);
      MaxEntryStep(t, i);
    }
    WholePrefix(t);
  }

  /** Taking one more row into the maximum. */
  lemma MaxEntryStep(t: Table, i: nat)
    requires i < |t|
    ensures MaxEntry(t[..i + 1]) == Max(MaxEntry(t[..i]), RowMax(t[i]))
  {
    PrefixOfPrefix(t, i, i + 1);
  }

  /** The inner loop of getMaxEntry: the running maximum, which starts at -1, carried over one row. */
  method MaxFrom(start: int, row: seq<int>) returns (max: int)
    requires start >= -1
    ensures max == Max(start, RowMax(row))
  {
    max := start;
    for j := 0 to |row|
      invariant max == Max(start, RowMax(row[..j]))
    {
      PrefixOfPrefix(row, j, j + 1);
      max := Max(max, row[j]);
    }
    WholePrefix(row);
  }


  /** The entries of a two-dimensional array, row by row. */
  ghost function Cells(m: array2<real>): (cells: seq<seq<real>>)
    reads m
  {
    seq(m.Length0, i requires 0 <= i < m.Length0 reads m =>
      seq(m.Length1, j requires 0 <= j < m.Length1 reads m => m[i, j]))
  }

  /** One step of getRedundantRows: row i is listed exactly when rowIsOne says so. */
  lemma OneRowStep(t: Table, fds: seq<FD>, flags: seq<bool>, i: nat, one: bool)
    requires Rect(t) && AllFit(t, fds) && |flags| == Width(t) && i < |t|
    requires one == FastPath.RowIsOne(t, fds, flags, i)
    ensures SetIndices(OneRowFlags(t, fds, flags), i + 1)
            == SetIndices(OneRowFlags(t, fds, flags), i) + (if one then [i] else [])
  {
  }

  /** With the true isFdsRightSide flags, the flagged rows are the deleted rows. */
  lemma RedundantRowsDone(t: Table, fds: seq<FD>, flags: seq<bool>)
    requires Rect(t) && AllFit(t, fds) && IsRightSideFlags(flags, fds, Width(t))
    ensures SetIndices(OneRowFlags(t, fds, flags), |t|) == DeletedRows(t, fds)
  {
    RightSideFlagsUnique(flags, fds, Width(t));
  }

  lemma ReferencedStep(fds: seq<FD>, k: nat)
    requires k < |fds|
    ensures Referenced(fds[..k + 1]) == Referenced(fds[..k]) + GetAttributeIndices(fds[k])
  {
    assert fds[..k + 1][..k] == fds[..k];
  }

  /** Listing the columns outside rel, all of whose members are columns, gives cols - |rel| of them. */
  lemma KeptColsCount(rel: set<nat>, cols: nat)
    requires forall x :: x in rel ==> x < cols
    ensures |rel| <= cols && |Kept(cols, SortedElements(rel))| == cols - |rel|
  {
    var d := SortedElements(rel);
    assert forall k :: 0 <= k < |d| ==> d[k] in d;
    KeptCount(cols, d);
  }

  /** One step of the listing: column i is appended exactly when it is outside rel. */
  lemma KeptColsStep(rel: set<nat>, i: nat, cols: nat)
    requires forall x :: x in rel ==> x < cols
    requires i < cols
    ensures |Kept(i + 1, SortedElements(rel))| <= |Kept(cols, SortedElements(rel))|
    ensures Kept(i + 1, SortedElements(rel)) == Kept(i, SortedElements(rel)) + (if i in rel then [] else [i])
  {
    KeptPrefix(i + 1, cols, SortedElements(rel));
  }

  /** The columns below cols outside rel, ascending, gathered into an array of the exact size. */
  method ListOutside(rel: set<nat>, cols: nat) returns (cs: seq<nat>)
    requires forall x :: x in rel ==> x < cols
    ensures cs == Kept(cols, SortedElements(rel))
  {
    ghost var d := SortedElements(rel);
    KeptColsCount(rel, cols);
    var arr := new nat[cols - |rel|];
    var j := 0;
    for i := 0 to cols
      invariant j == |Kept(i, d)| <= arr.Length
      invariant arr[..j] == Kept(i, d)
    {
      KeptColsStep(rel, i, cols);
      if i !in rel {
        WriteNext(arr, j, i, Kept(i, d));
        j := j + 1;
      }
    }
    cs := arr[..];
  }

  /** Writing x at j extends the filled prefix arr[..j] by x. */
  method WriteNext(arr: array<nat>, j: nat, x: nat, ghost prefix: seq<nat>)
    requires j < arr.Length && arr[..j] == prefix
    modifies arr
    ensures arr[..j + 1] == prefix + [x]
  {
    arr[j] := x;
    assert arr[..j + 1] == arr[..j] + [x];
  }

  /**
   * getSubtableComputation's new table: for each new row, skip the deleted
   * rows of the original; along it, skip the deleted columns and copy the
   * next kept cell.
   */
  method SubtableOf(t: Table, rowsToDelete: seq<nat>, colsToDelete: seq<nat>) returns (newTable: Table)
    requires Rect(t) && StrictlyIncreasing(rowsToDelete) && StrictlyIncreasing(colsToDelete)
    requires forall k :: 0 <= k < |rowsToDelete| ==> rowsToDelete[k] < |t|
    requires forall k :: 0 <= k < |colsToDelete| ==> colsToDelete[k] < Width(t)
    ensures newTable == Subtable(t, rowsToDelete, colsToDelete)
  {
    var rows, cols := |t|, Width(t);
    ghost var s := Subtable(t, rowsToDelete, colsToDelete);
    KeptCount(rows, rowsToDelete);
    KeptCount(cols, colsToDelete);
    newTable := [];
    var iOld := 0;
    for i := 0 to rows - |rowsToDelete|
      invariant iOld <= rows && |Kept(iOld, rowsToDelete)| == i
      invariant newTable == s[..i]
    {
      var skip := ArrayContainsInt(rowsToDelete, iOld);
      while skip
        invariant iOld <= rows && |Kept(iOld, rowsToDelete)| == i
        invariant skip <==> iOld in rowsToDelete
        decreases rows - iOld
      {
        KeptNext(iOld, i, rows, rowsToDelete);
        iOld := iOld + 1;
        skip := ArrayContainsInt(rowsToDelete, iOld);
      }
      KeptNext(iOld, i, rows, rowsToDelete);
      var newRow: seq<int> := [];
      var jOld := 0;
      for j := 0 to cols - |colsToDelete|
        invariant jOld <= cols && |Kept(jOld, colsToDelete)| == j
        invariant newRow == s[i][..j]
      {
        skip := ArrayContainsInt(colsToDelete, jOld);
        while skip
          invariant jOld <= cols && |Kept(jOld, colsToDelete)| == j
          invariant skip <==> jOld in colsToDelete
          decreases cols - jOld
        {
          KeptNext(jOld, j, cols, colsToDelete);
          jOld := jOld + 1;
          skip := ArrayContainsInt(colsToDelete, jOld);
        }
        KeptNext(jOld, j, cols, colsToDelete);
        assert s[i][j] == t[iOld][jOld];
        SliceExtend(s[i], j);
        newRow := newRow + [t[iOld][jOld]];
        jOld := jOld + 1;
      }
      assert |s[i]| == |Kept(cols, colsToDelete)|;
      WholePrefix(s[i]);
      SliceExtend(s, i);
      newTable := newTable + [newRow];
      iOld := iOld + 1;
    }
  }

  /**
   * embedSubtableComputation: the rows x cols matrix holding 1 in every
   * deleted row and column and, row by row, the subtable's entries in the
   * other cells.
   */
  method EmbedSubtable(subtable: array2<real>, deletedRows: seq<nat>, deletedCols: seq<nat>, rows: nat, cols: nat)
    returns (entropies: array2<real>)
    requires StrictlyIncreasing(deletedRows) && StrictlyIncreasing(deletedCols)
    requires subtable.Length0 == |Kept(rows, deletedRows)|
    requires subtable.Length0 > 0 ==> subtable.Length1 == |Kept(cols, deletedCols)|
    ensures fresh(entropies) && KeptShape(Cells(subtable), rows, cols, deletedRows, deletedCols)
    ensures Cells(entropies) == Embedded(Cells(subtable), deletedRows, deletedCols, rows, cols)
  {
    ghost var sub := Cells(subtable);
    assert KeptShape(sub, rows, cols, deletedRows, deletedCols);
    ghost var m := Embedded(sub, deletedRows, deletedCols, rows, cols);
    entropies := new real[rows, cols];
    var subtableRow := 0;
    for i := 0 to rows
      invariant subtableRow == |Kept(i, deletedRows)|
      invariant forall r, c :: 0 <= r < i && 0 <= c < cols ==> entropies[r, c] == m[r][c]
    {
      var rowDeleted := ArrayContainsInt(deletedRows, i);
      EmbedRow(subtable, entropies, deletedRows, deletedCols, i, rowDeleted, subtableRow);
      if !rowDeleted {
        subtableRow := subtableRow + 1;
      }
    }
    assert forall r :: 0 <= r < rows ==> Cells(entropies)[r] == m[r];
  }

  /** One row of embedSubtableComputation: all 1 in a deleted row, otherwise 1 in deleted columns and the subtable's entries between. */
  method EmbedRow(subtable: array2<real>, entropies: array2<real>, deletedRows: seq<nat>, deletedCols: seq<nat>,
                  i: nat, rowDeleted: bool, subtableRow: nat)
    requires StrictlyIncreasing(deletedRows) && StrictlyIncreasing(deletedCols) && entropies != subtable
    requires KeptShape(Cells(subtable), entropies.Length0, entropies.Length1, deletedRows, deletedCols)
    requires i < entropies.Length0 && rowDeleted == (i in deletedRows) && subtableRow == |Kept(i, deletedRows)|
    modifies entropies
    ensures forall c :: 0 <= c < entropies.Length1 ==>
              entropies[i, c] == Embedded(Cells(subtable), deletedRows, deletedCols, entropies.Length0, entropies.Length1)[i][c]
    ensures forall r, c :: 0 <= r < entropies.Length0 && r != i && 0 <= c < entropies.Length1 ==>
              entropies[r, c] == old(entropies[r, c])
  {
    ghost var sub := Cells(subtable);
    var rows, cols := entropies.Length0, entropies.Length1;
    ghost var m := Embedded(sub, deletedRows, deletedCols, rows, cols);
    if rowDeleted {
      for j := 0 to cols
        invariant forall r, c :: 0 <= r < rows && r != i && 0 <= c < cols ==> entropies[r, c] == old(entropies[r, c])
        invariant forall c :: 0 <= c < j ==> entropies[i, c] == m[i][c]
      {
        EmbeddedDeletedCell(sub, deletedRows, deletedCols, rows, cols, i, j);
        entropies[i, j] := 1.0;
      }
    } else {
      var subtableCol := 0;
      for j := 0 to cols
        invariant subtableCol == |Kept(j, deletedCols)|
        invariant forall r, c :: 0 <= r < rows && r != i && 0 <= c < cols ==> entropies[r, c] == old(entropies[r, c])
        invariant forall c :: 0 <= c < j ==> entropies[i, c] == m[i][c]
      {
        var colDeleted := ArrayContainsInt(deletedCols, j);
        if colDeleted {
          EmbeddedDeletedCell(sub, deletedRows, deletedCols, rows, cols, i, j);
          entropies[i, j] := 1.0;
        } else {
          EmbeddedKeptCell(sub, deletedRows, deletedCols, rows, cols, i, j);
          entropies[i, j] := subtable[subtableRow, subtableCol];
          subtableCol := subtableCol + 1;
        }
      }
    }
  }


  /** The row-major position of cell (r, c) in a grid cols wide. */
  function GridIndex(r: nat, c: nat, cols: nat): nat {
    RowStart(r, cols) + c
  }

  /** Position p of a rows x cols grid is the cell (p / cols, p % cols), and no other cell. */
  lemma GridCellOf(rows: nat, cols: nat, p: nat)
    requires p < RowStart(rows, cols)
    ensures cols > 0 && p / cols < rows && p % cols < cols && GridIndex(p / cols, p % cols, cols) == p
    ensures forall r, c :: 0 <= r < rows && 0 <= c < cols && GridIndex(r, c, cols) == p ==> r == p / cols && c == p % cols
  {
    RowStartIsProduct(rows, cols);
    PositionBound(p, rows, cols);
    RowColOf(p, cols);
    forall r, c | 0 <= r < rows && 0 <= c < cols && GridIndex(r, c, cols) == p
      ensures r == p / cols && c == p % cols
    {
      RowStartIsProduct(r, cols);
      DivModUnique(p, r, c, cols);
    }
  }

  /**
   * The matrix after the marking pass has seen the positions of ones: 1 at
   * each position listed true, 0 everywhere else.
   */
  ghost predicate MarkedAt(m: array2<real>, ones: seq<bool>)
    reads m
  {
    forall r, c :: 0 <= r < m.Length0 && 0 <= c < m.Length1 ==>
      m[r, c] == if GridIndex(r, c, m.Length1) < |ones| && ones[GridIndex(r, c, m.Length1)] then 1.0 else 0.0
  }

  /** The marking pass sets the one cell at position p = |ones| to 1. */
  method SetOne(m: array2<real>, ghost ones: seq<bool>, p: nat)
    requires MarkedAt(m, ones) && p == |ones| && p < RowStart(m.Length0, m.Length1)
    modifies m
    ensures MarkedAt(m, ones + [true])
  {
    GridCellOf(m.Length0, m.Length1, p);
    m[p / m.Length1, p % m.Length1] := 1.0;
  }

  /** Recording isOne of the next position keeps the recorded flags exact. */
  lemma OnesStep(t: Table, fds: seq<FD>, flags: seq<bool>, ones: seq<bool>, one: bool)
    requires Rect(t) && AllFit(t, fds) && |flags| == Width(t) && |ones| < Size(t)
    requires forall p :: 0 <= p < |ones| ==> ones[p] == FastPath.IsOne(t, fds, flags, p)
    requires one == FastPath.IsOne(t, fds, flags, |ones|)
    ensures forall p :: 0 <= p < |ones| + 1 ==> (ones + [one])[p] == FastPath.IsOne(t, fds, flags, p)
  {
  }

  /** The marking pass leaves a cell that is not one at 0. */
  lemma SkipOne(m: array2<real>, ones: seq<bool>)
    requires MarkedAt(m, ones) && |ones| < RowStart(m.Length0, m.Length1)
    ensures MarkedAt(m, ones + [false])
  {
    var ones' := ones + [false];
    forall r, c | 0 <= r < m.Length0 && 0 <= c < m.Length1
      ensures m[r, c] == if GridIndex(r, c, m.Length1) < |ones'| && ones'[GridIndex(r, c, m.Length1)] then 1.0 else 0.0
    {
      var p := GridIndex(r, c, m.Length1);
      assert p < |ones| ==> ones'[p] == ones[p];
    }
  }

  /**
   * The matrix during the computing pass: positions below n hold their
   * value from vals, later ones still hold 1 where marked and 0 elsewhere.
   */
  ghost predicate FilledAt(m: array2<real>, ones: seq<bool>, vals: seq<real>, n: nat)
    reads m
    requires n <= |vals| == |ones|
  {
    forall r, c :: 0 <= r < m.Length0 && 0 <= c < m.Length1 && GridIndex(r, c, m.Length1) < |vals| ==>
      m[r, c] == if GridIndex(r, c, m.Length1) < n then vals[GridIndex(r, c, m.Length1)]
                 else if ones[GridIndex(r, c, m.Length1)] then 1.0 else 0.0
  }

  /**
   * The computing pass of the direct computation: each cell that does not
   * hold 1 gets the exact information content of its position; a marked cell
   * keeps its 1.
   */
  method FillUnmarked(m: array2<real>, t: Table, fds: seq<FD>, ghost ones: seq<bool>, ghost vals: seq<real>)
    requires Rect(t) && AllFit(t, fds) && m.Length0 == |t| && m.Length1 == Width(t)
    requires |ones| == |vals| == Size(t) == RowStart(|t|, Width(t)) && MarkedAt(m, ones)
    requires forall p :: 0 <= p < |vals| ==> vals[p] == if ones[p] then 1.0 else InformationContent(t, fds, p)
    modifies m
    ensures Cells(m) == Reshape(vals, |t|, Width(t))
  {
    RowStartIsProduct(|t|, Width(t));
    var cols := Width(t);
    for i := 0 to |t| * cols
      invariant FilledAt(m, ones, vals, i)
    {
      FillCell(m, t, fds, ones, vals, i);
    }
    FilledAll(m, ones, vals);
  }

  /** Once every position is filled, the matrix is the values laid out row by row. */
  lemma FilledAll(m: array2<real>, ones: seq<bool>, vals: seq<real>)
    requires |ones| == |vals| == RowStart(m.Length0, m.Length1) && FilledAt(m, ones, vals, |vals|)
    ensures Cells(m) == Reshape(vals, m.Length0, m.Length1)
  {
    var cells, shaped := Cells(m), Reshape(vals, m.Length0, m.Length1);
    forall r | 0 <= r < m.Length0 ensures cells[r] == shaped[r] {
      forall c | 0 <= c < m.Length1 ensures cells[r][c] == shaped[r][c] {
        FilledCell(m, ones, vals, r, c);
      }
    }
  }


  /** Cell (r, c) of a filled matrix holds the value of its row-major position. */
  lemma FilledCell(m: array2<real>, ones: seq<bool>, vals: seq<real>, r: nat, c: nat)
    requires |ones| == |vals| == RowStart(m.Length0, m.Length1) && FilledAt(m, ones, vals, |vals|)
    requires r < m.Length0 && c < m.Length1
    ensures RowStart(r, m.Length1) + c < |vals| && m[r, c] == vals[RowStart(r, m.Length1) + c]
  {
    GridPosition(m.Length0, m.Length1, r, c);
  }




  /** One turn of the computing pass: position i keeps its 1 or gets its information content. */
  method FillCell(m: array2<real>, t: Table, fds: seq<FD>, ghost ones: seq<bool>, ghost vals: seq<real>, i: nat)
    requires Rect(t) && AllFit(t, fds) && m.Length0 == |t| && m.Length1 == Width(t)
    requires |ones| == |vals| == Size(t) == RowStart(|t|, Width(t)) && i < |vals|
    requires forall p :: 0 <= p < |vals| ==> vals[p] == if ones[p] then 1.0 else InformationContent(t, fds, p)
    requires FilledAt(m, ones, vals, i)
    modifies m
    ensures FilledAt(m, ones, vals, i + 1)
  {
    var cols := Width(t);
    GridCellOf(|t|, cols, i);
    if m[i / cols, i % cols] == 1.0 {
      return;
    }
    m[i / cols, i % cols] := InformationContent(t, fds, i);
  }

  /** The rows and columns the subtable computation deletes lie inside the table, and no FD mentions a deleted column. */
  lemma DeletionBounds(t: Table, fds: seq<FD>)
    requires Rect(t) && AllFit(t, fds)
    ensures forall k :: 0 <= k < |DeletedRows(t, fds)| ==> DeletedRows(t, fds)[k] < |t|
    ensures forall k :: 0 <= k < |UnreferencedCols(fds, Width(t))| ==> UnreferencedCols(fds, Width(t))[k] < Width(t)
    ensures DeletesOnlyUnreferenced(t, fds, UnreferencedCols(fds, Width(t)))
  {
    var dr, dc := DeletedRows(t, fds), UnreferencedCols(fds, Width(t));
    assert forall k :: 0 <= k < |dr| ==> dr[k] in dr;
    assert forall k :: 0 <= k < |dc| ==> dc[k] in dc;
    UnreferencedColsSafe(t, fds);
  }

  /** A matrix holding the subtable's direct matrix has one row per kept row and one column per kept column. */
  lemma SubtableMatrixShape(sub: array2<real>, t: Table, fds: seq<FD>, identifyOnes: bool, dr: seq<nat>, dc: seq<nat>)
    requires Rect(t) && AllFit(t, fds) && DeletesOnlyUnreferenced(t, fds, dc)
    requires AllFit(Subtable(t, dr, dc), ConvertAll(fds, dc))
    requires Cells(sub) == DirectMatrix(Subtable(t, dr, dc), ConvertAll(fds, dc), identifyOnes)
    ensures sub.Length0 == |Kept(|t|, dr)| && (sub.Length0 > 0 ==> sub.Length1 == |Kept(Width(t), dc)|)
  {
    SubtableDirectShape(t, fds, identifyOnes, dr, dc);
    if sub.Length0 > 0 {
      assert |Cells(sub)[0]| == sub.Length1;
    }
  }

  class Computation {
    const table: Table
    const rows: nat
    const cols: nat
    const size: nat
    const identifyOnes: bool
    const considerSubtables: bool
    var funcDeps: seq<FD>

    /** The shape fields describe the table, and every FD is simple and names only its columns. */
    ghost predicate Valid()
      reads this
    {
      Rect(table) && rows == |table| && cols == Width(table) && size == Size(table)
      && AllFit(table, funcDeps)
    }

    constructor (table: Table, identifyOnes: bool, considerSubtables: bool)
      requires Rect(table)
      ensures Valid() && this.table == table && funcDeps == []
      ensures this.identifyOnes == identifyOnes && this.considerSubtables == considerSubtables
      ensures rows == |table| && cols == Width(table) && size == rows * cols
    {
      this.table := table;
      rows := |table|;
      cols := if |table| == 0 then 0 else |table[0]|;
      size := |table| * Width(table);
      this.identifyOnes := identifyOnes;
      this.considerSubtables := considerSubtables;
      funcDeps := [];
      new;
      SizeRect(table);
    }

    /** addFuncDep: append fd to the list. */
    method AddFuncDep(fd: FD)
      requires Valid() && Fits(table, fd)
      modifies this
      ensures Valid() && funcDeps == old(funcDeps) + [fd]
    {
      funcDeps := funcDeps + [fd];
    }

    /**
     * addFuncDepWithCheck: formatting the error text first crashes on an FD
     * with an empty left side; then reject an FD naming a column outside the
     * table, then one that is violated on the table; append any other.
     */
    method AddFuncDepWithCheck(fd: FD) returns (outcome: CheckOutcome)
      requires Valid() && IsSimple(fd)
      modifies this
      ensures Valid()
      ensures outcome == EmptyLeftSide <==> fd.left == {}
      ensures outcome == AttributeOutOfBounds <==> fd.left != {} && !InRange(fd, cols)
      ensures outcome == NotFulfilled <==> fd.left != {} && InRange(fd, cols) && Fits(table, fd) && Violated(table, fd)
      ensures outcome == Added ==> funcDeps == old(funcDeps) + [fd]
      ensures outcome != Added ==> funcDeps == old(funcDeps)
      ensures old(Holds(table, funcDeps)) ==> Holds(table, funcDeps)
      ensures old(NonEmptyLefts(funcDeps)) ==> NonEmptyLefts(funcDeps)
    {
      if fd.left == {} {
        return EmptyLeftSide;
      }
      if SimpleRightSide(fd) >= cols {
        return AttributeOutOfBounds;
      }
      var rest := fd.left;
      while rest != {}
        invariant rest <= fd.left
        invariant forall a :: a in fd.left - rest ==> a < cols
        decreases |rest|
      {
        var a :| a in rest;
        if a >= cols {
          return AttributeOutOfBounds;
        }
        assert fd.left - (rest - {a}) == (fd.left - rest) + {a};
        rest := rest - {a};
      }
      assert fd.left - rest == fd.left;
      assert fd.right == {SimpleRightSide(fd)};
      var violated := FuncDepIsViolated(table, fd);
      if violated {
        return NotFulfilled;
      }
      AddFuncDep(fd);
      return Added;
    }

    /** coversOtherFuncDep: whether fd covers some FD of the list. */
    method CoversOtherFuncDep(fd: FD) returns (covers: bool)
      ensures covers == CoversSome(funcDeps, fd)
    {
      for k := 0 to |funcDeps|
        invariant forall m :: 0 <= m < k ==> !Covers(fd, funcDeps[m])
      {
        if Covers(fd, funcDeps[k]) {
          return true;
        }
      }
      return false;
    }

    /**
     * addSimpleFuncDeps: append each candidate, in order, unless it is
     * trivial or covers an FD already in the list; report whether the list
     * grew.
     */
    method AddSimpleFuncDeps(simpleFds: seq<FD>) returns (added: bool)
      requires Valid() && forall k :: 0 <= k < |simpleFds| ==> Fits(table, simpleFds[k])
      modifies this
      ensures Valid() && funcDeps == AppendNew(old(funcDeps), simpleFds)
      ensures added <==> funcDeps != old(funcDeps)
    {
      added := false;
      for k := 0 to |simpleFds|
        invariant Valid() && funcDeps == AppendNew(old(funcDeps), simpleFds[..k])
        invariant added <==> |funcDeps| > |old(funcDeps)|
      {
        var fd := simpleFds[k];
        var covers := CoversOtherFuncDep(fd);
        assert simpleFds[..k + 1][..k] == simpleFds[..k];
        if !(IsTrivial(fd) || covers) {
          AddFuncDep(fd);
          added := true;
        }
      }
      assert simpleFds[..|simpleFds|] == simpleFds;
    }

    /**
     * deriveFd: for fd2 and then fd1 ranging over the combined FDs, derive
     * fd1.left -> fd2.right whenever fd2's left side lies in fd1's right
     * side, and stop at the first one whose simple FDs add something.
     * l1 and l2 name the left sides of that fd1 and fd2.
     */
    method DeriveFd(combined: seq<FD>) returns (derived: bool, ghost l1: set<nat>, ghost l2: set<nat>)
      requires Valid() && IsCombined(funcDeps, combined)
      modifies this
      ensures Valid()
      ensures !derived ==> funcDeps == old(funcDeps) && Saturated(old(funcDeps), combined)
      ensures derived ==> !Saturated(old(funcDeps), combined)
      ensures derived ==> l1 in LeftsOf(old(funcDeps)) && l2 <= RightsOf(old(funcDeps), l1)
      ensures derived ==> funcDeps == AppendNew(old(funcDeps), GetSimpleFunctionalDependencies(FD(l1, RightsOf(old(funcDeps), l2))))
      ensures derived ==> |funcDeps| > |old(funcDeps)|
    {
      ghost var fds := funcDeps;
      for jj := 0 to |combined|
        invariant funcDeps == fds && PairsDone(fds, combined, jj, 0)
      {
        for ii := 0 to |combined|
          invariant funcDeps == fds && PairsDone(fds, combined, jj, ii)
        {
          var added := TryPair(combined, ii, jj);
          if added {
            return true, combined[ii].left, combined[jj].left;
          }
        }
        ColumnDone(fds, combined, jj);
      }
      return false, {}, {};
    }

    /**
     * One turn of deriveFd's inner loop, for fd1 = combined[ii] and
     * fd2 = combined[jj]: either the pair yields nothing new and the list is
     * unchanged, or the simple FDs of fd1.left -> fd2.right were appended.
     */
    method TryPair(combined: seq<FD>, ii: nat, jj: nat) returns (added: bool)
      requires Valid() && IsCombined(funcDeps, combined) && ii < |combined| && jj < |combined|
      requires PairsDone(funcDeps, combined, jj, ii)
      modifies this
      ensures Valid()
      ensures !added ==> funcDeps == old(funcDeps) && PairsDone(funcDeps, combined, jj, ii + 1)
      ensures added ==> !Saturated(old(funcDeps), combined)
      ensures added ==> combined[ii].left in LeftsOf(old(funcDeps))
                        && combined[jj].left <= RightsOf(old(funcDeps), combined[ii].left)
      ensures added ==> funcDeps == AppendNew(old(funcDeps),
                          GetSimpleFunctionalDependencies(FD(combined[ii].left, RightsOf(old(funcDeps), combined[jj].left))))
      ensures added ==> |funcDeps| > |old(funcDeps)|
    {
      ghost var fds := funcDeps;
      var fd1, fd2 := combined[ii], combined[jj];
      if fd2.left <= fd1.right {
        var derivedFd := FD(fd1.left, fd2.right);
        if !IsTrivial(derivedFd) {
          var simple := GetSimpleFunctionalDependencies(derivedFd);
          DerivedFits(table, fds, fd1.left, fd2.left);
          AppendNewUnchanged(fds, simple);
          added := AddSimpleFuncDeps(simple);
          if added {
            DerivedStep(fds, combined, ii, jj, funcDeps);
            return;
          }
        } else {
          TrivialNothingNew(fds, derivedFd);
        }
      }
      added := false;
      PairDone(fds, combined, jj, ii);
    }

    /**
     * addTransitiveClosure: combine the FDs and derive from them until a
     * round derives nothing. The result is closed under transitivity, keeps
     * every FD it started with, appends only FDs that were new when they
     * were appended, and uses no left side or right attribute that was not
     * already there.
     */
    method AddTransitiveClosure()
      requires Valid() && KeyableLefts(funcDeps)
      modifies this
      ensures Valid() && KeyableLefts(funcDeps) && Closed(funcDeps)
      ensures old(funcDeps) <= funcDeps
      ensures LeftsOf(funcDeps) == LeftsOf(old(funcDeps)) && RightsAll(funcDeps) == RightsAll(old(funcDeps))
      ensures forall k :: |old(funcDeps)| <= k < |funcDeps| ==> !Redundant(funcDeps[..k], funcDeps[k])
      ensures Holds(table, old(funcDeps)) && NoPartialRows(table) ==> Holds(table, funcDeps)
      ensures Closed(old(funcDeps)) ==> funcDeps == old(funcDeps)
    {
      ghost var start := funcDeps;
      var terminate := false;
      while !terminate
        invariant Valid() && AllFit(table, start) && ClosureShape(start, funcDeps)
        invariant SoundFrom(table, start, funcDeps)
        invariant Closed(start) ==> funcDeps == start
        invariant terminate ==> Closed(funcDeps)
        decreases |Pool(LeftsOf(start), RightsAll(start)) - FdSet(funcDeps)|, if terminate then 0 else 1
      {
        var combinedFds := GetCombinedFds();
        ghost var before := funcDeps;
        SaturatedIffClosed(before, combinedFds);
        var derived;
        ghost var l1, l2;
        derived, l1, l2 := DeriveFd(combinedFds);
        if !derived {
          terminate := true;
        } else {
          ClosureStep(start, before, l1, l2, funcDeps);
          SoundStep(table, start, before, l1, l2, funcDeps);
        }
      }
    }

    /**
     * getCombinedFds: group the FDs by the text of their left side, then
     * turn every group back into one FD from the parsed left side to the
     * set of the group's right attributes.
     */
    method GetCombinedFds() returns (combined: seq<FD>)
      requires Valid() && KeyableLefts(funcDeps)
      ensures IsCombined(funcDeps, combined)
    {
      var fdMap := GroupByLeftSide(funcDeps);
      LeftKeysSeparate(funcDeps);
      LeftKeysParse(funcDeps);
      combined := CombineGroups(funcDeps, LeftKeys(funcDeps), fdMap);
    }

    /**
     * The isFdsRightSide array getInformationContentMatrix builds (for a
     * table with rows): flag c is set when some FD has c as its right
     * attribute.
     */
    method RightSideFlags() returns (flags: seq<bool>)
      requires Valid() && rows > 0
      ensures IsRightSideFlags(flags, funcDeps, cols)
    {
      var isFdsRightSide := new bool[cols](_ => false);
      for k := 0 to |funcDeps|
        invariant forall c :: 0 <= c < cols ==> (isFdsRightSide[c] <==> exists m :: 0 <= m < k && RightAttr(funcDeps[m]) == c)
      {
        assert Fits(table, funcDeps[k]);
        isFdsRightSide[RightAttr(funcDeps[k])] := true;
      }
      flags := isFdsRightSide[..];
    }

    /**
     * isOne: the cell at position (row position / cols, column position %
     * cols) is one when its column is no FD's right side, or when for every
     * FD with that right side no other row repeats the cell's left tuple.
     */
    method IsOne(position: nat, flags: seq<bool>) returns (one: bool)
      requires Valid() && position < size && |flags| == cols
      ensures one == FastPath.IsOne(table, funcDeps, flags, position)
    {
      PositionInTable(table, position);
      RowColOf(position, cols);
      var row := position / cols;
      var col := position % cols;
      if !flags[col] {
        return true;
      }
      for k := 0 to |funcDeps|
        invariant forall m :: 0 <= m < k && RightAttr(funcDeps[m]) == col ==> UniqueLeftTuple(table, funcDeps[m], row)
      {
        if RightAttr(funcDeps[k]) == col {
          var unique := LeftTupleUnique(funcDeps[k], row);
          if !unique {
            return false;
          }
        }
      }
      return true;
    }

    /** The inner loop of isOne: no other row has the left-side values of row under fd. */
    method LeftTupleUnique(funcDep: FD, row: nat) returns (unique: bool)
      requires Valid() && funcDep in funcDeps && row < rows
      ensures unique == UniqueLeftTuple(table, funcDep, row)
    {
      assert Fits(table, funcDep);
      var leftSideValues := LeftValues(table, row, funcDep);
      for i := 0 to rows
        invariant forall i' :: 0 <= i' < i && i' != row ==> leftSideValues != LeftValues(table, i', funcDep)
      {
        if i == row {
          continue;
        }
        if leftSideValues == LeftValues(table, i, funcDep) {
          return false;
        }
      }
      return true;
    }

    /** rowIsOne: every position row * cols .. row * cols + cols - 1 is one. */
    method RowIsOne(row: nat, flags: seq<bool>) returns (one: bool)
      requires Valid() && row < rows && |flags| == cols
      ensures one == FastPath.RowIsOne(table, funcDeps, flags, row)
    {
      var firstPos := row * cols;
      RowStartIsProduct(row, cols);
      for i := firstPos to firstPos + cols
        invariant forall j :: 0 <= j < i - firstPos ==> IsOneAt(table, funcDeps, flags, row, j)
      {
        IsOneOfCell(table, funcDeps, flags, row, i - firstPos);
        var b := IsOne(i, flags);
        if !b {
          return false;
        }
      }
      return true;
    }

    /** getRedundantRows: the rows all of whose cells are one, ascending. */
    method GetRedundantRows(flags: seq<bool>) returns (redundantRows: seq<nat>)
      requires Valid() && IsRightSideFlags(flags, funcDeps, cols)
      ensures redundantRows == DeletedRows(table, funcDeps)
    {
      ghost var marks := OneRowFlags(table, funcDeps, flags);
      var redundantRowsList: seq<nat> := [];
      for i := 0 to rows
        invariant redundantRowsList == SetIndices(marks, i)
      {
        var one := RowIsOne(i, flags);
        OneRowStep(table, funcDeps, flags, i, one);
        if one {
          redundantRowsList := redundantRowsList + [i];
        }
      }
      RedundantRowsDone(table, funcDeps, flags);
      redundantRows := redundantRowsList;
    }

    /**
     * getRedundantCols (for a table with rows): collect the attributes the
     * FDs mention, then list the other columns in ascending order.
     */
    method GetRedundantCols() returns (redundantCols: seq<nat>)
      requires Valid() && rows > 0
      ensures redundantCols == UnreferencedCols(funcDeps, cols)
    {
      var relevantCols: set<nat> := {};
      for k := 0 to |funcDeps|
        invariant relevantCols == Referenced(funcDeps[..k])
      {
        ReferencedStep(funcDeps, k);
        relevantCols := relevantCols + GetAttributeIndices(funcDeps[k]);
      }
      assert funcDeps[..|funcDeps|] == funcDeps;
      ReferencedInTable();
      redundantCols := ListOutside(relevantCols, cols);
    }

    /**
     * getSubtableComputation: a fresh computation over the table without the
     * given rows and columns, with identifyOnes kept, subtables switched off
     * and every FD renumbered onto the kept columns.
     */
    method GetSubtableComputation(rowsToDelete: seq<nat>, colsToDelete: seq<nat>) returns (computation: Computation)
      requires Valid() && StrictlyIncreasing(rowsToDelete) && DeletesOnlyUnreferenced(table, funcDeps, colsToDelete)
      requires forall k :: 0 <= k < |rowsToDelete| ==> rowsToDelete[k] < rows
      requires forall k :: 0 <= k < |colsToDelete| ==> colsToDelete[k] < cols
      ensures fresh(computation) && computation.Valid()
      ensures computation.table == Subtable(table, rowsToDelete, colsToDelete)
      ensures computation.funcDeps == ConvertAll(funcDeps, colsToDelete)
      ensures computation.identifyOnes == identifyOnes && !computation.considerSubtables
    {
      var newTable := SubtableOf(table, rowsToDelete, colsToDelete);
      computation := new Computation(newTable, identifyOnes, false);
      ConvertAllFits(table, funcDeps, rowsToDelete, colsToDelete);
      ghost var converted := ConvertAll(funcDeps, colsToDelete);
      for k := 0 to |funcDeps|
        invariant computation.Valid() && computation.table == newTable
        invariant computation.funcDeps == converted[..k]
      {
        assert converted[..k + 1] == converted[..k] + [converted[k]];
        computation.AddFuncDep(ConvertToSubtable(funcDeps[k], colsToDelete));
      }
      assert converted[..|funcDeps|] == converted;
    }

    /**
     * getInformationContentMatrix: an empty matrix for a table without rows;
     * with considerSubtables, the matrix of the subtable without the rows of
     * ones and the unreferenced columns, embedded back with 1 in every deleted
     * cell; otherwise the direct computation.
     */
    method GetInformationContentMatrix() returns (matrix: array2<real>)
      requires Valid()
      ensures fresh(matrix)
      ensures Cells(matrix) == if considerSubtables then SubtableMatrix(table, funcDeps, identifyOnes)
                               else DirectMatrix(table, funcDeps, identifyOnes)
      decreases if considerSubtables then 1 else 0
    {
      if rows == 0 {
        matrix := new real[0, 0];
        return;
      }
      if considerSubtables {
        matrix := ComputeWithSubtables();
      } else {
        matrix := ComputeDirectly();
      }
    }

    /**
     * getInformationContentMatrix with subtables: delete the rows of ones
     * and the unreferenced columns, compute the subtable directly, embed.
     */
    method ComputeWithSubtables() returns (matrix: array2<real>)
      requires Valid() && rows > 0 && considerSubtables
      ensures fresh(matrix)
      ensures Cells(matrix) == SubtableMatrix(table, funcDeps, identifyOnes)
      decreases 1, 0
    {
      var flags := RightSideFlags();
      var redundantRows := GetRedundantRows(flags);
      var redundantCols := GetRedundantCols();
      DeletionBounds(table, funcDeps);
      var subtableComputation := GetSubtableComputation(redundantRows, redundantCols);
      var sub := subtableComputation.GetInformationContentMatrix();
      SubtableMatrixShape(sub, table, funcDeps, identifyOnes, redundantRows, redundantCols);
      matrix := EmbedSubtable(sub, redundantRows, redundantCols, rows, cols);
    }

    /**
     * getInformationContentMatrix without subtables: with identifyOnes, the
     * one cells are set to 1 first; then every cell that does not hold 1 gets
     * its exact information content.
     */
    method ComputeDirectly() returns (matrix: array2<real>)
      requires Valid() && rows > 0
      ensures fresh(matrix)
      ensures Cells(matrix) == DirectMatrix(table, funcDeps, identifyOnes)
    {
      SizeRect(table);
      RowStartIsProduct(rows, cols);
      matrix := new real[rows, cols]((_, _) => 0.0);
      if identifyOnes {
        MarkOnes(matrix);
      } else {
        NoMarks(table, funcDeps);
      }
      DirectValuesSplit(table, funcDeps, identifyOnes);
      FillUnmarked(matrix, table, funcDeps, OneMarks(table, funcDeps, identifyOnes), DirectValues(table, funcDeps, identifyOnes));
    }

    /** The identifyOnes pass: every one cell of a zeroed matrix is set to 1. */
    method MarkOnes(matrix: array2<real>)
      requires Valid() && rows > 0 && matrix.Length0 == rows && matrix.Length1 == cols
      requires forall r, c :: 0 <= r < rows && 0 <= c < cols ==> matrix[r, c] == 0.0
      modifies matrix
      ensures MarkedAt(matrix, OneMarks(table, funcDeps, true))
    {
      SizeRect(table);
      RowStartIsProduct(rows, cols);
      var flags := RightSideFlags();
      ghost var ones: seq<bool> := [];
      for i := 0 to size
        invariant |ones| == i && MarkedAt(matrix, ones)
        invariant forall p :: 0 <= p < i ==> ones[p] == FastPath.IsOne(table, funcDeps, flags, p)
      {
        var one := IsOne(i, flags);
        if one {
          SetOne(matrix, ones, i);
        } else {
          SkipOne(matrix, ones);
        }
        OnesStep(table, funcDeps, flags, ones, one);
        ones := ones + [one];
      }
      OnesAreMarks(table, funcDeps, flags, ones);
    }

    /** With rows, every attribute an FD mentions is a column. */
    lemma ReferencedInTable()
      requires Valid() && rows > 0
      ensures forall x :: x in Referenced(funcDeps) ==> x < cols
    {
      forall x | x in Referenced(funcDeps) ensures x < cols {
        var k :| 0 <= k < |funcDeps| && x in GetAttributeIndices(funcDeps[k]);
        assert Fits(table, funcDeps[k]);
      }
    }
  }
}
