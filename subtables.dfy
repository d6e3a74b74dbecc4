/**
 * Subtable reduction as a specification. Rows all of whose cells are one
 * and columns that no FD mentions are deleted; the remaining cells form a
 * smaller table, the FDs are renumbered onto it, and the deleted cells get
 * information content 1 without any computation.
 */
module Subtables {
  import opened SortedSets
  import opened FunctionalDependencies
  import opened Tables
  import opened Information
  import opened FastPath

  /** The indices below n whose flag is set, ascending (getRedundantRows over the rowIsOne flags). */
  function SetIndices(marks: seq<bool>, n: nat): seq<nat>
    requires n <= |marks|
  {
    if n == 0 then [] else SetIndices(marks, n - 1) + (if marks[n - 1] then [n - 1] else [])
  }

  /** The selected indices are ascending and are exactly the flagged ones below n. */
  lemma {:induction false} SetIndicesMembers(marks: seq<bool>, n: nat)
    requires n <= |marks|
    ensures StrictlyIncreasing(SetIndices(marks, n))
    ensures forall x: nat :: x in SetIndices(marks, n) <==> x < n && marks[x]
  {
    if n > 0 {
      SetIndicesMembers(marks, n - 1);
      var prev := SetIndices(marks, n - 1);
      assert forall i :: 0 <= i < |prev| ==> prev[i] in prev;
    }
  }

  /** Row r is flagged when every cell of it is one. */
  ghost function OneRowFlags(t: Table, fds: seq<FD>, flags: seq<bool>): (marks: seq<bool>)
    requires Rect(t) && AllFit(t, fds) && |flags| == Width(t)
    ensures |marks| == |t| && forall r :: 0 <= r < |t| ==> (marks[r] <==> RowIsOne(t, fds, flags, r))
  {
    seq(|t|, r requires 0 <= r < |t| => RowIsOne(t, fds, flags, r))
  }

  /** The attributes some FD of the list mentions (relevantCols). */
  function Referenced(fds: seq<FD>): (r: set<nat>)
    ensures forall x :: x in r <==> exists k :: 0 <= k < |fds| && x in GetAttributeIndices(fds[k])
  {
    if |fds| == 0 then {}
    else
      var init := fds[..|fds| - 1];
      assert forall k :: 0 <= k < |init| ==> init[k] == fds[k];
      Referenced(init) + GetAttributeIndices(fds[|fds| - 1])
  }

  /** getRedundantCols: the columns below cols that no FD mentions, ascending. */
  function UnreferencedCols(fds: seq<FD>, cols: nat): (cs: seq<nat>)
    ensures StrictlyIncreasing(cs)
    ensures forall x: nat :: x in cs <==> x < cols && x !in Referenced(fds)
  {
    KeptMembers(cols, SortedElements(Referenced(fds)));
    Kept(cols, SortedElements(Referenced(fds)))
  }

  /** With every mentioned attribute a column, cols - |relevantCols| columns are unreferenced. */
  lemma UnreferencedColsCount(fds: seq<FD>, cols: nat)
    requires forall x :: x in Referenced(fds) ==> x < cols
    ensures |UnreferencedCols(fds, cols)| == cols - |Referenced(fds)|
  {
    var d := SortedElements(Referenced(fds));
    assert forall i :: 0 <= i < |d| ==> d[i] in d;
    KeptCount(cols, d);
  }

  /** The cells of the kept rows and kept columns, in their original order. */
  function Subtable(t: Table, dr: seq<nat>, dc: seq<nat>): (s: Table)
    requires Rect(t)
    ensures |s| == |Kept(|t|, dr)|
    ensures forall i :: 0 <= i < |s| ==> |s[i]| == |Kept(Width(t), dc)|
    ensures forall i, j :: 0 <= i < |s| && 0 <= j < |s[i]| ==>
              Kept(|t|, dr)[i] < |t| && Kept(Width(t), dc)[j] < Width(t)
              && s[i][j] == t[Kept(|t|, dr)[i]][Kept(Width(t), dc)[j]]
  {
    var kr, kc := Kept(|t|, dr), Kept(Width(t), dc);
    KeptMembers(|t|, dr);
    KeptMembers(Width(t), dc);
    assert forall i :: 0 <= i < |kr| ==> kr[i] in kr;
    assert forall j :: 0 <= j < |kc| ==> kc[j] in kc;
    seq(|kr|, i requires 0 <= i < |kr| => seq(|kc|, j requires 0 <= j < |kc| => t[kr[i]][kc[j]]))
  }

  /** Every FD renumbered onto the subtable (convertToSubtable for each). */
  function ConvertAll(fds: seq<FD>, dc: seq<nat>): (r: seq<FD>)
    requires StrictlyIncreasing(dc)
    ensures |r| == |fds| && forall k :: 0 <= k < |fds| ==> r[k] == ConvertToSubtable(fds[k], dc)
  {
    seq(|fds|, k requires 0 <= k < |fds| => ConvertToSubtable(fds[k], dc))
  }

  /** The deleted columns avoid every attribute the FDs mention, and lie inside the table. */
  predicate DeletesOnlyUnreferenced(t: Table, fds: seq<FD>, dc: seq<nat>) {
    StrictlyIncreasing(dc) && forall k :: 0 <= k < |fds| ==> forall a :: a in GetAttributeIndices(fds[k]) ==> a !in dc
  }

  /** A renumbered FD keeps one right attribute and names only columns of the subtable. */
  lemma ConvertedFits(t: Table, fd: FD, dr: seq<nat>, dc: seq<nat>)
    requires Fits(t, fd) && StrictlyIncreasing(dc)
    requires forall a :: a in GetAttributeIndices(fd) ==> a !in dc
    ensures Fits(Subtable(t, dr, dc), ConvertToSubtable(fd, dc))
  {
    var s := Subtable(t, dr, dc);
    var fd' := ConvertToSubtable(fd, dc);
    if |t| == 0 {
      ConvertToSubtableSimple(fd, dc);
    } else {
      ConvertToSubtableKept(fd, dc, Width(t));
      assert IsSimple(fd');
      if |s| > 0 {
        assert Width(s) == |Kept(Width(t), dc)|;
        assert InRange(fd', Width(s));
      }
    }
  }

  lemma ConvertToSubtableSimple(fd: FD, dc: seq<nat>)
    requires IsSimple(fd) && StrictlyIncreasing(dc)
    ensures IsSimple(ConvertToSubtable(fd, dc))
  {
    var b := SimpleRightSide(fd);
    var r := ConvertToSubtable(fd, dc);
    assert r.right == {Shift(b, dc)};
  }

  /** The renumbered FDs all fit the subtable, so getSubtableComputation builds a valid computation. */
  lemma ConvertAllFits(t: Table, fds: seq<FD>, dr: seq<nat>, dc: seq<nat>)
    requires Rect(t) && AllFit(t, fds) && DeletesOnlyUnreferenced(t, fds, dc)
    ensures AllFit(Subtable(t, dr, dc), ConvertAll(fds, dc))
  {
    forall k | 0 <= k < |fds| ensures Fits(Subtable(t, dr, dc), ConvertAll(fds, dc)[k]) {
      ConvertedFits(t, fds[k], dr, dc);
    }
  }

  /** The subtable row i is original row Kept(|t|, dr)[i]; row order is kept. */
  lemma KeptRowsOrder(t: Table, dr: seq<nat>, r1: nat, r2: nat)
    requires r1 < r2 < |Kept(|t|, dr)|
    ensures Kept(|t|, dr)[r1] < Kept(|t|, dr)[r2] < |t|
  {
    KeptMembers(|t|, dr);
    assert Kept(|t|, dr)[r2] in Kept(|t|, dr);
  }

  /**
   * An FD that holds on the table holds, renumbered, on the subtable: a
   * conflict between two subtable rows is a conflict between the original
   * rows they come from.
   */
  lemma ConvertedHolds(t: Table, fd: FD, dr: seq<nat>, dc: seq<nat>)
    requires Fits(t, fd) && StrictlyIncreasing(dc) && !Violated(t, fd)
    requires forall a :: a in GetAttributeIndices(fd) ==> a < Width(t) && a !in dc
    ensures Fits(Subtable(t, dr, dc), ConvertToSubtable(fd, dc))
    ensures !Violated(Subtable(t, dr, dc), ConvertToSubtable(fd, dc))
  {
    var s := Subtable(t, dr, dc);
    var fd' := ConvertToSubtable(fd, dc);
    ConvertedFits(t, fd, dr, dc);
    if Violated(s, fd') {
      var r1, r2 :| 0 <= r1 < r2 < |s| && Conflict(s, fd', r1, r2);
      var kr, kc := Kept(|t|, dr), Kept(Width(t), dc);
      KeptRowsOrder(t, dr, r1, r2);
      ConvertToSubtableKept(fd, dc, Width(t));
      var b := RightAttr(fd);
      assert RightAttr(fd') == Shift(b, dc);
      forall a | a in fd.left
        ensures t[kr[r1]][a] == s[r1][Shift(a, dc)] && t[kr[r2]][a] == s[r2][Shift(a, dc)]
      {
      }
      assert t[kr[r1]][b] == s[r1][Shift(b, dc)] && t[kr[r2]][b] == s[r2][Shift(b, dc)];
      assert Conflict(t, fd, kr[r1], kr[r2]);
      assert false;
    }
  }

  /** Every FD that holds on the table holds, renumbered, on the subtable. */
  lemma SubtableHolds(t: Table, fds: seq<FD>, dr: seq<nat>, dc: seq<nat>)
    requires Rect(t) && AllFit(t, fds) && Holds(t, fds) && |t| > 0 && DeletesOnlyUnreferenced(t, fds, dc)
    ensures AllFit(Subtable(t, dr, dc), ConvertAll(fds, dc))
    ensures Holds(Subtable(t, dr, dc), ConvertAll(fds, dc))
  {
    forall k | 0 <= k < |fds|
      ensures Fits(Subtable(t, dr, dc), ConvertAll(fds, dc)[k]) && !Violated(Subtable(t, dr, dc), ConvertAll(fds, dc)[k])
    {
      assert Fits(t, fds[k]);
      ConvertedHolds(t, fds[k], dr, dc);
    }
  }

  /**
   * The value the direct computation (no subtables) stores for position p:
   * 1 for a one cell when identifyOnes is set, otherwise the exact
   * information content.
   */
  ghost function DirectCell(t: Table, fds: seq<FD>, identifyOnes: bool, p: nat): real
    requires Rect(t) && AllFit(t, fds) && p < Size(t)
  {
    if identifyOnes && IsOne(t, fds, RightSideFlagsOf(fds, Width(t)), p) then 1.0
    else InformationContent(t, fds, p)
  }

  /** When every FD holds, the direct computation stores the exact information content everywhere. */
  lemma DirectCellExact(t: Table, fds: seq<FD>, identifyOnes: bool, p: nat)
    requires Rect(t) && AllFit(t, fds) && Holds(t, fds) && p < Size(t)
    ensures DirectCell(t, fds, identifyOnes, p) == InformationContent(t, fds, p)
  {
    var flags := RightSideFlagsOf(fds, Width(t));
    if identifyOnes && IsOne(t, fds, flags, p) {
      IsOneFullInformation(t, fds, flags, p);
    }
  }

  /** The rows getRedundantRows deletes, for the table and its FDs. */
  ghost function DeletedRows(t: Table, fds: seq<FD>): (dr: seq<nat>)
    requires Rect(t) && AllFit(t, fds)
    ensures StrictlyIncreasing(dr)
    ensures forall x: nat :: x in dr <==> x < |t| && RowIsOne(t, fds, RightSideFlagsOf(fds, Width(t)), x)
  {
    var marks := OneRowFlags(t, fds, RightSideFlagsOf(fds, Width(t)));
    SetIndicesMembers(marks, |t|);
    SetIndices(marks, |t|)
  }

  /** Every column the FDs mention lies inside the table, so deleting the unreferenced ones is safe. */
  lemma UnreferencedColsSafe(t: Table, fds: seq<FD>)
    ensures DeletesOnlyUnreferenced(t, fds, UnreferencedCols(fds, Width(t)))
  {
  }

  /** The position of the cell (i', j') of the subtable of kept rows dr and kept columns dc. */
  function SubtablePosition(t: Table, dr: seq<nat>, dc: seq<nat>, i': nat, j': nat): (p: nat)
    requires Rect(t) && i' < |Kept(|t|, dr)| && j' < |Kept(Width(t), dc)|
    ensures p < Size(Subtable(t, dr, dc)) && Width(Subtable(t, dr, dc)) > 0
    ensures RowOf(p, Width(Subtable(t, dr, dc))) == i' && ColOf(p, Width(Subtable(t, dr, dc))) == j'
  {
    var s := Subtable(t, dr, dc);
    CellInTable(s, i', j');
    RowStart(i', Width(s)) + j'
  }

  /**
   * The value the subtable computation stores for cell (i, j): 1 in a
   * deleted row or column, otherwise what the direct computation on the
   * subtable stores for the cell's renumbered position.
   */
  ghost function SubtableCell(t: Table, fds: seq<FD>, identifyOnes: bool, i: nat, j: nat): real
    requires Rect(t) && AllFit(t, fds) && i < |t| && j < Width(t)
  {
    var dr, dc := DeletedRows(t, fds), UnreferencedCols(fds, Width(t));
    if i in dr || j in dc then 1.0
    else
      ShiftIsRank(i, |t|, dr);
      ShiftIsRank(j, Width(t), dc);
      ConvertAllFits(t, fds, dr, dc);
      DirectCell(Subtable(t, dr, dc), ConvertAll(fds, dc), identifyOnes, SubtablePosition(t, dr, dc, Shift(i, dr), Shift(j, dc)))
  }

  /** A cell in a deleted row or a deleted column is one. */
  lemma DeletedCellIsOne(t: Table, fds: seq<FD>, i: nat, j: nat)
    requires Rect(t) && AllFit(t, fds) && i < |t| && j < Width(t)
    requires i in DeletedRows(t, fds) || j in UnreferencedCols(fds, Width(t))
    ensures IsOneAt(t, fds, RightSideFlagsOf(fds, Width(t)), i, j)
  {
    if j in UnreferencedCols(fds, Width(t)) {
      UnflaggedColumnIsOne(t, fds, RightSideFlagsOf(fds, Width(t)), i, j);
    }
  }

  /** The one cell (i, j) is the one position RowStart(i, cols) + j. */
  lemma OneCellPosition(t: Table, fds: seq<FD>, flags: seq<bool>, i: nat, j: nat, p: nat)
    requires Rect(t) && AllFit(t, fds) && |flags| == Width(t) && i < |t| && j < Width(t)
    requires p == RowStart(i, Width(t)) + j && IsOneAt(t, fds, flags, i, j)
    ensures p < Size(t) && IsOne(t, fds, flags, p)
  {
    IsOneOfCell(t, fds, flags, i, j);
  }

  /**
   * The 1s of the subtable computation are exact: when every FD holds, the
   * cell at position p, in a deleted row or a deleted column, has
   * information content 1.
   */
  lemma DeletedCellsExact(t: Table, fds: seq<FD>, i: nat, j: nat, p: nat)
    requires Rect(t) && AllFit(t, fds) && Holds(t, fds) && i < |t| && j < Width(t)
    requires p == RowStart(i, Width(t)) + j
    requires i in DeletedRows(t, fds) || j in UnreferencedCols(fds, Width(t))
    ensures p < Size(t) && InformationContent(t, fds, p) == 1.0
  {
    DeletedCellIsOne(t, fds, i, j);
    OneCellPosition(t, fds, RightSideFlagsOf(fds, Width(t)), i, j, p);
    IsOneFullInformation(t, fds, RightSideFlagsOf(fds, Width(t)), p);
  }

  /** A kept cell gets what the direct computation on the subtable stores for its renumbered position. */
  lemma KeptCellValue(t: Table, fds: seq<FD>, identifyOnes: bool, i: nat, j: nat)
    requires Rect(t) && AllFit(t, fds) && i < |t| && j < Width(t)
    requires i !in DeletedRows(t, fds) && j !in UnreferencedCols(fds, Width(t))
    ensures var dr, dc := DeletedRows(t, fds), UnreferencedCols(fds, Width(t));
            Shift(i, dr) < |Kept(|t|, dr)| && Shift(j, dc) < |Kept(Width(t), dc)|
            && AllFit(Subtable(t, dr, dc), ConvertAll(fds, dc))
            && SubtableCell(t, fds, identifyOnes, i, j)
               == DirectCell(Subtable(t, dr, dc), ConvertAll(fds, dc), identifyOnes, SubtablePosition(t, dr, dc, Shift(i, dr), Shift(j, dc)))
  {
    var dr, dc := DeletedRows(t, fds), UnreferencedCols(fds, Width(t));
    ShiftIsRank(i, |t|, dr);
    ShiftIsRank(j, Width(t), dc);
    ConvertAllFits(t, fds, dr, dc);
  }

  /**
   * The kept cells of the subtable computation are exact for the subtable:
   * when every FD holds on the table, a kept cell gets the information
   * content of its renumbered cell in the subtable under the renumbered FDs.
   */
  lemma KeptCellsExact(t: Table, fds: seq<FD>, identifyOnes: bool, i: nat, j: nat)
    requires Rect(t) && AllFit(t, fds) && Holds(t, fds) && i < |t| && j < Width(t)
    requires i !in DeletedRows(t, fds) && j !in UnreferencedCols(fds, Width(t))
    ensures var dr, dc := DeletedRows(t, fds), UnreferencedCols(fds, Width(t));
            Shift(i, dr) < |Kept(|t|, dr)| && Shift(j, dc) < |Kept(Width(t), dc)|
            && AllFit(Subtable(t, dr, dc), ConvertAll(fds, dc))
            && SubtableCell(t, fds, identifyOnes, i, j)
               == InformationContent(Subtable(t, dr, dc), ConvertAll(fds, dc), SubtablePosition(t, dr, dc, Shift(i, dr), Shift(j, dc)))
  {
    var dr, dc := DeletedRows(t, fds), UnreferencedCols(fds, Width(t));
    KeptCellValue(t, fds, identifyOnes, i, j);
    var s, fds' := Subtable(t, dr, dc), ConvertAll(fds, dc);
    var q := SubtablePosition(t, dr, dc, Shift(i, dr), Shift(j, dc));
    SubtableHolds(t, fds, dr, dc);
    DirectCellExact(s, fds', identifyOnes, q);
  }

  /** Cell (i, j) of a rows x cols grid lies at row-major position RowStart(i, cols) + j. */
  lemma GridPosition(rows: nat, cols: nat, i: nat, j: nat)
    requires i < rows && j < cols
    ensures RowStart(i, cols) + j < RowStart(rows, cols)
  {
    RowStartIsProduct(i, cols);
    RowStartIsProduct(rows, cols);
    CellPosition(i, j, rows, cols);
  }

  /** The values of a row-major list laid out as rows x cols (entry i / cols, i % cols holds value i). */
  function Reshape(vals: seq<real>, rows: nat, cols: nat): (m: seq<seq<real>>)
    requires |vals| == RowStart(rows, cols)
    ensures |m| == rows && forall i :: 0 <= i < rows ==> |m[i]| == cols
  {
    seq(rows, i requires 0 <= i < rows =>
      seq(cols, j requires 0 <= j < cols => GridPosition(rows, cols, i, j); vals[RowStart(i, cols) + j]))
  }

  /** The value the direct computation stores for every position, in row-major order. */
  ghost function DirectValues(t: Table, fds: seq<FD>, identifyOnes: bool): (vals: seq<real>)
    requires Rect(t) && AllFit(t, fds)
    ensures |vals| == Size(t) == RowStart(|t|, Width(t))
  {
    SizeRect(t);
    RowStartIsProduct(|t|, Width(t));
    seq(Size(t), p requires 0 <= p < Size(t) => DirectCell(t, fds, identifyOnes, p))
  }

  /** The matrix the direct computation returns: position i stored at row i / cols, column i % cols. */
  ghost function DirectMatrix(t: Table, fds: seq<FD>, identifyOnes: bool): (m: seq<seq<real>>)
    requires Rect(t) && AllFit(t, fds)
    ensures |m| == |t| && forall i :: 0 <= i < |t| ==> |m[i]| == Width(t)
  {
    Reshape(DirectValues(t, fds, identifyOnes), |t|, Width(t))
  }

  /** What the direct computation stores for the cell (i, j), at position RowStart(i, cols) + j. */
  ghost function DirectMatrixCell(t: Table, fds: seq<FD>, identifyOnes: bool, i: nat, j: nat): real
    requires Rect(t) && AllFit(t, fds) && i < |t| && j < Width(t)
  {
    CellIndex(t, i, j);
    DirectCell(t, fds, identifyOnes, RowStart(i, Width(t)) + j)
  }

  /** Entry (i, j) of the direct matrix is DirectMatrixCell(i, j). */
  lemma DirectMatrixAt(t: Table, fds: seq<FD>, identifyOnes: bool, i: nat, j: nat)
    requires Rect(t) && AllFit(t, fds) && i < |t| && j < Width(t)
    ensures DirectMatrix(t, fds, identifyOnes)[i][j] == DirectMatrixCell(t, fds, identifyOnes, i, j)
  {
    var vals := DirectValues(t, fds, identifyOnes);
    CellIndex(t, i, j);
    assert Reshape(vals, |t|, Width(t))[i][j] == vals[RowStart(i, Width(t)) + j];
  }

  /** A matrix with one row per kept row and one entry per kept column. */
  predicate KeptShape(sub: seq<seq<real>>, rows: nat, cols: nat, dr: seq<nat>, dc: seq<nat>) {
    |sub| == |Kept(rows, dr)| && forall r :: 0 <= r < |sub| ==> |sub[r]| == |Kept(cols, dc)|
  }

  /**
   * embedSubtableComputation for the cell (i, j): 1 in a deleted row or
   * column, otherwise the subtable's entry for the renumbered cell.
   */
  function EmbeddedCell(sub: seq<seq<real>>, dr: seq<nat>, dc: seq<nat>, rows: nat, cols: nat, i: nat, j: nat): real
    requires StrictlyIncreasing(dr) && StrictlyIncreasing(dc) && KeptShape(sub, rows, cols, dr, dc)
    requires i < rows && j < cols
  {
    if i in dr || j in dc then 1.0
    else
      ShiftIsRank(i, rows, dr);
      ShiftIsRank(j, cols, dc);
      sub[Shift(i, dr)][Shift(j, dc)]
  }

  /** embedSubtableComputation: the rows x cols matrix around the subtable's matrix. */
  function Embedded(sub: seq<seq<real>>, dr: seq<nat>, dc: seq<nat>, rows: nat, cols: nat): seq<seq<real>>
    requires StrictlyIncreasing(dr) && StrictlyIncreasing(dc) && KeptShape(sub, rows, cols, dr, dc)
  {
    seq(rows, i requires 0 <= i < rows =>
      seq(cols, j requires 0 <= j < cols => EmbeddedCell(sub, dr, dc, rows, cols, i, j)))
  }

  /**
   * Embedding loses nothing: the subtable entry (i', j') reappears at the
   * original cell of its kept row and kept column, and every cell of a
   * deleted row or column is 1.
   */
  lemma EmbeddedKeepsSub(sub: seq<seq<real>>, dr: seq<nat>, dc: seq<nat>, rows: nat, cols: nat, i': nat, j': nat)
    requires StrictlyIncreasing(dr) && StrictlyIncreasing(dc) && KeptShape(sub, rows, cols, dr, dc)
    requires i' < |Kept(rows, dr)| && j' < |Kept(cols, dc)|
    ensures Kept(rows, dr)[i'] < rows && Kept(cols, dc)[j'] < cols
    ensures Embedded(sub, dr, dc, rows, cols)[Kept(rows, dr)[i']][Kept(cols, dc)[j']] == sub[i'][j']
  {
    var i, j := Kept(rows, dr)[i'], Kept(cols, dc)[j'];
    KeptMembers(rows, dr);
    KeptMembers(cols, dc);
    assert i in Kept(rows, dr) && j in Kept(cols, dc);
    RankOfKept(i', rows, dr);
    RankOfKept(j', cols, dc);
  }

  lemma EmbeddedAt(sub: seq<seq<real>>, dr: seq<nat>, dc: seq<nat>, rows: nat, cols: nat, i: nat, j: nat)
    requires StrictlyIncreasing(dr) && StrictlyIncreasing(dc) && KeptShape(sub, rows, cols, dr, dc)
    requires i < rows && j < cols
    ensures |Embedded(sub, dr, dc, rows, cols)| == rows && |Embedded(sub, dr, dc, rows, cols)[i]| == cols
    ensures Embedded(sub, dr, dc, rows, cols)[i][j] == EmbeddedCell(sub, dr, dc, rows, cols, i, j)
  {
  }

  /**
   * Scanning row by row and column by column, the kept cell (i, j) takes
   * the subtable entry whose indices count the kept rows above i and the
   * kept columns left of j.
   */
  lemma EmbeddedKeptCell(sub: seq<seq<real>>, dr: seq<nat>, dc: seq<nat>, rows: nat, cols: nat, i: nat, j: nat)
    requires StrictlyIncreasing(dr) && StrictlyIncreasing(dc) && KeptShape(sub, rows, cols, dr, dc)
    requires i < rows && j < cols && i !in dr && j !in dc
    ensures |Kept(i, dr)| < |sub| && |Kept(j, dc)| < |sub[|Kept(i, dr)|]|
    ensures |Embedded(sub, dr, dc, rows, cols)| == rows && |Embedded(sub, dr, dc, rows, cols)[i]| == cols
    ensures Embedded(sub, dr, dc, rows, cols)[i][j] == sub[|Kept(i, dr)|][|Kept(j, dc)|]
  {
    KeptLength(i, dr);
    KeptLength(j, dc);
    ShiftIsRank(i, rows, dr);
    ShiftIsRank(j, cols, dc);
    EmbeddedAt(sub, dr, dc, rows, cols, i, j);
  }

  /** A cell of a deleted row or column is embedded as 1. */
  lemma EmbeddedDeletedCell(sub: seq<seq<real>>, dr: seq<nat>, dc: seq<nat>, rows: nat, cols: nat, i: nat, j: nat)
    requires StrictlyIncreasing(dr) && StrictlyIncreasing(dc) && KeptShape(sub, rows, cols, dr, dc)
    requires i < rows && j < cols && (i in dr || j in dc)
    ensures |Embedded(sub, dr, dc, rows, cols)| == rows && |Embedded(sub, dr, dc, rows, cols)[i]| == cols
    ensures Embedded(sub, dr, dc, rows, cols)[i][j] == 1.0
  {
    EmbeddedAt(sub, dr, dc, rows, cols, i, j);
  }

  /** The direct matrix of the subtable has one row per kept row and one entry per kept column. */
  lemma SubtableDirectShape(t: Table, fds: seq<FD>, identifyOnes: bool, dr: seq<nat>, dc: seq<nat>)
    requires Rect(t) && AllFit(t, fds) && DeletesOnlyUnreferenced(t, fds, dc)
    ensures AllFit(Subtable(t, dr, dc), ConvertAll(fds, dc))
    ensures KeptShape(DirectMatrix(Subtable(t, dr, dc), ConvertAll(fds, dc), identifyOnes), |t|, Width(t), dr, dc)
  {
    ConvertAllFits(t, fds, dr, dc);
    var s := Subtable(t, dr, dc);
    assert |s| > 0 ==> Width(s) == |Kept(Width(t), dc)|;
  }

  /** The matrix of the subtable computation that deletes rows dr and columns dc: the subtable's direct matrix, embedded. */
  ghost function SubtableMatrixWith(t: Table, fds: seq<FD>, identifyOnes: bool, dr: seq<nat>, dc: seq<nat>): (m: seq<seq<real>>)
    requires Rect(t) && AllFit(t, fds) && DeletesOnlyUnreferenced(t, fds, dc) && StrictlyIncreasing(dr)
  {
    SubtableDirectShape(t, fds, identifyOnes, dr, dc);
    Embedded(DirectMatrix(Subtable(t, dr, dc), ConvertAll(fds, dc), identifyOnes), dr, dc, |t|, Width(t))
  }

  /** The subtable computation's matrix, deleting the one rows and the unreferenced columns. */
  ghost function SubtableMatrix(t: Table, fds: seq<FD>, identifyOnes: bool): seq<seq<real>>
    requires Rect(t) && AllFit(t, fds)
  {
    SubtableMatrixWith(t, fds, identifyOnes, DeletedRows(t, fds), UnreferencedCols(fds, Width(t)))
  }

  /** A kept cell of an embedded row-major layout is the value at the renumbered cell's position. */
  lemma EmbeddedReshapeKept(vals: seq<real>, rows': nat, cols': nat, dr: seq<nat>, dc: seq<nat>, rows: nat, cols: nat, i: nat, j: nat)
    requires |vals| == RowStart(rows', cols') && StrictlyIncreasing(dr) && StrictlyIncreasing(dc)
    requires KeptShape(Reshape(vals, rows', cols'), rows, cols, dr, dc)
    requires i < rows && j < cols && i !in dr && j !in dc
    ensures Shift(i, dr) < rows' && Shift(j, dc) < cols'
    ensures RowStart(Shift(i, dr), cols') + Shift(j, dc) < |vals|
    ensures EmbeddedCell(Reshape(vals, rows', cols'), dr, dc, rows, cols, i, j) == vals[RowStart(Shift(i, dr), cols') + Shift(j, dc)]
  {
    ShiftIsRank(i, rows, dr);
    ShiftIsRank(j, cols, dc);
    var m := Reshape(vals, rows', cols');
    assert |m[Shift(i, dr)]| == cols' == |Kept(cols, dc)|;
    GridPosition(rows', cols', Shift(i, dr), Shift(j, dc));
  }

  /** A kept entry of the embedded subtable matrix is the direct value at the renumbered cell's position. */
  lemma SubtableMatrixWithKept(t: Table, fds: seq<FD>, identifyOnes: bool, dr: seq<nat>, dc: seq<nat>, i: nat, j: nat)
    requires Rect(t) && AllFit(t, fds) && DeletesOnlyUnreferenced(t, fds, dc) && StrictlyIncreasing(dr)
    requires i < |t| && j < Width(t) && i !in dr && j !in dc
    ensures AllFit(Subtable(t, dr, dc), ConvertAll(fds, dc))
    ensures Shift(i, dr) < |Kept(|t|, dr)| && Shift(j, dc) < |Kept(Width(t), dc)|
    ensures |SubtableMatrixWith(t, fds, identifyOnes, dr, dc)| == |t| && |SubtableMatrixWith(t, fds, identifyOnes, dr, dc)[i]| == Width(t)
    ensures SubtableMatrixWith(t, fds, identifyOnes, dr, dc)[i][j]
            == DirectValues(Subtable(t, dr, dc), ConvertAll(fds, dc), identifyOnes)[SubtablePosition(t, dr, dc, Shift(i, dr), Shift(j, dc))]
  {
    SubtableDirectShape(t, fds, identifyOnes, dr, dc);
    var s, fds' := Subtable(t, dr, dc), ConvertAll(fds, dc);
    var vals := DirectValues(s, fds', identifyOnes);
    var m := Reshape(vals, |s|, Width(s));
    EmbeddedAt(m, dr, dc, |t|, Width(t), i, j);
    EmbeddedReshapeKept(vals, |s|, Width(s), dr, dc, |t|, Width(t), i, j);
  }

  /** Every entry of a deleted row or a deleted column of the embedded subtable matrix is 1. */
  lemma SubtableMatrixWithDeleted(t: Table, fds: seq<FD>, identifyOnes: bool, dr: seq<nat>, dc: seq<nat>, i: nat, j: nat)
    requires Rect(t) && AllFit(t, fds) && DeletesOnlyUnreferenced(t, fds, dc) && StrictlyIncreasing(dr)
    requires i < |t| && j < Width(t) && (i in dr || j in dc)
    ensures |SubtableMatrixWith(t, fds, identifyOnes, dr, dc)| == |t| && |SubtableMatrixWith(t, fds, identifyOnes, dr, dc)[i]| == Width(t)
    ensures SubtableMatrixWith(t, fds, identifyOnes, dr, dc)[i][j] == 1.0
  {
    SubtableDirectShape(t, fds, identifyOnes, dr, dc);
    EmbeddedAt(DirectMatrix(Subtable(t, dr, dc), ConvertAll(fds, dc), identifyOnes), dr, dc, |t|, Width(t), i, j);
  }

  /** Position p of the direct values holds DirectCell(p). */
  lemma DirectValuesAt(t: Table, fds: seq<FD>, identifyOnes: bool, p: nat)
    requires Rect(t) && AllFit(t, fds) && p < Size(t)
    ensures DirectValues(t, fds, identifyOnes)[p] == DirectCell(t, fds, identifyOnes, p)
  {
  }

  /** Each entry of the subtable computation's matrix is the SubtableCell of its cell. */
  lemma SubtableMatrixCell(t: Table, fds: seq<FD>, identifyOnes: bool, i: nat, j: nat)
    requires Rect(t) && AllFit(t, fds) && i < |t| && j < Width(t)
    ensures |SubtableMatrix(t, fds, identifyOnes)| == |t| && |SubtableMatrix(t, fds, identifyOnes)[i]| == Width(t)
    ensures SubtableMatrix(t, fds, identifyOnes)[i][j] == SubtableCell(t, fds, identifyOnes, i, j)
  {
    var dr, dc := DeletedRows(t, fds), UnreferencedCols(fds, Width(t));
    if i in dr || j in dc {
      SubtableMatrixWithDeleted(t, fds, identifyOnes, dr, dc, i, j);
    } else {
      SubtableMatrixWithKept(t, fds, identifyOnes, dr, dc, i, j);
      var s, fds' := Subtable(t, dr, dc), ConvertAll(fds, dc);
      var q := SubtablePosition(t, dr, dc, Shift(i, dr), Shift(j, dc));
      DirectValuesAt(s, fds', identifyOnes, q);
    }
  }

  /** The positions the direct computation marks as one before computing anything: none unless identifyOnes. */
  ghost function OneMarks(t: Table, fds: seq<FD>, identifyOnes: bool): (marks: seq<bool>)
    requires Rect(t) && AllFit(t, fds)
    ensures |marks| == Size(t)
  {
    seq(Size(t), p requires 0 <= p < Size(t) => identifyOnes && IsOne(t, fds, RightSideFlagsOf(fds, Width(t)), p))
  }

  /** A marked position holds 1 in the direct values. */
  lemma DirectValueOne(t: Table, fds: seq<FD>, identifyOnes: bool, p: nat)
    requires Rect(t) && AllFit(t, fds) && p < Size(t) && OneMarks(t, fds, identifyOnes)[p]
    ensures DirectValues(t, fds, identifyOnes)[p] == 1.0
  {
    DirectValuesAt(t, fds, identifyOnes, p);
  }

  /** An unmarked position holds its exact information content in the direct values. */
  lemma DirectValueComputed(t: Table, fds: seq<FD>, identifyOnes: bool, p: nat)
    requires Rect(t) && AllFit(t, fds) && p < Size(t) && !OneMarks(t, fds, identifyOnes)[p]
    ensures DirectValues(t, fds, identifyOnes)[p] == InformationContent(t, fds, p)
  {
    DirectValuesAt(t, fds, identifyOnes, p);
  }

  /** The marking pass's results, one isOne per position under the right-side flags, are the marks. */
  lemma OnesAreMarks(t: Table, fds: seq<FD>, flags: seq<bool>, ones: seq<bool>)
    requires Rect(t) && AllFit(t, fds) && IsRightSideFlags(flags, fds, Width(t)) && |ones| == Size(t)
    requires forall p :: 0 <= p < Size(t) ==> ones[p] == IsOne(t, fds, flags, p)
    ensures ones == OneMarks(t, fds, true)
  {
    RightSideFlagsUnique(flags, fds, Width(t));
  }

  /** Without identifyOnes nothing is marked. */
  lemma NoMarks(t: Table, fds: seq<FD>)
    requires Rect(t) && AllFit(t, fds)
    ensures OneMarks(t, fds, false) == seq(Size(t), _ => false)
  {
  }

  /** Each direct value is 1 at a marked position and the exact information content elsewhere. */
  lemma DirectValuesSplit(t: Table, fds: seq<FD>, identifyOnes: bool)
    requires Rect(t) && AllFit(t, fds)
    ensures forall p :: 0 <= p < Size(t) ==>
              DirectValues(t, fds, identifyOnes)[p]
              == if OneMarks(t, fds, identifyOnes)[p] then 1.0 else InformationContent(t, fds, p)
  {
    forall p | 0 <= p < Size(t)
      ensures DirectValues(t, fds, identifyOnes)[p]
              == if OneMarks(t, fds, identifyOnes)[p] then 1.0 else InformationContent(t, fds, p)
    {
      if OneMarks(t, fds, identifyOnes)[p] {
        DirectValueOne(t, fds, identifyOnes, p);
      } else {
        DirectValueComputed(t, fds, identifyOnes, p);
      }
    }
  }
}
