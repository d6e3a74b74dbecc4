/**
 * The exact information content of a cell. For a probed cell p and a mask
 * (one bit for every other cell), the table keeps the cells whose bit is set
 * and blanks the others to 0; the probed cell gets a value larger than all
 * others. The mask's entropy is 1 when every FD still holds on that table
 * and 0 otherwise; the information content is the mean over all masks.
 * Doubles are modelled as reals.
 */
module Information {
  import opened FunctionalDependencies
  import opened Tables
  import opened Strings

  lemma {:induction false} MulAtLeast(k: nat, w: nat)
    requires k >= 1
    ensures k * w >= w
  {
    if k > 1 {
      MulAtLeast(k - 1, w);
      assert k * w == (k - 1) * w + w;
    }
  }

  /** Euclidean division is unique: n = q * w + r with 0 <= r < w fixes n / w and n % w. */
  lemma DivModUnique(n: nat, q: nat, r: nat, w: nat)
    requires r < w && n == q * w + r
    ensures n / w == q && n % w == r
  {
    var q', r' := n / w, n % w;
    assert n == q' * w + r';
    if q > q' {
      MulAtLeast(q - q', w);
    } else if q' > q {
      MulAtLeast(q' - q, w);
    }
  }

  /** Position p (row-major) of a table lies in row RowOf(p, w), column ColOf(p, w). */
  lemma PositionInTable(t: Table, p: nat)
    requires Rect(t) && p < Size(t)
    ensures |t| > 0 && Width(t) > 0
    ensures RowOf(p, Width(t)) < |t| && ColOf(p, Width(t)) < Width(t)
  {
    SizeRect(t);
    PositionBound(p, |t|, Width(t));
    RowColOf(p, Width(t));
  }

  lemma PositionBound(p: nat, rows: nat, w: nat)
    requires p < rows * w
    ensures rows > 0 && w > 0 && p / w < rows && p % w < w
  {
  }

  /** Cell (i, j) has the row-major position i * w + j, and that position leads back to (i, j). */
  lemma CellPosition(i: nat, j: nat, rows: nat, w: nat)
    requires i < rows && j < w
    ensures i * w + j < rows * w
    ensures (i * w + j) / w == i && (i * w + j) % w == j
  {
    MulAtLeast(rows - i, w);
    assert rows * w == i * w + (rows - i) * w;
    DivModUnique(i * w + j, i, j, w);
  }

  /** The row-major position of the first cell of row i: i * w, as repeated addition. */
  function RowStart(i: nat, w: nat): nat {
    if i == 0 then 0 else RowStart(i - 1, w) + w
  }

  lemma {:induction false} RowStartIsProduct(i: nat, w: nat)
    ensures RowStart(i, w) == i * w
  {
    if i > 0 {
      RowStartIsProduct(i - 1, w);
      assert i * w == (i - 1) * w + w;
    }
  }

  /** The row-major position of cell (i, j) is below rows * w, and it leads back to (i, j). */
  lemma CellIndex(t: Table, i: nat, j: nat)
    requires Rect(t) && i < |t| && j < Width(t)
    ensures RowStart(i, Width(t)) + j < Size(t)
    ensures (RowStart(i, Width(t)) + j) / Width(t) == i && (RowStart(i, Width(t)) + j) % Width(t) == j
  {
    SizeRect(t);
    RowStartIsProduct(i, Width(t));
    CellPosition(i, j, |t|, Width(t));
  }

  /** The position of cell (i, j) lies in the table and leads back to row i, column j. */
  lemma CellInTable(t: Table, i: nat, j: nat)
    requires Rect(t) && i < |t| && j < Width(t)
    ensures RowStart(i, Width(t)) + j < Size(t)
    ensures RowOf(RowStart(i, Width(t)) + j, Width(t)) == i && ColOf(RowStart(i, Width(t)) + j, Width(t)) == j
  {
    CellIndex(t, i, j);
    RowColOf(RowStart(i, Width(t)) + j, Width(t));
  }

  /** The row of position p: p / w, as repeated subtraction. */
  function RowOf(p: nat, w: nat): nat
    requires w > 0
  {
    if p < w then 0 else RowOf(p - w, w) + 1
  }

  /** The column of position p: p % w, as repeated subtraction. */
  function ColOf(p: nat, w: nat): nat
    requires w > 0
  {
    if p < w then p else ColOf(p - w, w)
  }

  lemma {:induction false} RowColOf(p: nat, w: nat)
    requires w > 0
    ensures ColOf(p, w) < w && RowStart(RowOf(p, w), w) + ColOf(p, w) == p
    ensures RowOf(p, w) == p / w && ColOf(p, w) == p % w
  {
    if p >= w {
      RowColOf(p - w, w);
    }
    RowStartIsProduct(RowOf(p, w), w);
    DivModUnique(p, RowOf(p, w), ColOf(p, w), w);
  }

  /**
   * One cell of createTable's result: cell k < p reads bit k, cell k > p
   * reads bit k - 1 (the bits skip the probed cell), and the probed cell
   * itself is 0.
   */
  function MaskedCell(t: Table, p: nat, hasValue: seq<bool>, i: nat, j: nat): int
    requires Rect(t) && p < Size(t) && |hasValue| == Size(t) - 1
    requires i < |t| && j < Width(t)
  {
    var k := RowStart(i, Width(t)) + j;
    CellIndex(t, i, j);
    if k < p then (if hasValue[k] then t[i][j] else 0)
    else if k > p then (if hasValue[k - 1] then t[i][j] else 0)
    else 0
  }

  /** createTable's result: the same shape, every cell either kept or 0. */
  function Masked(t: Table, p: nat, hasValue: seq<bool>): (tm: Table)
    requires Rect(t) && p < Size(t) && |hasValue| == Size(t) - 1
    ensures |tm| == |t| && Rect(tm) && Width(tm) == Width(t)
    ensures forall i, j :: 0 <= i < |t| && 0 <= j < Width(t) ==> tm[i][j] == 0 || tm[i][j] == t[i][j]
  {
    PositionInTable(t, p);
    seq(|t|, i requires 0 <= i < |t| =>
      seq(Width(t), j requires 0 <= j < Width(t) => MaskedCell(t, p, hasValue, i, j)))
  }

  /**
   * createTable: a fresh zero-filled rows x cols array whose cells are set
   * in row-major order, boolPos counting the cells visited.
   */
  method CreateTable(t: Table, p: nat, hasValue: seq<bool>) returns (tableTmp: array2<int>)
    requires Rect(t) && p < Size(t) && |hasValue| == Size(t) - 1
    ensures fresh(tableTmp) && tableTmp.Length0 == |t| && tableTmp.Length1 == Width(t)
    ensures forall i, j :: 0 <= i < |t| && 0 <= j < Width(t) ==> tableTmp[i, j] == Masked(t, p, hasValue)[i][j]
  {
    var rows, cols := |t|, Width(t);
    tableTmp := new int[rows, cols]((_, _) => 0);
    var boolPos := 0;
    for i := 0 to rows
      invariant boolPos == RowStart(i, cols)
      invariant forall i', j' :: 0 <= i' < i && 0 <= j' < cols ==> tableTmp[i', j'] == MaskedCell(t, p, hasValue, i', j')
      invariant forall i', j' :: i <= i' < rows && 0 <= j' < cols ==> tableTmp[i', j'] == 0
    {
      for j := 0 to cols
        invariant boolPos == RowStart(i, cols) + j
        invariant forall i', j' :: 0 <= i' < i && 0 <= j' < cols ==> tableTmp[i', j'] == MaskedCell(t, p, hasValue, i', j')
        invariant forall j' :: 0 <= j' < j ==> tableTmp[i, j'] == MaskedCell(t, p, hasValue, i, j')
        invariant forall i', j' :: i <= i' < rows && 0 <= j' < cols && (i' > i || j' >= j) ==> tableTmp[i', j'] == 0
      {
        CellIndex(t, i, j);
        if boolPos < p {
          tableTmp[i, j] := if hasValue[boolPos] then t[i][j] else 0;
        } else if boolPos > p {
          tableTmp[i, j] := if hasValue[boolPos - 1] then t[i][j] else 0;
        }
        boolPos := boolPos + 1;
      }
    }
  }

  function Max(a: int, b: int): int {
    if a >= b then a else b
  }

  /** The largest cell of a row, and -1 when every cell is below -1 or the row is empty. */
  function RowMax(row: seq<int>): (mx: int)
    ensures mx >= -1
    ensures forall j :: 0 <= j < |row| ==> row[j] <= mx
    ensures mx == -1 || exists j :: 0 <= j < |row| && row[j] == mx
  {
    if |row| == 0 then -1 else Max(RowMax(row[..|row| - 1]), row[|row| - 1])
  }

  /** getMaxEntry: the largest cell of the table, starting from -1. */
  function MaxEntry(t: Table): (mx: int)
    ensures mx >= -1
    ensures forall i, j :: 0 <= i < |t| && 0 <= j < |t[i]| ==> t[i][j] <= mx
    ensures mx == -1 || exists i, j :: 0 <= i < |t| && 0 <= j < |t[i]| && t[i][j] == mx
  {
    if |t| == 0 then -1
    else
      var init := MaxEntry(t[..|t| - 1]);
      var last := RowMax(t[|t| - 1]);
      assert forall i :: 0 <= i < |t| - 1 ==> t[..|t| - 1][i] == t[i];
      Max(init, last)
  }

  /**
   * The table entropy checks: the masked table with the probed cell (row
   * p / cols, column p % cols) set to getMaxEntry + 1.
   */
  function Probe(t: Table, p: nat, hasValue: seq<bool>): (tp: Table)
    requires Rect(t) && p < Size(t) && |hasValue| == Size(t) - 1
    ensures |tp| == |t| && Rect(tp) && Width(tp) == Width(t)
  {
    PositionInTable(t, p);
    var tm := Masked(t, p, hasValue);
    var row, col := RowOf(p, Width(t)), ColOf(p, Width(t));
    tm[row := tm[row][col := MaxEntry(tm) + 1]]
  }

  /**
   * In the probed table the probed cell exceeds every other cell, and every
   * other cell is either blanked to 0 or the original value.
   */
  lemma ProbeCells(t: Table, p: nat, hasValue: seq<bool>)
    requires Rect(t) && p < Size(t) && |hasValue| == Size(t) - 1
    ensures Width(t) > 0 && RowOf(p, Width(t)) < |t| && ColOf(p, Width(t)) < Width(t)
    ensures forall i, j :: 0 <= i < |t| && 0 <= j < Width(t) && (i != RowOf(p, Width(t)) || j != ColOf(p, Width(t))) ==>
              (Probe(t, p, hasValue)[i][j] == 0 || Probe(t, p, hasValue)[i][j] == t[i][j])
              && Probe(t, p, hasValue)[i][j] < Probe(t, p, hasValue)[RowOf(p, Width(t))][ColOf(p, Width(t))]
  {
    PositionInTable(t, p);
    var tm := Masked(t, p, hasValue);
    var tp := Probe(t, p, hasValue);
    var w := Width(t);
    var row, col := RowOf(p, w), ColOf(p, w);
    assert tp[row][col] == MaxEntry(tm) + 1;
    forall i, j | 0 <= i < |t| && 0 <= j < w && (i != row || j != col)
      ensures (tp[i][j] == 0 || tp[i][j] == t[i][j]) && tp[i][j] < tp[row][col]
    {
      assert tp[i][j] == tm[i][j];
    }
  }

  /** entropy: 1 when every FD holds on the probed table, 0 otherwise. */
  function Entropy(t: Table, fds: seq<FD>, p: nat, hasValue: seq<bool>): real
    requires Rect(t) && AllFit(t, fds) && p < Size(t) && |hasValue| == Size(t) - 1
  {
    var tp := Probe(t, p, hasValue);
    assert AllFit(tp, fds);
    if Holds(tp, fds) then 1.0 else 0.0
  }

  /** Java int arithmetic: x reduced into the int range modulo 2^32. */
  function Wrap32(x: int): (r: int)
    ensures MinInt <= r <= MaxInt && (r - x) % 0x1_0000_0000 == 0
    ensures MinInt <= x <= MaxInt ==> r == x
    ensures x == MaxInt + 1 ==> r == MinInt
  {
    (x - MinInt) % 0x1_0000_0000 + MinInt
  }

  /**
   * The table entropy checks as the int arithmetic builds it: the probed
   * cell gets getMaxEntry + 1, which wraps to MinInt when some cell holds
   * MaxInt.
   */
  function Int32Probe(t: Table, p: nat, hasValue: seq<bool>): (tp: Table)
    requires Rect(t) && p < Size(t) && |hasValue| == Size(t) - 1
    ensures |tp| == |t| && Rect(tp) && Width(tp) == Width(t)
  {
    PositionInTable(t, p);
    var tm := Masked(t, p, hasValue);
    var row, col := RowOf(p, Width(t)), ColOf(p, Width(t));
    tm[row := tm[row][col := Wrap32(MaxEntry(tm) + 1)]]
  }

  /** entropy over the table with the 32-bit probe value. */
  function Int32Entropy(t: Table, fds: seq<FD>, p: nat, hasValue: seq<bool>): real
    requires Rect(t) && AllFit(t, fds) && p < Size(t) && |hasValue| == Size(t) - 1
  {
    var tp := Int32Probe(t, p, hasValue);
    assert AllFit(tp, fds);
    if Holds(tp, fds) then 1.0 else 0.0
  }

  /** The 32-bit probe table differs from the probe table at most in the probed cell. */
  lemma Int32ProbeCells(t: Table, p: nat, hasValue: seq<bool>)
    requires Rect(t) && p < Size(t) && |hasValue| == Size(t) - 1
    ensures Width(t) > 0 && RowOf(p, Width(t)) < |t|
    ensures forall i, j :: 0 <= i < |t| && 0 <= j < Width(t) && (i != RowOf(p, Width(t)) || j != ColOf(p, Width(t))) ==>
              Int32Probe(t, p, hasValue)[i][j] == Probe(t, p, hasValue)[i][j]
  {
    PositionInTable(t, p);
    var tm := Masked(t, p, hasValue);
    var tp, tj := Probe(t, p, hasValue), Int32Probe(t, p, hasValue);
    var row, col := RowOf(p, Width(t)), ColOf(p, Width(t));
    forall i, j | 0 <= i < |t| && 0 <= j < Width(t) && (i != row || j != col)
      ensures tj[i][j] == tp[i][j]
    {
      assert tp[i][j] == tm[i][j] && tj[i][j] == tm[i][j];
    }
  }

  /** The masked table blanks the probed cell, and its largest cell is an int of at least 0. */
  lemma MaskedProbedCell(t: Table, p: nat, hasValue: seq<bool>)
    requires Rect(t) && p < Size(t) && |hasValue| == Size(t) - 1
    requires forall i, j :: 0 <= i < |t| && 0 <= j < Width(t) ==> 0 <= t[i][j] <= MaxInt
    ensures Width(t) > 0 && RowOf(p, Width(t)) < |t| && ColOf(p, Width(t)) < Width(t)
    ensures Masked(t, p, hasValue)[RowOf(p, Width(t))][ColOf(p, Width(t))] == 0
    ensures 0 <= MaxEntry(Masked(t, p, hasValue)) <= MaxInt
  {
    PositionInTable(t, p);
    var w := Width(t);
    RowColOf(p, w);
    var tm := Masked(t, p, hasValue);
    var row, col := RowOf(p, w), ColOf(p, w);
    assert RowStart(row, w) + col == p;
    assert tm[row][col] == MaskedCell(t, p, hasValue, row, col) == 0;
  }

  /**
   * The probe table and the 32-bit probe table are fresh variants of each
   * other in the probed cell when every cell is an int of at least 0.
   */
  lemma Int32ProbeFresh(t: Table, p: nat, hasValue: seq<bool>)
    requires Rect(t) && p < Size(t) && |hasValue| == Size(t) - 1
    requires forall i, j :: 0 <= i < |t| && 0 <= j < Width(t) ==> 0 <= t[i][j] <= MaxInt
    ensures Width(t) > 0 && RowOf(p, Width(t)) < |t| && ColOf(p, Width(t)) < Width(t)
    ensures FreshVariants(Probe(t, p, hasValue), Int32Probe(t, p, hasValue), RowOf(p, Width(t)), ColOf(p, Width(t)))
  {
    MaskedProbedCell(t, p, hasValue);
    var tm := Masked(t, p, hasValue);
    var row, col := RowOf(p, Width(t)), ColOf(p, Width(t));
    var mx := MaxEntry(tm);
    var tp, tj := Probe(t, p, hasValue), Int32Probe(t, p, hasValue);
    assert tp[row][col] == mx + 1;
    assert tj[row][col] == Wrap32(mx + 1);
    assert tj[row][col] == mx + 1 || tj[row][col] == MinInt;
    ProbeCells(t, p, hasValue);
    Int32ProbeCells(t, p, hasValue);
  }

  /**
   * On the tables the program builds, whose cells are ints of at least 0,
   * the wrap-around of the probe value changes no entropy: the wrapped value
   * MinInt is still non-zero and unlike every other cell.
   */
  lemma Int32ProbeSameEntropy(t: Table, fds: seq<FD>, p: nat, hasValue: seq<bool>)
    requires Rect(t) && AllFit(t, fds) && p < Size(t) && |hasValue| == Size(t) - 1
    requires forall i, j :: 0 <= i < |t| && 0 <= j < Width(t) ==> 0 <= t[i][j] <= MaxInt
    ensures Int32Entropy(t, fds, p, hasValue) == Entropy(t, fds, p, hasValue)
  {
    Int32ProbeFresh(t, p, hasValue);
    var tp := Probe(t, p, hasValue);
    assert AllFit(tp, fds);
    FreshCellIrrelevant(tp, Int32Probe(t, p, hasValue), fds, RowOf(p, Width(t)), ColOf(p, Width(t)));
  }

  /**
   * informationContentRec: with a full mask, its entropy; otherwise the mean
   * of the two extensions that put one more bit in front. Always in [0, 1].
   */
  function InformationContentRec(t: Table, fds: seq<FD>, p: nat, arr: seq<bool>): (r: real)
    requires Rect(t) && AllFit(t, fds) && p < Size(t) && |arr| <= Size(t) - 1
    ensures 0.0 <= r <= 1.0
    decreases Size(t) - 1 - |arr|
  {
    if |arr| == Size(t) - 1 then Entropy(t, fds, p, arr)
    else (InformationContentRec(t, fds, p, [true] + arr) + InformationContentRec(t, fds, p, [false] + arr)) / 2.0
  }

  /**
   * informationContent (exact mode): the recursion started from the empty
   * mask.
   */
  function InformationContent(t: Table, fds: seq<FD>, p: nat): (r: real)
    requires Rect(t) && AllFit(t, fds) && p < Size(t)
    ensures 0.0 <= r <= 1.0
  {
    InformationContentRec(t, fds, p, [])
  }

  /**
   * The information content is the mean entropy over all 2^(size-1) masks
   * of the other cells.
   */
  lemma InformationContentIsMean(t: Table, fds: seq<FD>, p: nat)
    requires Rect(t) && AllFit(t, fds) && p < Size(t)
    ensures InformationContent(t, fds, p) == Halved(Total(Leaves(t, fds, p, Size(t) - 1, [])), Size(t) - 1)
  {
    RecIsHalvedTotal(t, fds, p, [], Size(t) - 1);
  }

  function Pow2(n: nat): (r: nat)
    ensures r >= 1
  {
    if n == 0 then 1 else 2 * Pow2(n - 1)
  }

  /** Each mask with the bit b appended. */
  function Extended(ms: seq<seq<bool>>, b: bool): (r: seq<seq<bool>>)
    ensures |r| == |ms| && forall k :: 0 <= k < |ms| ==> r[k] == ms[k] + [b]
  {
    seq(|ms|, k requires 0 <= k < |ms| => ms[k] + [b])
  }

  /** The 2^n boolean sequences of length n. */
  function AllMasks(n: nat): (ms: seq<seq<bool>>)
    ensures |ms| == Pow2(n)
    ensures forall k :: 0 <= k < |ms| ==> |ms[k]| == n
  {
    if n == 0 then [[]]
    else
      var prev := AllMasks(n - 1);
      Extended(prev, true) + Extended(prev, false)
  }

  /** AllMasks(n) lists every boolean sequence of length n. */
  lemma {:induction false} AllMasksComplete(n: nat, m: seq<bool>)
    requires |m| == n
    ensures m in AllMasks(n)
  {
    if n > 0 {
      var init := m[..n - 1];
      AllMasksComplete(n - 1, init);
      ExtendedMember(AllMasks(n - 1), m[n - 1], init);
      assert m == init + [m[n - 1]];
    }
  }

  lemma ExtendedMember(ms: seq<seq<bool>>, b: bool, x: seq<bool>)
    requires x in ms
    ensures x + [b] in Extended(ms, b)
  {
    var k :| 0 <= k < |ms| && ms[k] == x;
    assert Extended(ms, b)[k] == x + [b];
  }

  /** No sequence occurs twice in AllMasks(n). */
  lemma {:induction false} AllMasksDistinct(n: nat)
    ensures forall k, k' :: 0 <= k < k' < |AllMasks(n)| ==> AllMasks(n)[k] != AllMasks(n)[k']
  {
    if n > 0 {
      AllMasksDistinct(n - 1);
      var prev := AllMasks(n - 1);
      var ms := AllMasks(n);
      var half := |prev|;
      forall k, k' | 0 <= k < k' < |ms| ensures ms[k] != ms[k'] {
        var i := if k < half then k else k - half;
        var i' := if k' < half then k' else k' - half;
        assert ms[k] == prev[i] + [k < half];
        assert ms[k'] == prev[i'] + [k' < half];
        if i == i' {
          assert ms[k][n - 1] != ms[k'][n - 1];
        } else {
          assert ms[k][..n - 1] == prev[i] && ms[k'][..n - 1] == prev[i'];
        }
      }
    }
  }

  /** The sum of a sequence of reals. */
  function Total(vals: seq<real>): real
  {
    if |vals| == 0 then 0.0 else Total(vals[..|vals| - 1]) + vals[|vals| - 1]
  }

  lemma {:induction false} TotalConcat(a: seq<real>, b: seq<real>)
    ensures Total(a + b) == Total(a) + Total(b)
    decreases |b|
  {
    if |b| == 0 {
      assert a + b == a;
    } else {
      TotalConcat(a, b[..|b| - 1]);
      assert (a + b)[..|a + b| - 1] == a + b[..|b| - 1];
    }
  }

  /**
   * The mean of 2^n values computed as informationContentRec does: the
   * mean of the means of the two halves, down to single values.
   */
  function PairwiseMean(vals: seq<real>, n: nat): real
    requires |vals| == Pow2(n)
  {
    if n == 0 then vals[0]
    else (PairwiseMean(vals[..Pow2(n - 1)], n - 1) + PairwiseMean(vals[Pow2(n - 1)..], n - 1)) / 2.0
  }

  /** x halved n times. */
  function Halved(x: real, n: nat): real
  {
    if n == 0 then x else Halved(x, n - 1) / 2.0
  }

  lemma {:induction false} HalvedAdd(x: real, y: real, n: nat)
    ensures Halved(x + y, n) == Halved(x, n) + Halved(y, n)
  {
    if n > 0 {
      HalvedAdd(x, y, n - 1);
    }
  }

  /** Halving n times is dividing by 2^n. */
  lemma {:induction false} HalvedIsDivision(x: real, n: nat)
    ensures Halved(x, n) == x / (Pow2(n) as real)
  {
    if n > 0 {
      HalvedIsDivision(x, n - 1);
      HalveQuotient(x, Pow2(n - 1) as real, Pow2(n) as real);
    }
  }

  lemma HalveQuotient(x: real, d: real, d2: real)
    requires d > 0.0 && d2 == 2.0 * d
    ensures (x / d) / 2.0 == x / d2
  {
  }

  /** Halving recursively gives the plain mean: the total over 2^n. */
  lemma {:induction false} PairwiseMeanIsMean(vals: seq<real>, n: nat)
    requires |vals| == Pow2(n)
    ensures PairwiseMean(vals, n) == Halved(Total(vals), n)
  {
    if n == 0 {
      assert vals[..0] == [];
    } else {
      var h := Pow2(n - 1);
      var lo, hi := vals[..h], vals[h..];
      PairwiseMeanIsMean(lo, n - 1);
      PairwiseMeanIsMean(hi, n - 1);
      assert vals == lo + hi;
      TotalConcat(lo, hi);
      HalvedAdd(Total(lo), Total(hi), n - 1);
    }
  }

  /** Each mask followed by suffix. */
  function Suffixed(ms: seq<seq<bool>>, suffix: seq<bool>): (r: seq<seq<bool>>)
    ensures |r| == |ms| && forall k :: 0 <= k < |ms| ==> r[k] == ms[k] + suffix
  {
    seq(|ms|, k requires 0 <= k < |ms| => ms[k] + suffix)
  }

  /** The entropy of each full mask, in order. */
  function Entropies(t: Table, fds: seq<FD>, p: nat, masks: seq<seq<bool>>): (vals: seq<real>)
    requires Rect(t) && AllFit(t, fds) && p < Size(t)
    requires forall k :: 0 <= k < |masks| ==> |masks[k]| == Size(t) - 1
    ensures |vals| == |masks|
  {
    seq(|masks|, k requires 0 <= k < |masks| => Entropy(t, fds, p, masks[k]))
  }

  /** Entropies of a slice are the slice of the entropies. */
  lemma EntropiesSlice(t: Table, fds: seq<FD>, p: nat, masks: seq<seq<bool>>, h: nat)
    requires Rect(t) && AllFit(t, fds) && p < Size(t) && h <= |masks|
    requires forall k :: 0 <= k < |masks| ==> |masks[k]| == Size(t) - 1
    ensures Entropies(t, fds, p, masks)[..h] == Entropies(t, fds, p, masks[..h])
    ensures Entropies(t, fds, p, masks)[h..] == Entropies(t, fds, p, masks[h..])
  {
    var all := Entropies(t, fds, p, masks);
    var lo, hi := Entropies(t, fds, p, masks[..h]), Entropies(t, fds, p, masks[h..]);
    forall k | 0 <= k < h ensures all[k] == lo[k] {
      assert masks[..h][k] == masks[k];
    }
    forall k | h <= k < |masks| ensures all[k] == hi[k - h] {
      assert masks[h..][k - h] == masks[k];
    }
  }

  /** The entropy of m + suffix for every m of AllMasks(n), in that order. */
  function Leaves(t: Table, fds: seq<FD>, p: nat, n: nat, suffix: seq<bool>): (vals: seq<real>)
    requires Rect(t) && AllFit(t, fds) && p < Size(t) && n + |suffix| == Size(t) - 1
    ensures |vals| == Pow2(n)
  {
    Entropies(t, fds, p, Suffixed(AllMasks(n), suffix))
  }

  /** The masks for n bits are those for n - 1 bits followed by true, then followed by false. */
  lemma SuffixedSplit(n: nat, suffix: seq<bool>)
    requires n > 0
    ensures Suffixed(AllMasks(n), suffix)[..Pow2(n - 1)] == Suffixed(AllMasks(n - 1), [true] + suffix)
    ensures Suffixed(AllMasks(n), suffix)[Pow2(n - 1)..] == Suffixed(AllMasks(n - 1), [false] + suffix)
  {
    var h := Pow2(n - 1);
    var ms, prev := AllMasks(n), AllMasks(n - 1);
    var all := Suffixed(ms, suffix);
    forall k | 0 <= k < h ensures all[k] == prev[k] + ([true] + suffix) && all[h + k] == prev[k] + ([false] + suffix) {
      assert ms[k] == prev[k] + [true] && ms[h + k] == prev[k] + [false];
      ConcatAssoc(prev[k], [true], suffix);
      ConcatAssoc(prev[k], [false], suffix);
    }
    assert all[..h] == Suffixed(prev, [true] + suffix);
    assert all[h..] == Suffixed(prev, [false] + suffix);
  }

  lemma ConcatAssoc(a: seq<bool>, b: seq<bool>, c: seq<bool>)
    ensures (a + b) + c == a + (b + c)
  {
  }

  /** The leaves for n bits are those for n - 1 bits after a true bit, then after a false bit. */
  lemma LeavesSplit(t: Table, fds: seq<FD>, p: nat, n: nat, suffix: seq<bool>)
    requires Rect(t) && AllFit(t, fds) && p < Size(t) && n + |suffix| == Size(t) - 1 && n > 0
    ensures Leaves(t, fds, p, n, suffix)[..Pow2(n - 1)] == Leaves(t, fds, p, n - 1, [true] + suffix)
    ensures Leaves(t, fds, p, n, suffix)[Pow2(n - 1)..] == Leaves(t, fds, p, n - 1, [false] + suffix)
  {
    var masks := Suffixed(AllMasks(n), suffix);
    SuffixedSplit(n, suffix);
    EntropiesSlice(t, fds, p, masks, Pow2(n - 1));
  }

  /** With no bit missing, the only leaf is the entropy of the mask itself. */
  lemma LeavesNone(t: Table, fds: seq<FD>, p: nat, arr: seq<bool>)
    requires Rect(t) && AllFit(t, fds) && p < Size(t) && |arr| == Size(t) - 1
    ensures Leaves(t, fds, p, 0, arr) == [Entropy(t, fds, p, arr)]
  {
    assert AllMasks(0)[0] + arr == arr;
  }

  /** informationContentRec(arr) halves exactly as PairwiseMean does over the leaves below arr. */
  lemma {:induction false} RecIsPairwiseMean(t: Table, fds: seq<FD>, p: nat, arr: seq<bool>, n: nat)
    requires Rect(t) && AllFit(t, fds) && p < Size(t) && |arr| + n == Size(t) - 1
    ensures InformationContentRec(t, fds, p, arr) == PairwiseMean(Leaves(t, fds, p, n, arr), n)
    decreases n
  {
    if n == 0 {
      LeavesNone(t, fds, p, arr);
    } else {
      var ls := Leaves(t, fds, p, n, arr);
      var lt, lf := Leaves(t, fds, p, n - 1, [true] + arr), Leaves(t, fds, p, n - 1, [false] + arr);
      RecIsPairwiseMean(t, fds, p, [true] + arr, n - 1);
      RecIsPairwiseMean(t, fds, p, [false] + arr, n - 1);
      LeavesSplit(t, fds, p, n, arr);
      assert PairwiseMean(ls, n) == (PairwiseMean(lt, n - 1) + PairwiseMean(lf, n - 1)) / 2.0;
    }
  }

  /** The recursion below arr gives the total entropy of the leaves below arr, halved once per missing bit. */
  lemma RecIsHalvedTotal(t: Table, fds: seq<FD>, p: nat, arr: seq<bool>, n: nat)
    requires Rect(t) && AllFit(t, fds) && p < Size(t) && |arr| + n == Size(t) - 1
    ensures InformationContentRec(t, fds, p, arr) == Halved(Total(Leaves(t, fds, p, n, arr)), n)
  {
    RecIsPairwiseMean(t, fds, p, arr, n);
    PairwiseMeanIsMean(Leaves(t, fds, p, n, arr), n);
  }

  /** If every full mask has entropy 1, so does every partial recursion. */
  lemma {:induction false} RecAllOnes(t: Table, fds: seq<FD>, p: nat, arr: seq<bool>)
    requires Rect(t) && AllFit(t, fds) && p < Size(t) && |arr| <= Size(t) - 1
    requires forall m: seq<bool> :: |m| == Size(t) - 1 ==> Entropy(t, fds, p, m) == 1.0
    ensures InformationContentRec(t, fds, p, arr) == 1.0
    decreases Size(t) - 1 - |arr|
  {
    if |arr| < Size(t) - 1 {
      RecAllOnes(t, fds, p, [true] + arr);
      RecAllOnes(t, fds, p, [false] + arr);
    }
  }

  /** Without FDs every mask passes, so every cell has information content 1. */
  lemma NoFdsFullInformation(t: Table, p: nat)
    requires Rect(t) && p < Size(t)
    ensures InformationContent(t, [], p) == 1.0
  {
    RecAllOnes(t, [], p, []);
  }
}
