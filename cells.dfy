/**
 * Turning the string cells read from a CSV file or from the command line
 * into an int table: rows of positive integers are taken as they are,
 * anything else is encoded through a first-occurrence dictionary.
 * An exception the program lets escape (an index past the end of a list
 * or an array) is None.
 */
module CellTables {
  import opened Wrappers
  import opened Strings
  import opened Tables
  import opened Sequences

  type Cells = seq<seq<string>>

  /** Every row has at least cols cells. */
  predicate CoversWidth(cells: Cells, cols: nat) {
    forall r :: 0 <= r < |cells| ==> |cells[r]| >= cols
  }

  /** The first cols cells of each row, row after row (row-major order). */
  function Flat(cells: Cells, cols: nat): seq<string>
    requires CoversWidth(cells, cols)
  {
    if |cells| == 0 then []
    else Flat(cells[..|cells| - 1], cols) + cells[|cells| - 1][..cols]
  }

  lemma FlatStep(cells: Cells, i: nat, cols: nat)
    requires i < |cells| && CoversWidth(cells[..i], cols) && |cells[i]| >= cols
    ensures CoversWidth(cells[..i + 1], cols)
    ensures forall p :: 0 <= p <= i ==> |cells[p]| >= cols
    ensures Flat(cells[..i + 1], cols) == Flat(cells[..i], cols) + cells[i][..cols]
  {
    assert cells[..i + 1][..i] == cells[..i];
  }

  lemma {:induction false} FlatContains(cells: Cells, cols: nat)
    requires CoversWidth(cells, cols)
    ensures forall r, c :: 0 <= r < |cells| && 0 <= c < cols ==> cells[r][c] in Flat(cells, cols)
  {
    if |cells| > 0 {
      var init := cells[..|cells| - 1];
      FlatContains(init, cols);
      forall r, c | 0 <= r < |cells| && 0 <= c < cols
        ensures cells[r][c] in Flat(cells, cols)
      {
        if r < |init| {
          assert cells[r] == init[r];
        } else {
          assert cells[r][c] == cells[r][..cols][c];
        }
      }
    }
  }

  lemma {:induction false} FlatMembers(cells: Cells, cols: nat)
    requires CoversWidth(cells, cols)
    ensures forall x :: x in Flat(cells, cols) ==> exists r, c :: 0 <= r < |cells| && 0 <= c < cols && cells[r][c] == x
  {
    if |cells| > 0 {
      var init := cells[..|cells| - 1];
      FlatMembers(init, cols);
      var last := cells[|cells| - 1];
      forall x | x in Flat(cells, cols)
        ensures exists r, c :: 0 <= r < |cells| && 0 <= c < cols && cells[r][c] == x
      {
        if x in Flat(init, cols) {
          var r, c :| 0 <= r < |init| && 0 <= c < cols && init[r][c] == x;
          assert cells[r][c] == x;
        } else {
          assert x in last[..cols];
          var c :| 0 <= c < cols && last[..cols][c] == x;
          assert cells[|cells| - 1][c] == x;
        }
      }
    }
  }

  /**
   * The dictionary encodeCells builds while reading xs in order: a string
   * seen before keeps its code, a new one gets the next code, starting at 1.
   */
  function Dictionary(xs: seq<string>): map<string, int>
  {
    if |xs| == 0 then map[] else AddCode(Dictionary(xs[..|xs| - 1]), xs[|xs| - 1])
  }

  /** The dictionary after reading x: unchanged if it has x, else x gets the next code. */
  function AddCode(d: map<string, int>, x: string): map<string, int> {
    if x in d then d else d[x := |d| + 1]
  }

  /** The dictionary has a code for exactly the strings of xs, so its size is their number. */
  lemma {:induction false} DictionaryKeys(xs: seq<string>)
    ensures forall x :: x in Dictionary(xs) <==> x in xs
    ensures Dictionary(xs).Keys == set x | x in xs
  {
    if |xs| > 0 {
      var init := xs[..|xs| - 1];
      DictionaryKeys(init);
      assert xs == init + [xs[|xs| - 1]];
    }
  }

  /** Reading one more string: the dictionary gains it with the next code unless it has it already. */
  lemma DictionaryStep(xs: seq<string>, x: string)
    ensures Dictionary(xs + [x]) == AddCode(Dictionary(xs), x)
  {
    assert (xs + [x])[..|xs|] == xs;
  }

  /** Adding a code keeps every earlier code and gives x one. */
  lemma AddCodeKeeps(d: map<string, int>, x: string)
    ensures x in AddCode(d, x)
    ensures forall y :: y in d ==> y in AddCode(d, x) && AddCode(d, x)[y] == d[y]
  {
  }

  lemma SliceStep(seen: seq<string>, row: seq<string>, j: nat, cur: seq<string>)
    requires j < |row| && cur == seen + row[..j]
    ensures cur + [row[j]] == seen + row[..j + 1]
  {
  }

  /** The codes are 1 .. n for n strings, each used by exactly one string. */
  lemma {:induction false} DictionaryCodes(xs: seq<string>)
    ensures forall x :: x in Dictionary(xs) ==> 1 <= Dictionary(xs)[x] <= |Dictionary(xs)|
    ensures forall x, y :: x in Dictionary(xs) && y in Dictionary(xs) && Dictionary(xs)[x] == Dictionary(xs)[y] ==> x == y
    ensures forall c :: 1 <= c <= |Dictionary(xs)| ==> c in Dictionary(xs).Values
  {
    if |xs| > 0 {
      var init := xs[..|xs| - 1];
      DictionaryCodes(init);
      var d := Dictionary(init);
      var x := xs[|xs| - 1];
      if x !in d {
        var e := d[x := |d| + 1];
        assert |e| == |d| + 1;
        forall c | 1 <= c <= |e|
          ensures c in e.Values
        {
          if c == |e| {
            assert e[x] == c;
          } else {
            assert c in d.Values;
            var y :| y in d && d[y] == c;
            assert e[y] == c;
          }
        }
      }
    }
  }

  /** A string's code is fixed when it first occurs: reading more never changes it. */
  lemma {:induction false} DictionaryPrefix(xs: seq<string>, ys: seq<string>)
    ensures forall x :: x in Dictionary(xs) ==> x in Dictionary(xs + ys) && Dictionary(xs + ys)[x] == Dictionary(xs)[x]
    decreases |ys|
  {
    if |ys| > 0 {
      var init := ys[..|ys| - 1];
      DictionaryPrefix(xs, init);
      assert xs + ys == (xs + init) + [ys[|ys| - 1]];
      DictionaryStep(xs + init, ys[|ys| - 1]);
      AddCodeKeeps(Dictionary(xs + init), ys[|ys| - 1]);
    } else {
      assert xs + ys == xs;
    }
  }

  /** A string that first occurs after another gets a larger code (codes follow first occurrence). */
  lemma DictionaryOrder(xs: seq<string>, i: nat, j: nat)
    requires i < j < |xs| && xs[j] !in xs[..j]
    ensures xs[i] in Dictionary(xs) && xs[j] in Dictionary(xs)
    ensures Dictionary(xs)[xs[i]] < Dictionary(xs)[xs[j]]
  {
    var before := xs[..j];
    DictionaryKeys(before);
    DictionaryCodes(before);
    assert xs[i] == before[i];
    SliceExtend(xs, j);
    DictionaryStep(before, xs[j]);
    DictionaryPrefix(xs[..j + 1], xs[j + 1..]);
    SliceJoin(xs, j + 1);
  }

  /**
   * What encodeCells returns: as many rows as cells and as many columns as
   * the first row, each cell replaced by the dictionary code of its string;
   * None when there is no first row or a row is too short to be read.
   */
  function EncodedCells(cells: Cells): (r: Option<Table>)
    ensures r.Some? ==> |r.value| == |cells| && forall i :: 0 <= i < |cells| ==> |r.value[i]| == |cells[0]|
  {
    if |cells| == 0 then None
    else
      var cols := |cells[0]|;
      if !CoversWidth(cells, cols) then None
      else
        var d := Dictionary(Flat(cells, cols));
        FlatContains(cells, cols);
        DictionaryKeys(Flat(cells, cols));
        Some(seq(|cells|, i requires 0 <= i < |cells| => seq(cols, j requires 0 <= j < cols => d[cells[i][j]])))
  }

  /** The rows of a two-dimensional array. */
  function Grid(m: array2<int>): (t: Table)
    reads m
    ensures |t| == m.Length0 && forall i :: 0 <= i < m.Length0 ==> |t[i]| == m.Length1
  {
    seq(m.Length0, i requires 0 <= i < m.Length0 reads m => seq(m.Length1, j requires 0 <= j < m.Length1 reads m => m[i, j]))
  }

  /** encodeCells: one pass over the cells in row-major order, growing the dictionary. */
  method EncodeCells(cells: Cells) returns (r: Option<Table>)
    ensures r == EncodedCells(cells)
  {
    if |cells| == 0 {
      return None;
    }
    var cols := |cells[0]|;
    var stringToInt: map<string, int> := map[];
    var table := new int[|cells|, cols];
    var nextNumber := 1;
    for i := 0 to |cells|
      invariant CoversWidth(cells[..i], cols)
      invariant stringToInt == Dictionary(Flat(cells[..i], cols)) && nextNumber == |stringToInt| + 1
      invariant forall p, q :: 0 <= p < i && 0 <= q < cols ==>
        cells[p][q] in stringToInt && table[p, q] == stringToInt[cells[p][q]]
    {
      ghost var before := stringToInt;
      var complete;
      complete, stringToInt, nextNumber := EncodeRow(table, i, cells[i], stringToInt, nextNumber, Flat(cells[..i], cols));
      if !complete {
        assert !CoversWidth(cells, cols);
        assert EncodedCells(cells) == None;
        return None;
      }
      FlatStep(cells, i, cols);
      forall p, q | 0 <= p <= i && 0 <= q < cols
        ensures cells[p][q] in stringToInt && table[p, q] == stringToInt[cells[p][q]]
      {
        if p < i {
          assert cells[p][q] in before;
        }
      }
    }
    assert cells[..|cells|] == cells;
    r := Some(Grid(table));
    forall p | 0 <= p < |cells|
      ensures r.value[p] == EncodedCells(cells).value[p]
    {
    }
    assert r.value == EncodedCells(cells).value;
  }

  /**
   * The inner loop of encodeCells for row i: code the first cols cells of
   * row into table, extending the dictionary; false when row is too short.
   */
  method EncodeRow(table: array2<int>, i: nat, row: seq<string>, dict: map<string, int>, next: int, ghost seen: seq<string>)
      returns (complete: bool, dict': map<string, int>, next': int)
    requires i < table.Length0
    requires dict == Dictionary(seen) && next == |dict| + 1
    modifies table
    ensures complete <==> |row| >= table.Length1
    ensures complete ==> dict' == Dictionary(seen + row[..table.Length1]) && next' == |dict'| + 1
    ensures complete ==> forall q :: 0 <= q < table.Length1 ==> row[q] in dict' && table[i, q] == dict'[row[q]]
    ensures complete ==> forall x :: x in dict ==> x in dict' && dict'[x] == dict[x]
    ensures forall p, q :: 0 <= p < table.Length0 && p != i && 0 <= q < table.Length1 ==> table[p, q] == old(table[p, q])
  {
    dict', next' := dict, next;
    ghost var cur := seen;
    assert seen + row[..0] == seen;
    for j := 0 to table.Length1
      invariant j <= |row| && cur == seen + row[..j]
      invariant dict' == Dictionary(cur) && next' == |dict'| + 1
      invariant forall q :: 0 <= q < j ==> row[q] in dict' && table[i, q] == dict'[row[q]]
      invariant forall x :: x in dict ==> x in dict' && dict'[x] == dict[x]
      invariant forall p, q :: 0 <= p < table.Length0 && p != i && 0 <= q < table.Length1 ==> table[p, q] == old(table[p, q])
    {
      if j >= |row| {
        return false, dict', next';
      }
      var cell := row[j];
      ghost var before := dict';
      dict', next' := EncodeCell(table, i, j, cell, dict', next');
      AddCodeKeeps(before, cell);
      forall q | 0 <= q <= j
        ensures row[q] in dict' && table[i, q] == dict'[row[q]]
      {
        if q < j {
          assert row[q] in before && table[i, q] == before[row[q]];
        }
      }
      DictionaryStep(cur, cell);
      SliceStep(seen, row, j, cur);
      cur := cur + [cell];
    }
    complete := true;
  }

  /** One cell: the code already given to its string, or the next number, which the string now gets. */
  method EncodeCell(table: array2<int>, i: nat, j: nat, cell: string, dict: map<string, int>, next: int)
      returns (dict': map<string, int>, next': int)
    requires i < table.Length0 && j < table.Length1 && next == |dict| + 1
    modifies table
    ensures dict' == AddCode(dict, cell) && next' == |dict'| + 1
    ensures cell in dict' && table[i, j] == dict'[cell]
    ensures forall p, q :: 0 <= p < table.Length0 && 0 <= q < table.Length1 && (p != i || q != j) ==>
      table[p, q] == old(table[p, q])
  {
    if cell in dict {
      table[i, j] := dict[cell];
      dict', next' := dict, next;
    } else {
      table[i, j] := next;
      dict', next' := dict[cell := next], next + 1;
    }
  }

  /** The distinct strings among the cells encodeCells reads. */
  function Distinct(cells: Cells): set<string>
    requires |cells| > 0 && CoversWidth(cells, |cells[0]|)
  {
    set x | x in Flat(cells, |cells[0]|)
  }

  /** The code encodeCells gives the cell at row r, column c. */
  lemma EncodedAt(cells: Cells, r: nat, c: nat)
    requires EncodedCells(cells).Some? && r < |cells| && c < |cells[0]|
    ensures |cells[r]| >= |cells[0]| && cells[r][c] in Dictionary(Flat(cells, |cells[0]|))
    ensures EncodedCells(cells).value[r][c] == Dictionary(Flat(cells, |cells[0]|))[cells[r][c]]
  {
    FlatContains(cells, |cells[0]|);
    DictionaryKeys(Flat(cells, |cells[0]|));
  }

  /** Two cells get the same code exactly when they hold the same string. */
  lemma EncodedCellsInjective(cells: Cells)
    requires EncodedCells(cells).Some?
    ensures var t, cols := EncodedCells(cells).value, |cells[0]|;
      forall r1, c1, r2, c2 :: 0 <= r1 < |cells| && 0 <= c1 < cols && 0 <= r2 < |cells| && 0 <= c2 < cols ==>
        (t[r1][c1] == t[r2][c2] <==> cells[r1][c1] == cells[r2][c2])
  {
    var t, cols := EncodedCells(cells).value, |cells[0]|;
    DictionaryCodes(Flat(cells, cols));
    forall r1, c1, r2, c2 | 0 <= r1 < |cells| && 0 <= c1 < cols && 0 <= r2 < |cells| && 0 <= c2 < cols
      ensures t[r1][c1] == t[r2][c2] <==> cells[r1][c1] == cells[r2][c2]
    {
      EncodedAt(cells, r1, c1);
      EncodedAt(cells, r2, c2);
    }
  }

  /** The codes 1 .. n. */
  function CodesUpTo(n: nat): (s: set<int>)
    ensures forall k :: k in s <==> 1 <= k <= n
  {
    if n == 0 then {} else CodesUpTo(n - 1) + {n}
  }

  /** The codes used are exactly 1 .. n for the n distinct strings, so the largest is n. */
  lemma EncodedCellsRange(cells: Cells)
    requires EncodedCells(cells).Some?
    ensures var t, cols := EncodedCells(cells).value, |cells[0]|;
      (set r, c | 0 <= r < |cells| && 0 <= c < cols :: t[r][c]) == CodesUpTo(|Distinct(cells)|)
  {
    var t, cols := EncodedCells(cells).value, |cells[0]|;
    var xs := Flat(cells, cols);
    var d := Dictionary(xs);
    DictionaryKeys(xs);
    DictionaryCodes(xs);
    assert |d| == |Distinct(cells)| by {
      assert d.Keys == Distinct(cells);
    }
    var used := set r, c | 0 <= r < |cells| && 0 <= c < cols :: t[r][c];
    forall v | v in used
      ensures 1 <= v <= |d|
    {
      var r, c :| 0 <= r < |cells| && 0 <= c < cols && t[r][c] == v;
      EncodedAt(cells, r, c);
    }
    forall k | 1 <= k <= |d|
      ensures k in used
    {
      assert k in d.Values;
      var x :| x in d && d[x] == k;
      FlatMembers(cells, cols);
      var r, c :| 0 <= r < |cells| && 0 <= c < cols && cells[r][c] == x;
      EncodedAt(cells, r, c);
    }
  }

  /** The first cell read gets code 1. */
  lemma EncodedCellsFirst(cells: Cells)
    requires EncodedCells(cells).Some? && |cells[0]| > 0
    ensures EncodedCells(cells).value[0][0] == 1
  {
    var cols := |cells[0]|;
    var xs := Flat(cells, cols);
    FlatFirst(cells, cols);
    DictionaryPrefix([xs[0]], xs[1..]);
    assert [xs[0]] + xs[1..] == xs;
    assert Dictionary([xs[0]]) == map[xs[0] := 1] by {
      assert [xs[0]][..0] == [];
    }
  }

  lemma {:induction false} FlatFirst(cells: Cells, cols: nat)
    requires |cells| > 0 && cols > 0 && CoversWidth(cells, cols)
    ensures |Flat(cells, cols)| > 0 && Flat(cells, cols)[0] == cells[0][0]
  {
    if |cells| > 1 {
      var init := cells[..|cells| - 1];
      FlatFirst(init, cols);
    }
  }

  /** A row the numeric pass skips: no cells, or an empty first cell. */
  predicate IsBlank(row: seq<string>) {
    |row| == 0 || row[0] == ""
  }

  /**
   * The outcome of stringArrListToIntMatrix's numeric pass: the values
   * read, a fall-back to encodeCells (a cell that is not an int or not
   * positive), or the index exception of a cell past the first row's width.
   */
  datatype Pass<T> = Parsed(value: T) | Fallback | Crash

  function Prefixed<T>(xs: seq<T>, p: Pass<seq<T>>): Pass<seq<T>> {
    match p
    case Parsed(ys) => Parsed(xs + ys)
    case Fallback => Fallback
    case Crash => Crash
  }

  /**
   * The numeric pass over row[k..] in a table cols wide: each cell is
   * parsed first, then stored (an index exception when k >= cols), then
   * checked to be positive.
   */
  function ParseRow(row: seq<string>, cols: nat, k: nat): (r: Pass<seq<int>>)
    requires k <= |row|
    ensures r.Parsed? ==> |r.value| == |row| - k && (k == |row| || |row| <= cols)
    decreases |row| - k
  {
    if k == |row| then Parsed([])
    else
      match ParseInt(row[k])
      case None => Fallback
      case Some(v) =>
        if k >= cols then Crash
        else if v <= 0 then Fallback
        else Prefixed([v], ParseRow(row, cols, k + 1))
  }

  /** The numeric pass over the rows from i on: the values of every row that is not blank. */
  function ParseRows(cells: Cells, cols: nat, i: nat): (r: Pass<Table>)
    requires i <= |cells|
    ensures r.Parsed? ==> |r.value| <= |cells| - i
    ensures r.Parsed? ==> forall p :: 0 <= p < |r.value| ==> |r.value[p]| <= cols
    decreases |cells| - i
  {
    if i == |cells| then Parsed([])
    else if IsBlank(cells[i]) then ParseRows(cells, cols, i + 1)
    else
      match ParseRow(cells[i], cols, 0)
      case Fallback => Fallback
      case Crash => Crash
      case Parsed(vs) => Prefixed([vs], ParseRows(cells, cols, i + 1))
  }

  /** A row of values widened to cols cells with zeros. */
  function Padded(vs: seq<int>, cols: nat): (row: seq<int>)
    requires |vs| <= cols
    ensures |row| == cols && row[..|vs|] == vs && forall c :: |vs| <= c < cols ==> row[c] == 0
  {
    vs + seq(cols - |vs|, _ => 0)
  }

  /**
   * What stringArrListToIntMatrix returns: a table with as many rows as
   * cells and the first row's width, holding the values of the non-blank
   * rows in order, zero-padded, then zero rows; encodeCells(cells) when a
   * cell is not a positive int; None when there is no first row or a cell
   * lies past its width.
   */
  function IntMatrix(cells: Cells): (r: Option<Table>)
    ensures r.Some? ==> |r.value| == |cells| && forall i :: 0 <= i < |cells| ==> |r.value[i]| == |cells[0]|
  {
    if |cells| == 0 then None
    else
      var cols := |cells[0]|;
      match ParseRows(cells, cols, 0)
      case Crash => None
      case Fallback => EncodedCells(cells)
      case Parsed(rows) =>
        Some(seq(|cells|, i requires 0 <= i < |cells| => if i < |rows| then Padded(rows[i], cols) else Padded([], cols)))
  }

  lemma PrefixedEmpty<T>(p: Pass<seq<T>>)
    ensures Prefixed([], p) == p
  {
    if p.Parsed? {
      assert [] + p.value == p.value;
    }
  }

  lemma PrefixedTwice<T>(xs: seq<T>, ys: seq<T>, p: Pass<seq<T>>)
    ensures Prefixed(xs, Prefixed(ys, p)) == Prefixed(xs + ys, p)
  {
    if p.Parsed? {
      assert xs + (ys + p.value) == (xs + ys) + p.value;
    }
  }

  /** stringArrListToIntMatrix: the numeric pass, falling back to encodeCells. */
  method StringArrListToIntMatrix(cells: Cells) returns (r: Option<Table>)
    ensures r == IntMatrix(cells)
  {
    if |cells| == 0 {
      return None;
    }
    var cols := |cells[0]|;
    var table := new int[|cells|, cols]((_, _) => 0);
    var j := 0;
    ghost var done: Table := [];
    PrefixedEmpty(ParseRows(cells, cols, 0));
    for i := 0 to |cells|
      invariant j == |done| <= i
      invariant ParseRows(cells, cols, 0) == Prefixed(done, ParseRows(cells, cols, i))
      invariant forall p :: 0 <= p < j ==> |done[p]| <= cols
      invariant forall p, c :: 0 <= p < |cells| && 0 <= c < cols ==>
        table[p, c] == if p < j then Padded(done[p], cols)[c] else 0
    {
      var row := cells[i];
      if |row| > 0 && row[0] != "" {
        var pass := CopyRow(table, j, row);
        if pass.Fallback? {
          r := EncodeCells(cells);
          return;
        }
        if pass.Crash? {
          return None;
        }
        PrefixedTwice(done, [pass.value], ParseRows(cells, cols, i + 1));
        done := done + [pass.value];
        j := j + 1;
      }
    }
    r := Some(Grid(table));
    forall p | 0 <= p < |cells|
      ensures r.value[p] == IntMatrix(cells).value[p]
    {
    }
    assert r.value == IntMatrix(cells).value;
  }

  /**
   * The inner loop of stringArrListToIntMatrix for one non-blank row,
   * written to row j of table (zero so far).
   */
  method CopyRow(table: array2<int>, j: nat, row: seq<string>) returns (pass: Pass<seq<int>>)
    requires j < table.Length0 && forall c :: 0 <= c < table.Length1 ==> table[j, c] == 0
    modifies table
    ensures pass == ParseRow(row, table.Length1, 0)
    ensures pass.Parsed? ==> forall c :: 0 <= c < table.Length1 ==> table[j, c] == Padded(pass.value, table.Length1)[c]
    ensures forall p, c :: 0 <= p < table.Length0 && p != j && 0 <= c < table.Length1 ==> table[p, c] == old(table[p, c])
  {
    var cols := table.Length1;
    var vs: seq<int> := [];
    PrefixedEmpty(ParseRow(row, cols, 0));
    for k := 0 to |row|
      invariant |vs| == k && (k == 0 || k <= cols)
      invariant ParseRow(row, cols, 0) == Prefixed(vs, ParseRow(row, cols, k))
      invariant forall c :: 0 <= c < cols ==> table[j, c] == if c < k then vs[c] else 0
      invariant forall p, c :: 0 <= p < table.Length0 && p != j && 0 <= c < cols ==> table[p, c] == old(table[p, c])
    {
      var v := ParseInt(row[k]);
      if v.None? {
        return Fallback;
      }
      if k >= cols {
        return Crash;
      }
      table[j, k] := v.value;
      if table[j, k] <= 0 {
        return Fallback;
      }
      PrefixedTwice(vs, [v.value], ParseRow(row, cols, k + 1));
      vs := vs + [v.value];
    }
    assert vs + [] == vs;
    pass := Parsed(vs);
  }

  predicate PositiveCell(s: string) {
    ParseInt(s).Some? && ParseInt(s).value > 0
  }

  predicate PositiveRow(row: seq<string>) {
    forall k :: 0 <= k < |row| ==> PositiveCell(row[k])
  }

  /** vs holds the int each cell of row parses to. */
  predicate ReadAs(row: seq<string>, vs: seq<int>) {
    |vs| == |row| && forall k :: 0 <= k < |row| ==> ParseInt(row[k]) == Some(vs[k])
  }

  /** No row from i on that the numeric pass reads is wider than cols. */
  predicate FitsWidth(cells: Cells, cols: nat, i: nat) {
    forall m :: i <= m < |cells| && !IsBlank(cells[m]) ==> |cells[m]| <= cols
  }

  /** The rows from i on that are not blank, in order. */
  function NonBlank(cells: Cells, i: nat): seq<seq<string>>
    requires i <= |cells|
    decreases |cells| - i
  {
    if i == |cells| then []
    else if IsBlank(cells[i]) then NonBlank(cells, i + 1)
    else [cells[i]] + NonBlank(cells, i + 1)
  }

  /**
   * The numeric pass over one row (from cell k on, k at most the width):
   * it reads the row exactly when the row fits and every cell is a positive
   * int; it fails with the index exception exactly when the cells before
   * the width are positive ints and the one at the width is an int.
   */
  lemma {:induction false} ParseRowFrom(row: seq<string>, cols: nat, k: nat)
    requires k <= |row| && k <= cols
    ensures ParseRow(row, cols, k).Parsed? <==>
      |row| <= cols && forall m :: k <= m < |row| ==> PositiveCell(row[m])
    ensures ParseRow(row, cols, k).Crash? <==>
      cols < |row| && (forall m :: k <= m < cols ==> PositiveCell(row[m])) && ParseInt(row[cols]).Some?
    ensures ParseRow(row, cols, k).Parsed? ==> ReadAs(row[k..], ParseRow(row, cols, k).value)
    decreases |row| - k
  {
    if k < |row| && k < cols && PositiveCell(row[k]) {
      ParseRowFrom(row, cols, k + 1);
      var rest := ParseRow(row, cols, k + 1);
      if rest.Parsed? {
        assert row[k..] == [row[k]] + row[k + 1..];
      }
    }
  }

  /**
   * The numeric pass over the rows from i on, none of them too wide: it
   * never fails with the index exception, and it reads the non-blank rows
   * exactly when each of their cells is a positive int.
   */
  lemma {:induction false} ParseRowsFrom(cells: Cells, cols: nat, i: nat)
    requires i <= |cells| && FitsWidth(cells, cols, i)
    ensures !ParseRows(cells, cols, i).Crash?
    ensures ParseRows(cells, cols, i).Parsed? <==>
      forall m :: i <= m < |cells| && !IsBlank(cells[m]) ==> PositiveRow(cells[m])
    decreases |cells| - i
  {
    if i < |cells| {
      ParseRowsFrom(cells, cols, i + 1);
      if !IsBlank(cells[i]) {
        ParseRowFrom(cells[i], cols, 0);
      }
    }
  }

  /** The rows the numeric pass reads are the non-blank rows, each cell parsed. */
  lemma {:induction false} ParseRowsValues(cells: Cells, cols: nat, i: nat)
    requires i <= |cells| && ParseRows(cells, cols, i).Parsed?
    ensures var rows, nb := ParseRows(cells, cols, i).value, NonBlank(cells, i);
      |rows| == |nb| && forall p :: 0 <= p < |rows| ==> ReadAs(nb[p], rows[p])
    decreases |cells| - i
  {
    if i < |cells| {
      ParseRowsValues(cells, cols, i + 1);
      if !IsBlank(cells[i]) {
        ParseRowFrom(cells[i], cols, 0);
        assert cells[i][0..] == cells[i];
        var rest := ParseRows(cells, cols, i + 1);
        var rows, nb := ParseRows(cells, cols, i).value, NonBlank(cells, i);
        assert rows == [ParseRow(cells[i], cols, 0).value] + rest.value;
        assert nb == [cells[i]] + NonBlank(cells, i + 1);
        forall p | 0 <= p < |rows|
          ensures ReadAs(nb[p], rows[p])
        {
          if p > 0 {
            assert rows[p] == rest.value[p - 1] && nb[p] == NonBlank(cells, i + 1)[p - 1];
          }
        }
      }
    }
  }

  /**
   * When every non-blank row fits the first row's width and holds positive
   * ints only, the non-blank rows are copied in order into the leading rows,
   * zero-padded on the right; the remaining rows are zero.
   */
  lemma IntMatrixNumeric(cells: Cells)
    requires |cells| > 0 && FitsWidth(cells, |cells[0]|, 0)
    requires forall m :: 0 <= m < |cells| && !IsBlank(cells[m]) ==> PositiveRow(cells[m])
    ensures IntMatrix(cells).Some?
    ensures var t, nb := IntMatrix(cells).value, NonBlank(cells, 0);
      |nb| <= |cells| && forall p, c :: 0 <= p < |cells| && 0 <= c < |cells[0]| ==>
        if p < |nb| && c < |nb[p]| then ParseInt(nb[p][c]) == Some(t[p][c]) else t[p][c] == 0
  {
    ParseRowsFrom(cells, |cells[0]|, 0);
    ParseRowsValues(cells, |cells[0]|, 0);
  }

  /**
   * A short row is padded with 0: the file "1,1,1" / "1,2" reads as the
   * table [[1, 1, 1], [1, 2, 0]].
   */
  lemma ShortRowPadded()
    ensures IntMatrix([["1", "1", "1"], ["1", "2"]]) == Some([[1, 1, 1], [1, 2, 0]])
  {
    var cells: Cells := [["1", "1", "1"], ["1", "2"]];
    assert ParseInt("1") == Some(1) && ParseInt("2") == Some(2);
    assert !IsBlank(cells[0]) && !IsBlank(cells[1]);
    assert NonBlank(cells, 0) == cells by {
      assert NonBlank(cells, 2) == [];
      assert NonBlank(cells, 1) == [cells[1]];
    }
    IntMatrixNumeric(cells);
    var t := IntMatrix(cells).value;
    assert t[0][0] == 1 && t[0][1] == 1 && t[0][2] == 1;
    assert t[1][0] == 1 && t[1][1] == 2 && t[1][2] == 0;
    assert t[0] == [1, 1, 1] && t[1] == [1, 2, 0];
    assert |t| == 2 && t == [[1, 1, 1], [1, 2, 0]];
  }

  /**
   * When every non-blank row fits the first row's width but one of them has
   * a cell that is not a positive int, the result is encodeCells(cells).
   */
  lemma IntMatrixFallback(cells: Cells)
    requires |cells| > 0 && FitsWidth(cells, |cells[0]|, 0)
    requires exists m :: 0 <= m < |cells| && !IsBlank(cells[m]) && !PositiveRow(cells[m])
    ensures IntMatrix(cells) == EncodedCells(cells)
  {
    ParseRowsFrom(cells, |cells[0]|, 0);
  }

  /** No table comes only from no rows, a row too wide or a row too short to encode. */
  lemma IntMatrixNone(cells: Cells)
    requires IntMatrix(cells) == None
    ensures |cells| == 0 || !FitsWidth(cells, |cells[0]|, 0) || !CoversWidth(cells, |cells[0]|)
  {
    if |cells| > 0 && FitsWidth(cells, |cells[0]|, 0) {
      ParseRowsFrom(cells, |cells[0]|, 0);
    }
  }
}
