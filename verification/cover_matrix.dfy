/** The sparse cover matrix seen through its observable state: which rows and
    columns are still live, which row/column pairs carry a cell, the column
    costs, and the two counters `mRowNum` / `mColNum`.  The cell pool and the
    raw-pointer lists are replaced by sets; an active list is the ascending
    enumeration of its live positions, closed by a sentinel head. */
module CoverMatrix {

  /** A handle in an active list: the sentinel head, or the node of a live
      row/column at position `pos`. */
  datatype Ref = Head | At(pos: nat)

  /** The row/column pairs that carry a cell.  They sit in a record of their
      own because deleting and restoring rows and columns never changes them. */
  datatype Grid = Grid(cells: set<(nat, nat)>)

  datatype Matrix = Matrix(
    rowSize: nat,
    colSize: nat,
    cost: seq<int>,
    grid: Grid,
    rows: set<nat>,
    cols: set<nat>,
    rowNum: nat,
    colNum: nat)
  {
    const cells: set<(nat, nat)> := grid.cells
  }

  /** Live positions stay inside the declared sizes, and the two counters
      agree with the number of live rows and columns. */
  predicate Valid(m: Matrix) {
    && |m.cost| == m.colSize
    && (forall r :: r in m.rows ==> r < m.rowSize)
    && (forall c :: c in m.cols ==> c < m.colSize)
    && m.rowNum == |m.rows|
    && m.colNum == |m.cols|
  }

  /** Every cell lies inside the declared sizes.  Only `insert_elem` adds
      cells, and it checks both positions first; every other operation leaves
      the grid alone. */
  predicate CellsInRange(m: Matrix) {
    forall rc :: rc in m.cells ==> rc.0 < m.rowSize && rc.1 < m.colSize
  }

  // ---------------------------------------------------------------------
  // Active lists

  /** The members of `s` inside `[lo, n)`, in ascending order. */
  function Ascending(s: set<nat>, lo: nat, n: nat): (l: seq<nat>)
    ensures forall i :: 0 <= i < |l| ==> lo <= l[i] < n && l[i] in s
    decreases n - lo
  {
    if lo >= n then []
    else if lo in s then [lo] + Ascending(s, lo + 1, n)
    else Ascending(s, lo + 1, n)
  }

  /** The enumeration is strictly increasing. */
  lemma {:induction false} AscendingSorted(s: set<nat>, lo: nat, n: nat)
    ensures forall i, j :: 0 <= i < j < |Ascending(s, lo, n)| ==>
      Ascending(s, lo, n)[i] < Ascending(s, lo, n)[j]
    decreases n - lo
  {
    if lo < n {
      AscendingSorted(s, lo + 1, n);
    }
  }

  /** Nothing of the window is left out of the enumeration. */
  lemma {:induction false} AscendingHas(s: set<nat>, lo: nat, n: nat, x: nat)
    requires lo <= x < n && x in s
    ensures x in Ascending(s, lo, n)
    decreases n - lo
  {
    if x != lo {
      AscendingHas(s, lo + 1, n, x);
    }
  }

  /** The enumeration holds exactly the members of the window. */
  lemma AscendingElements(s: set<nat>, lo: nat, n: nat)
    ensures forall x :: x in Ascending(s, lo, n) <==> lo <= x < n && x in s
  {
    forall x | lo <= x < n && x in s ensures x in Ascending(s, lo, n) {
      AscendingHas(s, lo, n, x);
    }
  }

  function Between(s: set<nat>, lo: nat, n: nat): set<nat> {
    set x | x in s && lo <= x < n
  }

  /** The enumeration lists every member of the window exactly once. */
  lemma {:induction false} AscendingCard(s: set<nat>, lo: nat, n: nat)
    ensures |Ascending(s, lo, n)| == |Between(s, lo, n)|
    decreases n - lo
  {
    if lo >= n {
      assert Between(s, lo, n) == {};
    } else {
      AscendingCard(s, lo + 1, n);
      if lo in s {
        assert Between(s, lo, n) == {lo} + Between(s, lo + 1, n);
      } else {
        assert Between(s, lo, n) == Between(s, lo + 1, n);
      }
    }
  }

  /** Indexing and slicing past the head of `[x] + t`. */
  lemma ConsShift(x: nat, t: seq<nat>, k: nat)
    requires 0 < k <= |t|
    ensures ([x] + t)[k] == t[k - 1]
    ensures ([x] + t)[k + 1..] == t[k..]
  {
  }

  /** What follows the `k`-th member is the enumeration from just above it. */
  lemma {:induction false} AscendingSuffix(s: set<nat>, lo: nat, n: nat, k: nat)
    requires k < |Ascending(s, lo, n)|
    ensures Ascending(s, Ascending(s, lo, n)[k] + 1, n) == Ascending(s, lo, n)[k + 1..]
    decreases n - lo
  {
    var a' := Ascending(s, lo + 1, n);
    if lo in s {
      if k > 0 {
        AscendingSuffix(s, lo + 1, n, k - 1);
        ConsShift(lo, a', k);
      } else {
        assert ([lo] + a')[1..] == a';
      }
    } else {
      AscendingSuffix(s, lo + 1, n, k);
    }
  }

  /** The live rows, in the order of the active row list. */
  function RowList(m: Matrix): (l: seq<nat>)
    requires Valid(m)
    ensures forall r :: r in l <==> r in m.rows
  {
    AscendingElements(m.rows, 0, m.rowSize);
    Ascending(m.rows, 0, m.rowSize)
  }

  /** The live columns, in the order of the active column list. */
  function ColList(m: Matrix): (l: seq<nat>)
    requires Valid(m)
    ensures forall c :: c in l <==> c in m.cols
  {
    AscendingElements(m.cols, 0, m.colSize);
    Ascending(m.cols, 0, m.colSize)
  }

  /** `row_num()`: the counter equals the length of the active row list. */
  function RowNum(m: Matrix): (k: nat)
    requires Valid(m)
    ensures k == |RowList(m)| == |m.rows|
  {
    AscendingCard(m.rows, 0, m.rowSize);
    assert Between(m.rows, 0, m.rowSize) == m.rows;
    m.rowNum
  }

  /** `col_num()`: the counter equals the length of the active column list. */
  function ColNum(m: Matrix): (k: nat)
    requires Valid(m)
    ensures k == |ColList(m)| == |m.cols|
  {
    AscendingCard(m.cols, 0, m.colSize);
    assert Between(m.cols, 0, m.colSize) == m.cols;
    m.colNum
  }

  function FirstOf(l: seq<nat>): Ref {
    if l == [] then Head else At(l[0])
  }

  function LastOf(l: seq<nat>): Ref {
    if l == [] then Head else At(l[|l| - 1])
  }

  /** The `next` link of a node in the cyclic list over the live members of
      `s` below `n`; the head's next is the first member. */
  function Next(s: set<nat>, n: nat, h: Ref): Ref {
    match h
    case Head => FirstOf(Ascending(s, 0, n))
    case At(p) => FirstOf(Ascending(s, p + 1, n))
  }

  /** The node reached from `h` after `k` steps along `next` links. */
  function Walk(s: set<nat>, n: nat, h: Ref, k: nat): Ref {
    if k == 0 then h else Next(s, n, Walk(s, n, h, k - 1))
  }

  /** Following `next` from the sentinel visits the live members in order and
      comes back to the sentinel after exactly one step per member: step `k + 1`
      reaches the `k`-th member, and step `|l| + 1` (where `l[|l|..]` is empty)
      reaches the sentinel again, so a loop
      `for (p = front(); !is_end(p); p = p->next())` sees the whole list. */
  lemma {:induction false} WalkVisitsList(s: set<nat>, n: nat, k: nat)
    requires k <= |Ascending(s, 0, n)|
    ensures Walk(s, n, Head, k + 1) == FirstOf(Ascending(s, 0, n)[k..])
  {
    var l := Ascending(s, 0, n);
    if k > 0 {
      WalkVisitsList(s, n, k - 1);
      AscendingSuffix(s, 0, n, k - 1);
    } else {
      assert l[0..] == l;
    }
  }

  /** `is_row_end` / `is_col_end`: only the sentinel ends a list. */
  function IsEnd(h: Ref): bool {
    h.Head?
  }

  /** The loop `for (p = front(); !is_end(p); p = p->next())` stops exactly
      when every member has been visited: among the first `|l| + 1` steps from
      the sentinel, `is_end` holds only at the last one. */
  lemma WalkEnds(s: set<nat>, n: nat, k: nat)
    requires k <= |Ascending(s, 0, n)|
    ensures IsEnd(Walk(s, n, Head, k + 1)) <==> k == |Ascending(s, 0, n)|
  {
    WalkVisitsList(s, n, k);
  }

  /** `row_front()`: the sentinel's next -- the smallest live row, or the
      sentinel itself when no row is live. */
  function RowFront(m: Matrix): (h: Ref)
    requires Valid(m)
    ensures IsEnd(h) <==> RowNum(m) == 0
    ensures h.At? ==> h.pos in m.rows && forall r :: r in m.rows ==> h.pos <= r
    ensures h == Next(m.rows, m.rowSize, Head)
  {
    AscendingSorted(m.rows, 0, m.rowSize);
    FirstOf(RowList(m))
  }

  /** `row_back()`: the sentinel's prev -- the largest live row. */
  function RowBack(m: Matrix): (h: Ref)
    requires Valid(m)
    ensures IsEnd(h) <==> RowNum(m) == 0
    ensures h.At? ==> h.pos in m.rows && forall r :: r in m.rows ==> r <= h.pos
  {
    var l := RowList(m);
    AscendingSorted(m.rows, 0, m.rowSize);
    assert forall i :: 0 <= i < |l| ==> l[i] <= LastOf(l).pos by {
      if l != [] {
        forall i | 0 <= i < |l| ensures l[i] <= l[|l| - 1] {
          if i < |l| - 1 {
            assert l[i] < l[|l| - 1];
          }
        }
      }
    }
    LastOf(l)
  }

  /** `col_front()`: the smallest live column, or the sentinel. */
  function ColFront(m: Matrix): (h: Ref)
    requires Valid(m)
    ensures IsEnd(h) <==> ColNum(m) == 0
    ensures h.At? ==> h.pos in m.cols && forall c :: c in m.cols ==> h.pos <= c
    ensures h == Next(m.cols, m.colSize, Head)
  {
    AscendingSorted(m.cols, 0, m.colSize);
    FirstOf(ColList(m))
  }

  /** `col_back()`: the largest live column, or the sentinel. */
  function ColBack(m: Matrix): (h: Ref)
    requires Valid(m)
    ensures IsEnd(h) <==> ColNum(m) == 0
    ensures h.At? ==> h.pos in m.cols && forall c :: c in m.cols ==> c <= h.pos
  {
    var l := ColList(m);
    AscendingSorted(m.cols, 0, m.colSize);
    assert forall i :: 0 <= i < |l| ==> l[i] <= LastOf(l).pos by {
      if l != [] {
        forall i | 0 <= i < |l| ensures l[i] <= l[|l| - 1] {
          if i < |l| - 1 {
            assert l[i] < l[|l| - 1];
          }
        }
      }
    }
    LastOf(l)
  }

  /** The columns of the live cells of row `r`, in row-list order. */
  function RowCols(m: Matrix, r: nat): (l: seq<nat>)
    requires Valid(m)
    ensures forall c :: c in l <==> c in m.cols && (r, c) in m.cells
  {
    AscendingElements(set c | c in m.cols && (r, c) in m.cells, 0, m.colSize);
    Ascending(set c | c in m.cols && (r, c) in m.cells, 0, m.colSize)
  }

  /** A row's cells are listed by increasing column. */
  lemma RowColsSorted(m: Matrix, r: nat)
    requires Valid(m)
    ensures forall i, j :: 0 <= i < j < |RowCols(m, r)| ==> RowCols(m, r)[i] < RowCols(m, r)[j]
  {
    AscendingSorted(set c | c in m.cols && (r, c) in m.cells, 0, m.colSize);
  }

  // ---------------------------------------------------------------------
  // Costs and covers

  predicate InRange(m: Matrix, cols: seq<nat>) {
    forall i :: 0 <= i < |cols| ==> cols[i] < |m.cost|
  }

  /** `cost(col_list)`: the sum of the listed columns' costs. */
  function Cost(m: Matrix, cols: seq<nat>): int
    requires InRange(m, cols)
  {
    if cols == [] then 0 else m.cost[cols[0]] + Cost(m, cols[1..])
  }

  /** The cost of a concatenation is the sum of the costs. */
  lemma {:induction false} CostAppend(m: Matrix, a: seq<nat>, b: seq<nat>)
    requires InRange(m, a) && InRange(m, b)
    ensures InRange(m, a + b)
    ensures Cost(m, a + b) == Cost(m, a) + Cost(m, b)
  {
    if a != [] {
      assert (a + b)[0] == a[0];
      assert (a + b)[1..] == a[1..] + b;
      CostAppend(m, a[1..], b);
    } else {
      assert a + b == b;
    }
  }

  /** `col_cost(col_pos)`: the cost of one column, that is the cost of the
      one-column list. */
  function ColCost(m: Matrix, c: nat): (k: int)
    requires Valid(m) && c < m.colSize
    ensures k == Cost(m, [c])
  {
    m.cost[c]
  }

  /** Every row of `rows` has a cell in some listed column. */
  ghost predicate Covers(m: Matrix, rows: set<nat>, cols: seq<nat>) {
    forall r :: r in rows ==> exists c :: c in cols && (r, c) in m.cells
  }

  /** Scans the list for a column with a cell in row `r`. */
  method RowCovered(m: Matrix, r: nat, cols: seq<nat>) returns (found: bool)
    ensures found <==> exists c :: c in cols && (r, c) in m.cells
  {
    found := false;
    var j := 0;
    while j < |cols| && !found
      invariant 0 <= j <= |cols|
      invariant found <==> exists k :: 0 <= k < j && (r, cols[k]) in m.cells
    {
      found := (r, cols[j]) in m.cells;
      j := j + 1;
    }
    if found {
      var k :| 0 <= k < j && (r, cols[k]) in m.cells;
      assert cols[k] in cols;
    }
  }

  /** `verify(col_list)`: true exactly when the list covers every live row. */
  method Verify(m: Matrix, cols: seq<nat>) returns (ok: bool)
    requires Valid(m)
    ensures ok <==> Covers(m, m.rows, cols)
  {
    var l := RowList(m);
    ok := true;
    var i := 0;
    while i < |l| && ok
      invariant 0 <= i <= |l|
      invariant ok ==> forall k :: 0 <= k < i ==> exists c :: c in cols && (l[k], c) in m.cells
      invariant !ok ==> 0 < i && !(exists c :: c in cols && (l[i - 1], c) in m.cells)
    {
      ok := RowCovered(m, l[i], cols);
      i := i + 1;
    }
    if ok {
      forall r | r in m.rows ensures exists c :: c in cols && (r, c) in m.cells {
        var k :| 0 <= k < |l| && l[k] == r;
      }
    }
  }

  // ---------------------------------------------------------------------
  // Construction and deletion

  /** The constructor: the given sizes and costs, no cells, nothing live. */
  function New(rowSize: nat, colSize: nat, cost: seq<int>): (m: Matrix)
    requires |cost| == colSize
    ensures Valid(m)
    ensures RowNum(m) == 0 && ColNum(m) == 0 && CellsInRange(m)
    ensures m.rowSize == rowSize && m.colSize == colSize && m.cost == cost
    ensures forall r, c :: (r, c) !in m.cells
  {
    Matrix(rowSize, colSize, cost, Grid({}), {}, {}, 0, 0)
  }

  /** `insert_elem(row_pos, col_pos)`: adds the cell and links its row and its
      column into the active lists; inserting the same cell twice changes
      nothing more. */
  function InsertElem(m: Matrix, r: nat, c: nat): (m': Matrix)
    requires Valid(m) && r < m.rowSize && c < m.colSize
    ensures Valid(m')
    ensures m'.cells == m.cells + {(r, c)}
    ensures CellsInRange(m) ==> CellsInRange(m')
    ensures m'.rows == m.rows + {r} && m'.cols == m.cols + {c}
    ensures m'.rowSize == m.rowSize && m'.colSize == m.colSize && m'.cost == m.cost
  {
    assert r in m.rows ==> m.rows + {r} == m.rows;
    assert c in m.cols ==> m.cols + {c} == m.cols;
    m.(grid := Grid(m.cells + {(r, c)}),
       rows := m.rows + {r},
       cols := m.cols + {c},
       rowNum := if r in m.rows then m.rowNum else m.rowNum + 1,
       colNum := if c in m.cols then m.colNum else m.colNum + 1)
  }

  /** Inserting the same cell twice changes nothing more. */
  lemma InsertElemIdempotent(m: Matrix, r: nat, c: nat)
    requires Valid(m) && r < m.rowSize && c < m.colSize
    ensures InsertElem(InsertElem(m, r, c), r, c) == InsertElem(m, r, c)
  {
    var m1 := InsertElem(m, r, c);
    assert m1.cells + {(r, c)} == m1.cells;
    assert m1.rows + {r} == m1.rows;
    assert m1.cols + {c} == m1.cols;
  }

  /** `delete_row`: unlinks one live row; the counter drops by one. */
  function DeleteRow(m: Matrix, r: nat): (m': Matrix)
    requires Valid(m) && r in m.rows
    ensures Valid(m')
    ensures m'.rows == m.rows - {r}
    ensures RowNum(m') == RowNum(m) - 1
    ensures m' == m.(rows := m'.rows, rowNum := m'.rowNum)
  {
    m.(rows := m.rows - {r}, rowNum := m.rowNum - 1)
  }

  /** `delete_col`: unlinks one live column; the counter drops by one. */
  function DeleteCol(m: Matrix, c: nat): (m': Matrix)
    requires Valid(m) && c in m.cols
    ensures Valid(m')
    ensures m'.cols == m.cols - {c}
    ensures ColNum(m') == ColNum(m) - 1
    ensures m' == m.(cols := m'.cols, colNum := m'.colNum)
  {
    m.(cols := m.cols - {c}, colNum := m.colNum - 1)
  }

  /** `restore_row`: links a deleted row back; the counter grows by one. */
  function RestoreRow(m: Matrix, r: nat): (m': Matrix)
    requires Valid(m) && r < m.rowSize && r !in m.rows
    ensures Valid(m')
    ensures m'.rows == m.rows + {r}
    ensures RowNum(m') == RowNum(m) + 1
    ensures m' == m.(rows := m'.rows, rowNum := m'.rowNum)
  {
    m.(rows := m.rows + {r}, rowNum := m.rowNum + 1)
  }

  /** `restore_col`: links a deleted column back; the counter grows by one. */
  function RestoreCol(m: Matrix, c: nat): (m': Matrix)
    requires Valid(m) && c < m.colSize && c !in m.cols
    ensures Valid(m')
    ensures m'.cols == m.cols + {c}
    ensures ColNum(m') == ColNum(m) + 1
    ensures m' == m.(cols := m'.cols, colNum := m'.colNum)
  {
    m.(cols := m.cols + {c}, colNum := m.colNum + 1)
  }

  /** Restoring a row right after deleting it gives back the same matrix. */
  lemma RestoreRowUndoesDelete(m: Matrix, r: nat)
    requires Valid(m) && r in m.rows
    ensures RestoreRow(DeleteRow(m, r), r) == m
  {
    assert m.rows - {r} + {r} == m.rows;
  }

  /** Restoring a column right after deleting it gives back the same matrix. */
  lemma RestoreColUndoesDelete(m: Matrix, c: nat)
    requires Valid(m) && c in m.cols
    ensures RestoreCol(DeleteCol(m, c), c) == m
  {
    assert m.cols - {c} + {c} == m.cols;
  }

  function Elems(l: seq<nat>): set<nat> {
    set x | x in l
  }

  /** Only the live rows and their counter may differ. */
  predicate SameButRows(m: Matrix, m': Matrix) {
    && m'.rowSize == m.rowSize && m'.colSize == m.colSize
    && m'.cost == m.cost && m'.grid == m.grid
    && m'.cols == m.cols && m'.colNum == m.colNum
  }

  predicate Distinct(l: seq<nat>) {
    forall i, j :: 0 <= i < j < |l| ==> l[i] != l[j]
  }

  /** Deletes the listed rows one after the other. */
  function DeleteRows(m: Matrix, l: seq<nat>): (m': Matrix)
    requires Valid(m)
    requires Elems(l) <= m.rows && Distinct(l)
    ensures Valid(m')
    ensures m'.rows == m.rows - Elems(l)
    ensures SameButRows(m, m')
    decreases |l|
  {
    if l == [] then m
    else
      var m1 := DeleteRow(m, l[0]);
      DeleteRowsTail(m, l);
      DeleteRows(m1, l[1..])
  }

  lemma DeleteRowsTail(m: Matrix, l: seq<nat>)
    requires Valid(m)
    requires l != [] && Elems(l) <= m.rows && Distinct(l)
    ensures Elems(l[1..]) <= DeleteRow(m, l[0]).rows && Distinct(l[1..])
    ensures Elems(l) == {l[0]} + Elems(l[1..])
    ensures m.rows - Elems(l) == DeleteRow(m, l[0]).rows - Elems(l[1..])
  {
    forall x | x in Elems(l[1..]) ensures x in DeleteRow(m, l[0]).rows {
      var i :| 0 <= i < |l[1..]| && l[1..][i] == x;
      assert l[i + 1] == x && l[i + 1] != l[0];
    }
    assert l == [l[0]] + l[1..];
  }

  /** The live rows that have a cell in column `c`. */
  function CoveredRows(m: Matrix, c: nat): set<nat> {
    set r | r in m.rows && (r, c) in m.cells
  }

  /** `select_col(col_pos)`: every live row covered by the column is
      deleted; columns, cells and costs stay as they are.  The row-by-row
      order of the deletions is `SelectColDeletesInOrder`. */
  function SelectCol(m: Matrix, c: nat): (m': Matrix)
    requires Valid(m) && c < m.colSize
    ensures Valid(m')
    ensures m'.rows == m.rows - CoveredRows(m, c)
    ensures forall r :: r in m'.rows ==> (r, c) !in m'.cells
    ensures SameButRows(m, m')
    ensures CoveredRows(m, c) != {} ==> RowNum(m') < RowNum(m)
  {
    var covered := CoveredRows(m, c);
    var left := m.rows - covered;
    assert m.rows == left + covered && left !! covered;
    m.(rows := left, rowNum := m.rowNum - |covered|)
  }

  /** Selecting a column is deleting its covered live rows one at a time, in
      ascending order. */
  lemma SelectColDeletesInOrder(m: Matrix, c: nat)
    requires Valid(m) && c < m.colSize
    ensures Elems(Ascending(CoveredRows(m, c), 0, m.rowSize)) <= m.rows
    ensures Distinct(Ascending(CoveredRows(m, c), 0, m.rowSize))
    ensures SelectCol(m, c) == DeleteRows(m, Ascending(CoveredRows(m, c), 0, m.rowSize))
  {
    SelectColList(m, c);
  }

  lemma SelectColList(m: Matrix, c: nat)
    requires Valid(m)
    ensures Elems(Ascending(CoveredRows(m, c), 0, m.rowSize)) == CoveredRows(m, c)
    ensures Distinct(Ascending(CoveredRows(m, c), 0, m.rowSize))
  {
    var covered := CoveredRows(m, c);
    AscendingElements(covered, 0, m.rowSize);
    AscendingSorted(covered, 0, m.rowSize);
  }

  // ---------------------------------------------------------------------
  // Block partition

  /** The contract of a successful `block_partition`: the live rows and the
      live columns each split into two disjoint, non-empty groups, and no live
      cell joins a row of one block to a column of the other. */
  ghost predicate IsBlockPartition(m: Matrix, r1: set<nat>, r2: set<nat>, c1: set<nat>, c2: set<nat>) {
    && r1 !! r2 && r1 + r2 == m.rows && r1 != {} && r2 != {}
    && c1 !! c2 && c1 + c2 == m.cols
    && forall r, c :: (r, c) in m.cells && r in m.rows && c in m.cols ==> (r in r1 <==> c in c1)
  }

  /** The columns of `cols` that belong to `keep`, in their original order. */
  function Only(cols: seq<nat>, keep: set<nat>): (l: seq<nat>)
    ensures forall i :: 0 <= i < |l| ==> l[i] in keep
  {
    if cols == [] then []
    else (if cols[0] in keep then [cols[0]] else []) + Only(cols[1..], keep)
  }

  lemma {:induction false} OnlyMembers(cols: seq<nat>, keep: set<nat>)
    ensures forall x :: x in Only(cols, keep) <==> x in cols && x in keep
  {
    if cols != [] {
      OnlyMembers(cols[1..], keep);
      assert cols == [cols[0]] + cols[1..];
    }
  }

  lemma {:induction false} OnlyInRange(m: Matrix, cols: seq<nat>, keep: set<nat>)
    requires InRange(m, cols)
    ensures InRange(m, Only(cols, keep))
  {
    if cols != [] {
      OnlyInRange(m, cols[1..], keep);
    }
  }

  /** The cost of the kept columns, one column at a time. */
  lemma OnlyCostStep(m: Matrix, cols: seq<nat>, keep: set<nat>)
    requires InRange(m, cols) && cols != []
    ensures InRange(m, Only(cols, keep)) && InRange(m, Only(cols[1..], keep))
    ensures Cost(m, Only(cols, keep))
      == (if cols[0] in keep then m.cost[cols[0]] else 0) + Cost(m, Only(cols[1..], keep))
  {
    OnlyInRange(m, cols, keep);
    OnlyInRange(m, cols[1..], keep);
    var h: seq<nat> := if cols[0] in keep then [cols[0]] else [];
    assert Only(cols, keep) == h + Only(cols[1..], keep);
    CostAppend(m, h, Only(cols[1..], keep));
  }

  /** Splitting the solution by block splits its cost. */
  lemma {:induction false} CostSplits(m: Matrix, cols: seq<nat>, k1: set<nat>, k2: set<nat>)
    requires InRange(m, cols)
    requires k1 !! k2
    requires forall i :: 0 <= i < |cols| ==> cols[i] in k1 + k2
    ensures InRange(m, Only(cols, k1)) && InRange(m, Only(cols, k2))
    ensures Cost(m, cols) == Cost(m, Only(cols, k1)) + Cost(m, Only(cols, k2))
  {
    OnlyInRange(m, cols, k1);
    OnlyInRange(m, cols, k2);
    if cols != [] {
      var t := cols[1..];
      assert forall i :: 0 <= i < |t| ==> t[i] in k1 + k2 by {
        forall i | 0 <= i < |t| ensures t[i] in k1 + k2 {
          assert t[i] == cols[i + 1];
        }
      }
      CostSplits(m, t, k1, k2);
      OnlyCostStep(m, cols, k1);
      OnlyCostStep(m, cols, k2);
    }
  }

  /** Once the live part of the matrix splits into two blocks, a list of live
      columns covers the matrix exactly when its first-block columns cover the
      first block and its second-block columns cover the second, and its cost
      is the sum of the two parts' costs: the blocks can be solved apart. */
  lemma BlockCoverSplits(m: Matrix, r1: set<nat>, r2: set<nat>, c1: set<nat>, c2: set<nat>, cols: seq<nat>)
    requires Valid(m)
    requires IsBlockPartition(m, r1, r2, c1, c2)
    requires forall i :: 0 <= i < |cols| ==> cols[i] in m.cols
    ensures Covers(m, m.rows, cols) <==> Covers(m, r1, Only(cols, c1)) && Covers(m, r2, Only(cols, c2))
    ensures InRange(m, cols)
    ensures Cost(m, cols) == Cost(m, Only(cols, c1)) + Cost(m, Only(cols, c2))
  {
    OnlyMembers(cols, c1);
    OnlyMembers(cols, c2);
    if Covers(m, m.rows, cols) {
      forall r | r in r1 ensures exists c :: c in Only(cols, c1) && (r, c) in m.cells {
        var c :| c in cols && (r, c) in m.cells;
        assert c in Only(cols, c1);
      }
      forall r | r in r2 ensures exists c :: c in Only(cols, c2) && (r, c) in m.cells {
        var c :| c in cols && (r, c) in m.cells;
        assert c !in c1;
        assert c in Only(cols, c2);
      }
    }
    if Covers(m, r1, Only(cols, c1)) && Covers(m, r2, Only(cols, c2)) {
      forall r | r in m.rows ensures exists c :: c in cols && (r, c) in m.cells {
        if r in r1 {
          var c :| c in Only(cols, c1) && (r, c) in m.cells;
        } else {
          var c :| c in Only(cols, c2) && (r, c) in m.cells;
        }
      }
    }
    CostSplits(m, cols, c1, c2);
  }
}
