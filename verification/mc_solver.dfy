/** The heuristic driver of the covering solver: problem set-up with unit
    costs, dispatch on the algorithm name, the greedy loop and the best of a
    fixed number of random trials.  The matrix simplification (`reduce`) and
    the column selector are opaque functions with the contracts stated below;
    the random generator is the sequence of its draws. */
module McSolver {
  import opened CoverMatrix
  import Sets

  /** The number of random trials (`count_limit`). */
  const TrialCount: nat := 1000

  /** `reduce(selected_cols)`: the simplified matrix and the columns it chose,
      in the order they are appended to the solution. */
  type Reducer = Matrix -> (Matrix, seq<nat>)

  /** The branching selector: a column for a matrix with live rows. */
  type Selector = Matrix -> nat

  /** The generator's draws: `rand(k)` is the value of the `k`-th call to
      `int32()` on a freshly made generator. */
  type Draws = nat -> nat

  datatype Algorithm = Greedy | Random | Mct

  /** `set_size`: a matrix of the given size with every column cost 1 and
      nothing inserted yet. */
  function SetSize(rowSize: nat, colSize: nat): (m: Matrix)
    ensures Valid(m) && m.rowSize == rowSize && m.colSize == colSize
    ensures forall c :: 0 <= c < colSize ==> m.cost[c] == 1
    ensures RowNum(m) == 0 && ColNum(m) == 0 && m.cells == {}
  {
    New(rowSize, colSize, seq(colSize, _ => 1))
  }

  /** `set_col_cost`: only the cost of column `c` changes. */
  function SetColCost(m: Matrix, c: nat, k: int): (m': Matrix)
    requires Valid(m) && c < m.colSize
    ensures Valid(m') && |m'.cost| == |m.cost|
    ensures m'.cost[c] == k
    ensures forall d :: 0 <= d < |m.cost| && d != c ==> m'.cost[d] == m.cost[d]
    ensures m' == m.(cost := m'.cost)
  {
    m.(cost := m.cost[c := k])
  }

  /** The dispatch of `heuristic`: `"greedy"`, `"random"` and `"MCT"` are
      recognised, and any other name falls back to greedy. */
  function ParseAlgorithm(name: string): (a: Algorithm)
    ensures a == Random <==> name == "random"
    ensures a == Mct <==> name == "MCT"
    ensures a == Greedy <==> name != "random" && name != "MCT"
  {
    if name == "greedy" then Greedy
    else if name == "random" then Random
    else if name == "MCT" then Mct
    else Greedy
  }

  // ---------------------------------------------------------------------
  // What the solver relies on from the matrix operations it cannot see

  /** Every live row has a cell in some live column. */
  ghost predicate Coverable(m: Matrix) {
    forall r :: r in m.rows ==> exists c :: c in m.cols && (r, c) in m.cells
  }

  /** A fresh matrix (as `set_size` makes it) has no live row, so it is
      coverable. */
  lemma NewCoverable(rowSize: nat, colSize: nat, cost: seq<int>)
    requires |cost| == colSize
    ensures Coverable(New(rowSize, colSize, cost))
  {
  }

  /** `insert_elem` keeps a matrix coverable: the inserted cell's column
      covers its row, and live columns stay live.  So every matrix built by
      `set_size` and `insert_elem` meets the solver's `Coverable`. */
  lemma InsertElemKeepsCoverable(m: Matrix, r: nat, c: nat)
    requires Valid(m) && r < m.rowSize && c < m.colSize
    requires Coverable(m)
    ensures Coverable(InsertElem(m, r, c))
  {
    var m' := InsertElem(m, r, c);
    forall r' | r' in m'.rows ensures exists c' :: c' in m'.cols && (r', c') in m'.cells {
      if r' == r {
        assert c in m'.cols && (r, c) in m'.cells;
      } else {
        var c' :| c' in m.cols && (r', c') in m.cells;
        assert c' in m'.cols && (r', c') in m'.cells;
      }
    }
  }

  /** One call of `reduce` on `m` giving `m'` and the columns `sel`: sizes,
      costs and cells stay, rows are only removed, the chosen columns exist,
      and a coverable matrix stays coverable. */
  ghost predicate ReduceKeeps(m: Matrix, m': Matrix, sel: seq<nat>) {
    && Valid(m')
    && m'.rowSize == m.rowSize && m'.colSize == m.colSize
    && m'.cost == m.cost && m'.grid == m.grid
    && m'.rows <= m.rows
    && (forall i :: 0 <= i < |sel| ==> sel[i] < m.colSize)
    && (Coverable(m) ==> Coverable(m'))
  }

  /** Every listed column is live in `m`. */
  predicate Live(m: Matrix, cols: seq<nat>) {
    forall i :: 0 <= i < |cols| ==> cols[i] in m.cols
  }

  /** `reduce` only deletes columns, and the columns it chooses are live. */
  ghost predicate ReduceLive(m: Matrix, m': Matrix, sel: seq<nat>) {
    m'.cols <= m.cols && Live(m, sel)
  }

  /** The soundness of one call of `reduce`: any cover of what is left that
      uses only columns still live, after the chosen columns, covers `m`.
      Row dominance deletes a row only when another live row's live cells
      lie inside it, so a cover by live columns of the kept row covers it;
      column dominance only deletes columns; an essential column covers the
      rows its selection deletes.  A cover through a deleted column carries
      no such guarantee, so it is not quantified over. */
  ghost predicate ReduceSound(m: Matrix, m': Matrix, sel: seq<nat>) {
    forall x: seq<nat> :: Live(m', x) && Covers(m', m'.rows, x) ==> Covers(m, m.rows, sel + x)
  }

  ghost predicate ReducerKeeps(reduce: Reducer) {
    forall m {:trigger reduce(m)} :: Valid(m) ==> ReduceKeeps(m, reduce(m).0, reduce(m).1)
  }

  ghost predicate ReducerLive(reduce: Reducer) {
    forall m {:trigger reduce(m)} :: Valid(m) ==> ReduceLive(m, reduce(m).0, reduce(m).1)
  }

  ghost predicate ReducerSound(reduce: Reducer) {
    forall m {:trigger reduce(m)} :: Valid(m) ==> ReduceSound(m, reduce(m).0, reduce(m).1)
  }

  /** The whole contract of `reduce`. */
  ghost predicate ReducerOk(reduce: Reducer) {
    ReducerKeeps(reduce) && ReducerLive(reduce) && ReducerSound(reduce)
  }

  /** On a coverable matrix with live rows, the selector picks a live column
      that covers at least one of them, so `select_col` makes progress. */
  ghost predicate SelectorOk(select: Selector) {
    forall m {:trigger select(m)} :: Valid(m) && m.rows != {} && Coverable(m) ==>
      select(m) in m.cols && CoveredRows(m, select(m)) != {}
  }

  /** Selecting a column keeps a coverable matrix coverable. */
  lemma SelectColCoverable(m: Matrix, c: nat)
    requires Valid(m) && c < m.colSize && Coverable(m)
    ensures Coverable(SelectCol(m, c))
  {
  }

  /** One round of either heuristic: the chosen column covers the rows
      `select_col` deletes, and `reduce` hands the rest on to the cover of
      what remains; a round of live columns stays live. */
  lemma RoundCovers(m: Matrix, c: nat, m2: Matrix, sel: seq<nat>, rest: seq<nat>)
    requires Valid(m) && c < m.colSize && c in m.cols
    requires ReduceKeeps(SelectCol(m, c), m2, sel) && ReduceLive(SelectCol(m, c), m2, sel)
    requires ReduceSound(SelectCol(m, c), m2, sel)
    requires Live(m2, rest) && Covers(m2, m2.rows, rest)
    ensures Live(m, [c] + sel + rest)
    ensures Covers(m, m.rows, [c] + sel + rest)
  {
    var m1 := SelectCol(m, c);
    assert Covers(m1, m1.rows, sel + rest);
    var l := [c] + sel + rest;
    forall i | 0 <= i < |l| ensures l[i] in m.cols {
      if i == 0 {
      } else if i <= |sel| {
        assert l[i] == sel[i - 1];
      } else {
        assert l[i] == rest[i - 1 - |sel|];
      }
    }
    forall r | r in m.rows ensures exists c' :: c' in l && (r, c') in m.cells {
      if (r, c) in m.cells {
        assert c in l;
      } else {
        assert r in m1.rows;
        var c' :| c' in sel + rest && (r, c') in m1.cells;
        assert c' in l;
      }
    }
  }

  /** The columns of one round are all inside the cost array. */
  lemma RoundInRange(m: Matrix, c: nat, sel: seq<nat>, rest: seq<nat>)
    requires Valid(m) && c < m.colSize
    requires forall i :: 0 <= i < |sel| ==> sel[i] < m.colSize
    requires InRange(m, rest)
    ensures InRange(m, [c] + sel + rest)
  {
    var l := [c] + sel + rest;
    forall i | 0 <= i < |l| ensures l[i] < |m.cost| {
      if i == 0 {
      } else if i <= |sel| {
        assert l[i] == sel[i - 1];
      } else {
        assert l[i] == rest[i - 1 - |sel|];
      }
    }
  }

  /** `reduce` never adds rows, so the number of live rows cannot grow. */
  lemma ReduceShrinks(m: Matrix, m': Matrix, sel: seq<nat>)
    requires ReduceKeeps(m, m', sel)
    ensures |m'.rows| <= |m.rows|
  {
    Sets.SubsetCard(m'.rows, m.rows);
  }

  // ---------------------------------------------------------------------
  // greedy

  /** The columns `greedy` appends: while rows remain, the selector's column,
      then whatever `reduce` chooses. */
  function GreedyRun(m: Matrix, reduce: Reducer, select: Selector): (cols: seq<nat>)
    requires Valid(m) && Coverable(m) && ReducerKeeps(reduce) && SelectorOk(select)
    ensures InRange(m, cols)
    decreases |m.rows|
  {
    if RowNum(m) == 0 then []
    else
      var c := select(m);
      var m1 := SelectCol(m, c);
      SelectColCoverable(m, c);
      var m2 := reduce(m1).0;
      var sel := reduce(m1).1;
      ReduceShrinks(m1, m2, sel);
      var rest := GreedyRun(m2, reduce, select);
      RoundInRange(m, c, sel, rest);
      [c] + sel + rest
  }

  /** The greedy columns are live and cover every live row of the matrix. */
  lemma {:induction false} GreedyRunCovers(m: Matrix, reduce: Reducer, select: Selector)
    requires Valid(m) && Coverable(m) && ReducerOk(reduce) && SelectorOk(select)
    ensures Live(m, GreedyRun(m, reduce, select))
    ensures Covers(m, m.rows, GreedyRun(m, reduce, select))
    decreases |m.rows|
  {
    if RowNum(m) > 0 {
      GreedyStep(m, reduce, select);
      var m2 := reduce(SelectCol(m, select(m))).0;
      GreedyRunCovers(m2, reduce, select);
      RoundCovers(m, select(m), m2, reduce(SelectCol(m, select(m))).1, GreedyRun(m2, reduce, select));
    }
  }

  /** One round of the greedy reference: the selected column, the columns
      `reduce` chose, then the rest of the run on a matrix with fewer rows. */
  lemma GreedyStep(m: Matrix, reduce: Reducer, select: Selector)
    requires Valid(m) && Coverable(m) && ReducerKeeps(reduce) && SelectorOk(select)
    requires RowNum(m) > 0
    ensures select(m) < m.colSize
    ensures var m2 := reduce(SelectCol(m, select(m))).0;
      && Valid(m2) && Coverable(m2) && |m2.rows| < |m.rows|
      && GreedyRun(m, reduce, select)
         == [select(m)] + reduce(SelectCol(m, select(m))).1 + GreedyRun(m2, reduce, select)
  {
    var m1 := SelectCol(m, select(m));
    SelectColCoverable(m, select(m));
    ReduceShrinks(m1, reduce(m1).0, reduce(m1).1);
  }

  lemma AppendAssoc(a: seq<nat>, b: seq<nat>, c: seq<nat>)
    ensures a + (b + c) == (a + b) + c
  {
  }

  /** `greedy(matrix, solution)`: appends the greedy columns to `sol`. */
  method GreedyLoop(m: Matrix, sol: seq<nat>, reduce: Reducer, select: Selector) returns (sol': seq<nat>)
    requires Valid(m) && Coverable(m) && ReducerKeeps(reduce) && SelectorOk(select)
    ensures sol' == sol + GreedyRun(m, reduce, select)
  {
    var cur := m;
    sol' := sol;
    while RowNum(cur) > 0
      invariant Valid(cur) && Coverable(cur)
      invariant sol' + GreedyRun(cur, reduce, select) == sol + GreedyRun(m, reduce, select)
      decreases |cur.rows|
    {
      GreedyStep(cur, reduce, select);
      var c := select(cur);
      var r := reduce(SelectCol(cur, c));
      AppendAssoc(sol', [c] + r.1, GreedyRun(r.0, reduce, select));
      sol' := sol' + ([c] + r.1);
      cur := r.0;
    }
  }

  // ---------------------------------------------------------------------
  // random

  /** The `(d mod n)`-th column of row `r`'s live cells, `n` being their
      number: the walk of a random trial along the front row. */
  method PickCell(m: Matrix, r: nat, d: nat) returns (col: nat)
    requires Valid(m) && RowCols(m, r) != []
    ensures col == RowCols(m, r)[d % |RowCols(m, r)|]
    ensures col in m.cols && (r, col) in m.cells
    ensures Coverable(m) && RowNum(m) > 0 && r == RowList(m)[0] ==> col == Pick(m, d)
  {
    var cells := RowCols(m, r);
    var n := |cells|;
    var idx := d % n;
    col := 0;
    var k := 0;
    while k < n
      invariant 0 <= k <= d % n
      invariant idx == d % n - k
    {
      if idx == 0 {
        col := cells[k];
        break;
      }
      k := k + 1;
      idx := idx - 1;
    }
  }

  /** A live row of a coverable matrix has at least one live cell. */
  lemma RowHasCell(m: Matrix, r: nat)
    requires Valid(m) && Coverable(m) && r in m.rows
    ensures RowCols(m, r) != []
  {
    var c :| c in m.cols && (r, c) in m.cells;
    assert c in RowCols(m, r);
  }

  /** The column a random trial selects on `m` with draw `d`: that of the
      `(d mod n)`-th live cell of the front row (the first of the row list),
      `n` being their number.  It is a live column covering the front row. */
  function Pick(m: Matrix, d: nat): (c: nat)
    requires Valid(m) && Coverable(m) && RowNum(m) > 0
    ensures c < m.colSize && c in m.cols
    ensures RowList(m)[0] in CoveredRows(m, c)
  {
    var r := RowList(m)[0];
    RowHasCell(m, r);
    var cells := RowCols(m, r);
    var c := cells[d % |cells|];
    assert r in CoveredRows(m, c);
    c
  }

  /** `row_front()` of a matrix with live rows is the first of its row list. */
  lemma FrontIsFirst(m: Matrix)
    requires Valid(m) && RowNum(m) > 0
    ensures RowFront(m).At? && RowFront(m).pos == RowList(m)[0]
  {
  }

  /** The pick of one round of a trial: a cell of `row_front()`, chosen by
      the draw `d`. */
  method PickFront(m: Matrix, d: nat) returns (col: nat)
    requires Valid(m) && Coverable(m) && RowNum(m) > 0
    ensures col == Pick(m, d)
  {
    FrontIsFirst(m);
    var r := RowFront(m).pos;
    RowHasCell(m, r);
    col := PickCell(m, r, d);
  }

  /** One random trial starting at draw `k`: its columns and the index of the
      next unused draw.  A trial on a matrix without live rows is empty;
      otherwise it is a round followed by the rest of the trial. */
  function Trial(m: Matrix, reduce: Reducer, rand: Draws, k: nat): (res: (seq<nat>, nat))
    requires Valid(m) && Coverable(m) && ReducerKeeps(reduce)
    ensures InRange(m, res.0)
    decreases |m.rows|, 1
  {
    if RowNum(m) == 0 then ([], k) else Round(m, reduce, rand, k)
  }

  /** A round of a trial with draw `k`: the picked column, the columns
      `reduce` chose after selecting it, then the trial from draw `k + 1` on
      what `reduce` left. */
  function Round(m: Matrix, reduce: Reducer, rand: Draws, k: nat): (res: (seq<nat>, nat))
    requires Valid(m) && Coverable(m) && ReducerKeeps(reduce) && RowNum(m) > 0
    ensures InRange(m, res.0)
    decreases |m.rows|, 0
  {
    var c := Pick(m, rand(k));
    var m1 := SelectCol(m, c);
    SelectColCoverable(m, c);
    var m2 := reduce(m1).0;
    var sel := reduce(m1).1;
    ReduceShrinks(m1, m2, sel);
    var next := Trial(m2, reduce, rand, k + 1);
    RoundInRange(m, c, sel, next.0);
    ([c] + sel + next.0, next.1)
  }

  /** One round of a random trial: the picked column, the columns `reduce`
      chose, then the rest of the trial from draw `k + 1` on a matrix with
      fewer rows. */
  lemma TrialStep(m: Matrix, reduce: Reducer, rand: Draws, k: nat)
    requires Valid(m) && Coverable(m) && ReducerKeeps(reduce)
    requires RowNum(m) > 0
    ensures var m2 := reduce(SelectCol(m, Pick(m, rand(k)))).0;
      && Valid(m2) && Coverable(m2) && |m2.rows| < |m.rows|
      && Trial(m, reduce, rand, k).0
         == [Pick(m, rand(k))] + reduce(SelectCol(m, Pick(m, rand(k)))).1 + Trial(m2, reduce, rand, k + 1).0
      && Trial(m, reduce, rand, k).1 == Trial(m2, reduce, rand, k + 1).1
  {
    var m1 := SelectCol(m, Pick(m, rand(k)));
    SelectColCoverable(m, Pick(m, rand(k)));
    ReduceShrinks(m1, reduce(m1).0, reduce(m1).1);
  }

  /** A trial's columns are live and cover every live row of the matrix. */
  lemma {:induction false} TrialCovers(m: Matrix, reduce: Reducer, rand: Draws, k: nat)
    requires Valid(m) && Coverable(m) && ReducerOk(reduce)
    ensures Live(m, Trial(m, reduce, rand, k).0)
    ensures Covers(m, m.rows, Trial(m, reduce, rand, k).0)
    decreases |m.rows|
  {
    if RowNum(m) > 0 {
      TrialStep(m, reduce, rand, k);
      var c := Pick(m, rand(k));
      var m2 := reduce(SelectCol(m, c)).0;
      TrialCovers(m2, reduce, rand, k + 1);
      RoundCovers(m, c, m2, reduce(SelectCol(m, c)).1, Trial(m2, reduce, rand, k + 1).0);
    }
  }

  /** The loop of a trial after one more round: what is collected so far,
      followed by the rest of the trial, is still the whole trial. */
  lemma RunTrialStep(m: Matrix, reduce: Reducer, rand: Draws, k: nat, cur: Matrix, cols: seq<nat>, k': nat,
                     c: nat, red: (Matrix, seq<nat>))
    requires Valid(m) && Coverable(m) && ReducerKeeps(reduce)
    requires Valid(cur) && Coverable(cur) && RowNum(cur) > 0
    requires cols + Trial(cur, reduce, rand, k').0 == Trial(m, reduce, rand, k).0
    requires Trial(cur, reduce, rand, k').1 == Trial(m, reduce, rand, k).1
    requires c == Pick(cur, rand(k')) && red == reduce(SelectCol(cur, c))
    ensures Valid(red.0) && Coverable(red.0) && |red.0.rows| < |cur.rows|
    ensures (cols + ([c] + red.1)) + Trial(red.0, reduce, rand, k' + 1).0 == Trial(m, reduce, rand, k).0
    ensures Trial(red.0, reduce, rand, k' + 1).1 == Trial(m, reduce, rand, k).1
  {
    TrialStep(cur, reduce, rand, k');
    AppendAssoc(cols, [c] + red.1, Trial(red.0, reduce, rand, k' + 1).0);
  }

  /** One trial of `random`: while rows remain, picks a cell of the front row
      with the next draw, selects its column and reduces. */
  method RunTrial(m: Matrix, reduce: Reducer, rand: Draws, k: nat) returns (cols: seq<nat>, k': nat)
    requires Valid(m) && Coverable(m) && ReducerKeeps(reduce)
    ensures cols == Trial(m, reduce, rand, k).0 && k' == Trial(m, reduce, rand, k).1
  {
    var cur := m;
    cols := [];
    k' := k;
    while RowNum(cur) > 0
      invariant Valid(cur) && Coverable(cur)
      invariant cols + Trial(cur, reduce, rand, k').0 == Trial(m, reduce, rand, k).0
      invariant Trial(cur, reduce, rand, k').1 == Trial(m, reduce, rand, k).1
      decreases |cur.rows|
    {
      var c := PickFront(cur, rand(k'));
      var red := reduce(SelectCol(cur, c));
      RunTrialStep(m, reduce, rand, k, cur, cols, k', c, red);
      cols := cols + ([c] + red.1);
      cur := red.0;
      k' := k' + 1;
    }
    assert Trial(cur, reduce, rand, k') == ([], k');
  }

  /** Every list of `ts` stays inside the cost array. */
  predicate AllInRange(m: Matrix, ts: seq<seq<nat>>) {
    forall t :: t in ts ==> InRange(m, t)
  }

  /** The first `count` trials, each starting at the draw the previous one
      stopped at, and the next unused draw.  Every trial covers the matrix. */
  function Trials(m: Matrix, reduce: Reducer, rand: Draws, count: nat): (res: (seq<seq<nat>>, nat))
    requires Valid(m) && Coverable(m) && ReducerKeeps(reduce)
    ensures |res.0| == count && AllInRange(m, res.0)
  {
    if count == 0 then ([], 0)
    else
      var prev := Trials(m, reduce, rand, count - 1);
      var t := Trial(m, reduce, rand, prev.1);
      (prev.0 + [t.0], t.1)
  }

  /** One more trial appends its columns and continues from its last draw. */
  lemma TrialsStep(m: Matrix, reduce: Reducer, rand: Draws, count: nat)
    requires Valid(m) && Coverable(m) && ReducerKeeps(reduce)
    ensures Trials(m, reduce, rand, count + 1).0
         == Trials(m, reduce, rand, count).0 + [Trial(m, reduce, rand, Trials(m, reduce, rand, count).1).0]
    ensures Trials(m, reduce, rand, count + 1).1 == Trial(m, reduce, rand, Trials(m, reduce, rand, count).1).1
  {
  }

  /** Every one of the trials is live and covers the matrix. */
  lemma {:induction false} TrialsCover(m: Matrix, reduce: Reducer, rand: Draws, count: nat)
    requires Valid(m) && Coverable(m) && ReducerOk(reduce)
    ensures forall t :: t in Trials(m, reduce, rand, count).0 ==> Live(m, t) && Covers(m, m.rows, t)
  {
    if count > 0 {
      var prev := Trials(m, reduce, rand, count - 1);
      var last := Trial(m, reduce, rand, prev.1).0;
      TrialsCover(m, reduce, rand, count - 1);
      TrialCovers(m, reduce, rand, prev.1);
      assert Trials(m, reduce, rand, count).0 == prev.0 + [last];
      forall t | t in prev.0 + [last] ensures Live(m, t) && Covers(m, m.rows, t) {
        if t != last {
          assert t in prev.0;
        }
      }
    }
  }

  /** The cost of each trial, in order. */
  function TrialCosts(m: Matrix, ts: seq<seq<nat>>): (costs: seq<int>)
    requires AllInRange(m, ts)
    ensures |costs| == |ts|
    ensures forall i :: 0 <= i < |ts| ==> costs[i] == Cost(m, ts[i])
  {
    if ts == [] then []
    else
      var front := ts[..|ts| - 1];
      assert forall t :: t in front ==> t in ts;
      TrialCosts(m, front) + [Cost(m, ts[|ts| - 1])]
  }

  /** The position of the first minimum: the running best replaced only by a
      strictly smaller value. */
  function EarliestMin(costs: seq<int>): (b: nat)
    requires costs != []
    ensures b < |costs|
    ensures forall t :: 0 <= t < |costs| ==> costs[b] <= costs[t]
    ensures forall t :: 0 <= t < b ==> costs[b] < costs[t]
  {
    if |costs| == 1 then 0
    else
      var front := costs[..|costs| - 1];
      var b := EarliestMin(front);
      assert forall t :: 0 <= t < |front| ==> front[t] == costs[t];
      if costs[b] > costs[|costs| - 1] then |costs| - 1 else b
  }

  /** The columns `random` appends: the first cheapest of the trials. */
  function RandomRun(m: Matrix, reduce: Reducer, rand: Draws): (cols: seq<nat>)
    requires Valid(m) && Coverable(m) && ReducerKeeps(reduce)
    ensures InRange(m, cols)
  {
    var ts := Trials(m, reduce, rand, TrialCount).0;
    ts[EarliestMin(TrialCosts(m, ts))]
  }

  /** What `random` appends is one of the trials, and none of the trials is
      cheaper. */
  lemma RandomRunCheapest(m: Matrix, reduce: Reducer, rand: Draws)
    requires Valid(m) && Coverable(m) && ReducerKeeps(reduce)
    ensures RandomRun(m, reduce, rand) in Trials(m, reduce, rand, TrialCount).0
    ensures forall t :: t in Trials(m, reduce, rand, TrialCount).0 ==>
      Cost(m, RandomRun(m, reduce, rand)) <= Cost(m, t)
  {
    var ts := Trials(m, reduce, rand, TrialCount).0;
    var costs := TrialCosts(m, ts);
    var b := EarliestMin(costs);
    forall t | t in ts ensures Cost(m, ts[b]) <= Cost(m, t) {
      var i :| 0 <= i < |ts| && ts[i] == t;
      assert costs[b] <= costs[i];
    }
  }

  /** The columns `random` picks are live and cover the matrix. */
  lemma RandomRunCovers(m: Matrix, reduce: Reducer, rand: Draws)
    requires Valid(m) && Coverable(m) && ReducerOk(reduce)
    ensures Live(m, RandomRun(m, reduce, rand))
    ensures Covers(m, m.rows, RandomRun(m, reduce, rand))
  {
    TrialsCover(m, reduce, rand, TrialCount);
    RandomRunCheapest(m, reduce, rand);
  }

  /** Adding one more trial: the earliest minimum moves to it exactly when it
      is strictly cheaper. */
  lemma EarliestMinStep(m: Matrix, ts: seq<seq<nat>>, t: seq<nat>)
    requires AllInRange(m, ts) && InRange(m, t) && ts != []
    ensures AllInRange(m, ts + [t])
    ensures EarliestMin(TrialCosts(m, ts + [t]))
         == (if Cost(m, ts[EarliestMin(TrialCosts(m, ts))]) > Cost(m, t) then |ts|
             else EarliestMin(TrialCosts(m, ts)))
  {
    assert (ts + [t])[..|ts|] == ts;
    assert TrialCosts(m, ts + [t])[..|ts|] == TrialCosts(m, ts);
  }

  /** A single trial is the best so far. */
  lemma FirstTrialBest(m: Matrix, t: seq<nat>)
    requires InRange(m, t)
    ensures AllInRange(m, [t]) && EarliestMin(TrialCosts(m, [t])) == 0
  {
    assert |TrialCosts(m, [t])| == 1;
  }

  /** The state of `random` between trials: the next draw, whether no trial
      has run yet, and the best trial kept so far with its cost. */
  datatype Best = Best(next: nat, first: bool, sol: seq<nat>, cost: int)

  /** One comparison of `random`: the trial `t`, which stopped before draw
      `next`, replaces the best kept when it is the first or strictly
      cheaper. */
  function Keep(m: Matrix, b: Best, t: seq<nat>, next: nat): (b': Best)
    requires InRange(m, b.sol) && InRange(m, t)
    ensures !b'.first && b'.next == next && InRange(m, b'.sol)
    ensures b'.sol == t || b'.sol == b.sol
  {
    if b.first || b.cost > Cost(m, t) then Best(next, false, t, Cost(m, t))
    else b.(next := next)
  }

  /** The state after `count` trials, one trial at a time. */
  function RandomAfter(m: Matrix, reduce: Reducer, rand: Draws, count: nat): (b: Best)
    requires Valid(m) && Coverable(m) && ReducerKeeps(reduce)
    ensures b.first <==> count == 0
    ensures InRange(m, b.sol)
  {
    if count == 0 then Best(0, true, [], 0)
    else
      var b := RandomAfter(m, reduce, rand, count - 1);
      var t := Trial(m, reduce, rand, b.next);
      Keep(m, b, t.0, t.1)
  }

  /** One more trial starts at the draw the kept state names. */
  lemma RandomAfterStep(m: Matrix, reduce: Reducer, rand: Draws, count: nat, b: Best)
    requires Valid(m) && Coverable(m) && ReducerKeeps(reduce)
    requires b == RandomAfter(m, reduce, rand, count)
    ensures RandomAfter(m, reduce, rand, count + 1)
         == Keep(m, b, Trial(m, reduce, rand, b.next).0, Trial(m, reduce, rand, b.next).1)
  {
  }

  /** When the kept state holds the first cheapest of `ts` (or nothing, when
      `ts` is empty), keeping `t` leaves it holding the first cheapest of
      `ts + [t]`, with its cost. */
  lemma KeepStep(m: Matrix, ts: seq<seq<nat>>, b: Best, t: seq<nat>, next: nat)
    requires AllInRange(m, ts) && InRange(m, b.sol) && InRange(m, t)
    requires b.first <==> ts == []
    requires ts != [] ==> b.sol == ts[EarliestMin(TrialCosts(m, ts))] && b.cost == Cost(m, b.sol)
    ensures AllInRange(m, ts + [t])
    ensures Keep(m, b, t, next).sol == (ts + [t])[EarliestMin(TrialCosts(m, ts + [t]))]
    ensures Keep(m, b, t, next).cost == Cost(m, Keep(m, b, t, next).sol)
  {
    if b.first {
      assert ts + [t] == [t];
      FirstTrialBest(m, t);
    } else {
      EarliestMinStep(m, ts, t);
      assert (ts + [t])[EarliestMin(TrialCosts(m, ts))] == ts[EarliestMin(TrialCosts(m, ts))];
    }
  }

  /** The trial-by-trial state agrees with the list of trials: it continues
      from the draw the trials stopped at, and after at least one trial it
      holds the first cheapest of them and that trial's cost. */
  lemma {:induction false} RandomAfterFirstCheapest(m: Matrix, reduce: Reducer, rand: Draws, count: nat)
    requires Valid(m) && Coverable(m) && ReducerKeeps(reduce)
    ensures RandomAfter(m, reduce, rand, count).next == Trials(m, reduce, rand, count).1
    ensures count > 0 ==>
      var ts := Trials(m, reduce, rand, count).0;
      && RandomAfter(m, reduce, rand, count).sol == ts[EarliestMin(TrialCosts(m, ts))]
      && RandomAfter(m, reduce, rand, count).cost == Cost(m, RandomAfter(m, reduce, rand, count).sol)
  {
    if count > 0 {
      RandomAfterFirstCheapest(m, reduce, rand, count - 1);
      FirstCheapestStep(m, reduce, rand, count - 1);
    }
  }

  /** One more trial keeps the trial-by-trial state in agreement with the
      list of trials. */
  lemma FirstCheapestStep(m: Matrix, reduce: Reducer, rand: Draws, count: nat)
    requires Valid(m) && Coverable(m) && ReducerKeeps(reduce)
    requires RandomAfter(m, reduce, rand, count).next == Trials(m, reduce, rand, count).1
    requires count > 0 ==>
      var ts := Trials(m, reduce, rand, count).0;
      && RandomAfter(m, reduce, rand, count).sol == ts[EarliestMin(TrialCosts(m, ts))]
      && RandomAfter(m, reduce, rand, count).cost == Cost(m, RandomAfter(m, reduce, rand, count).sol)
    ensures RandomAfter(m, reduce, rand, count + 1).next == Trials(m, reduce, rand, count + 1).1
    ensures
      var ts := Trials(m, reduce, rand, count + 1).0;
      && RandomAfter(m, reduce, rand, count + 1).sol == ts[EarliestMin(TrialCosts(m, ts))]
      && RandomAfter(m, reduce, rand, count + 1).cost == Cost(m, RandomAfter(m, reduce, rand, count + 1).sol)
  {
    TrialsStep(m, reduce, rand, count);
    var b := RandomAfter(m, reduce, rand, count);
    var t := Trial(m, reduce, rand, b.next);
    RandomAfterStep(m, reduce, rand, count, b);
    KeepStep(m, Trials(m, reduce, rand, count).0, b, t.0, t.1);
  }

  /** What `random` appends is the best trial kept after all of them. */
  lemma RandomRunIsLast(m: Matrix, reduce: Reducer, rand: Draws)
    requires Valid(m) && Coverable(m) && ReducerKeeps(reduce)
    ensures RandomRun(m, reduce, rand) == RandomAfter(m, reduce, rand, TrialCount).sol
  {
    RandomAfterFirstCheapest(m, reduce, rand, TrialCount);
  }

  /** One pass of the loop of `random`: runs a trial from the next draw and
      keeps it when it is the first or strictly cheaper than the best. */
  method RandomStep(m: Matrix, reduce: Reducer, rand: Draws, count: nat,
                    k: nat, first: bool, bestSol: seq<nat>, bestCost: int)
    returns (k': nat, bestSol': seq<nat>, bestCost': int)
    requires Valid(m) && Coverable(m) && ReducerKeeps(reduce)
    requires Best(k, first, bestSol, bestCost) == RandomAfter(m, reduce, rand, count)
    ensures Best(k', false, bestSol', bestCost') == RandomAfter(m, reduce, rand, count + 1)
  {
    var cur;
    cur, k' := RunTrial(m, reduce, rand, k);
    RandomAfterStep(m, reduce, rand, count, Best(k, first, bestSol, bestCost));
    var curCost := Cost(m, cur);
    bestSol', bestCost' := bestSol, bestCost;
    if first || bestCost > curCost {
      bestCost' := curCost;
      bestSol' := cur;
    }
  }

  /** `random(matrix, solution)`: runs the trials, keeps the first cheapest
      (`first || best_cost > cur_cost`), and appends its columns. */
  method RandomLoop(m: Matrix, sol: seq<nat>, reduce: Reducer, rand: Draws) returns (sol': seq<nat>)
    requires Valid(m) && Coverable(m) && ReducerKeeps(reduce)
    ensures sol' == sol + RandomRun(m, reduce, rand)
  {
    var first := true;
    var bestCost := 0;
    var bestSol: seq<nat> := [];
    var k: nat := 0;
    var count := 0;
    while count < TrialCount
      invariant 0 <= count <= TrialCount
      invariant Best(k, first, bestSol, bestCost) == RandomAfter(m, reduce, rand, count)
    {
      k, bestSol, bestCost := RandomStep(m, reduce, rand, count, k, first, bestSol, bestCost);
      first := false;
      count := count + 1;
    }
    RandomRunIsLast(m, reduce, rand);
    sol' := sol + bestSol;
  }

  // ---------------------------------------------------------------------
  // heuristic

  /** The solution `heuristic` builds: the columns of the first `reduce`,
      followed, when rows remain, by those of the named algorithm (none for
      `"MCT"`). */
  function HeuristicRun(m: Matrix, name: string, reduce: Reducer, select: Selector, rand: Draws): (sol: seq<nat>)
    requires Valid(m) && Coverable(m) && ReducerKeeps(reduce) && SelectorOk(select)
  {
    var cur := reduce(m).0;
    var sel := reduce(m).1;
    if RowNum(cur) == 0 then sel
    else
      match ParseAlgorithm(name)
      case Greedy => sel + GreedyRun(cur, reduce, select)
      case Random => sel + RandomRun(cur, reduce, rand)
      case Mct => sel
  }

  /** `heuristic(algorithm, solution)`: reduces a copy of the matrix,
      dispatches on the name when rows remain, and returns the cost of the
      solution on the original matrix.  Except after `"MCT"`, the solution
      covers every live row -- the property the source asserts before
      computing the cost. */
  method Heuristic(m: Matrix, name: string, reduce: Reducer, select: Selector, rand: Draws)
    returns (sol: seq<nat>, cost: int)
    requires Valid(m) && Coverable(m) && ReducerOk(reduce) && SelectorOk(select)
    ensures sol == HeuristicRun(m, name, reduce, select, rand)
    ensures InRange(m, sol) && cost == Cost(m, sol)
    ensures ParseAlgorithm(name) != Mct ==> Covers(m, m.rows, sol)
  {
    var red := reduce(m);
    var cur := red.0;
    sol := red.1;
    if RowNum(cur) > 0 {
      if name == "greedy" {
        sol := GreedyLoop(cur, sol, reduce, select);
      } else if name == "random" {
        sol := RandomLoop(cur, sol, reduce, rand);
      } else if name == "MCT" {
      } else {
        sol := GreedyLoop(cur, sol, reduce, select);
      }
    }
    HeuristicCovers(m, name, reduce, select, rand);
    cost := Cost(m, sol);
  }

  lemma HeuristicCovers(m: Matrix, name: string, reduce: Reducer, select: Selector, rand: Draws)
    requires Valid(m) && Coverable(m) && ReducerOk(reduce) && SelectorOk(select)
    ensures InRange(m, HeuristicRun(m, name, reduce, select, rand))
    ensures ParseAlgorithm(name) != Mct ==> Covers(m, m.rows, HeuristicRun(m, name, reduce, select, rand))
  {
    var cur := reduce(m).0;
    var sel := reduce(m).1;
    var ext: seq<nat> :=
      if RowNum(cur) == 0 || ParseAlgorithm(name) == Mct then []
      else if ParseAlgorithm(name) == Greedy then GreedyRun(cur, reduce, select)
      else RandomRun(cur, reduce, rand);
    if RowNum(cur) > 0 && ParseAlgorithm(name) == Greedy {
      GreedyRunCovers(cur, reduce, select);
    } else if RowNum(cur) > 0 && ParseAlgorithm(name) == Random {
      RandomRunCovers(cur, reduce, rand);
    }
    assert HeuristicRun(m, name, reduce, select, rand) == sel + ext;
    assert InRange(m, sel + ext) by {
      forall i | 0 <= i < |sel + ext| ensures (sel + ext)[i] < |m.cost| {
        if i >= |sel| {
          assert (sel + ext)[i] == ext[i - |sel|];
        }
      }
    }
  }
}
