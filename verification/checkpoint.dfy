/** The cover matrix together with its deletion stack: every logged deletion
    pushes an entry, `save` pushes a marker, and `restore` pops entries back
    to the most recent marker, linking each popped row or column again. */
module Checkpoint {
  import CoverMatrix
  import DelStack

  datatype State = State(m: CoverMatrix.Matrix, stack: DelStack.Stack)

  /** A stack word that a push produced and that is consistent with the
      matrix: a marker, or the position of a row or column that is currently
      deleted. */
  predicate EntryOk(m: CoverMatrix.Matrix, w: int) {
    match DelStack.Decode(w)
    case None => false
    case Some(e) =>
      match e
      case Marker => true
      case RowDeleted(p) => p < m.rowSize && p !in m.rows
      case ColDeleted(p) => p < m.colSize && p !in m.cols
  }

  /** The matrix and the stack are each well formed, positions fit in the
      29 bits a stack word leaves them, every word on the stack is an entry
      consistent with the matrix, and no row or column is logged twice. */
  predicate Valid(st: State) {
    && CoverMatrix.Valid(st.m)
    && DelStack.Valid(st.stack)
    && st.m.rowSize <= DelStack.PosLimit
    && st.m.colSize <= DelStack.PosLimit
    && (forall i :: 0 <= i < st.stack.top ==> EntryOk(st.m, st.stack.slots[i]))
    && (forall i, j :: 0 <= i < j < st.stack.top && st.stack.slots[i] != 0 ==>
          st.stack.slots[i] != st.stack.slots[j])
  }

  /** The stack has room for `k` more words. */
  predicate Room(st: State, k: nat) {
    st.stack.top + k <= |st.stack.slots|
  }

  predicate HasMarker(st: State)
    requires DelStack.Valid(st.stack)
  {
    exists i :: 0 <= i < st.stack.top && st.stack.slots[i] == 0
  }

  /** The first `k` words of two slot arrays are the same. */
  predicate Agree(s: seq<int>, t: seq<int>, k: nat) {
    k <= |s| && k <= |t| && forall i :: 0 <= i < k ==> s[i] == t[i]
  }

  /** The sizes, the costs and the cells are the same; only the live sets
      and their counters may differ. */
  predicate SameShape(m: CoverMatrix.Matrix, m': CoverMatrix.Matrix) {
    && m'.rowSize == m.rowSize && m'.colSize == m.colSize
    && m'.cost == m.cost && m'.grid == m.grid
  }

  /** `save`: pushes a marker; the matrix is untouched. */
  function Save(st: State): (r: State)
    requires Valid(st) && Room(st, 1)
    ensures Valid(r) && r.m == st.m
    ensures r.stack.top == st.stack.top + 1 && |r.stack.slots| == |st.stack.slots|
    ensures r.stack.slots[st.stack.top] == 0
    ensures Agree(st.stack.slots, r.stack.slots, st.stack.top)
    ensures DelStack.Log(r.stack) == DelStack.Log(st.stack) + [0]
  {
    var s := DelStack.PushMarker(st.stack);
    assert s.slots[st.stack.top] == DelStack.Log(s)[st.stack.top];
    State(st.m, s)
  }

  /** `delete_row` on the logged path: the row is unlinked and its position
      is pushed; nothing below the old top changes. */
  function DeleteRow(st: State, r: nat): (res: State)
    requires Valid(st) && Room(st, 1) && r in st.m.rows
    ensures Valid(res)
    ensures res.stack.top == st.stack.top + 1 && |res.stack.slots| == |st.stack.slots|
    ensures res.m == CoverMatrix.DeleteRow(st.m, r)
    ensures DelStack.Decode(res.stack.slots[st.stack.top]) == DelStack.Some(DelStack.RowDeleted(r))
    ensures Agree(st.stack.slots, res.stack.slots, st.stack.top)
  {
    State(CoverMatrix.DeleteRow(st.m, r), DelStack.PushRow(st.stack, r))
  }

  /** `delete_col` on the logged path: the column is unlinked and its
      position is pushed; nothing below the old top changes. */
  function DeleteCol(st: State, c: nat): (res: State)
    requires Valid(st) && Room(st, 1) && c in st.m.cols
    ensures Valid(res)
    ensures res.stack.top == st.stack.top + 1 && |res.stack.slots| == |st.stack.slots|
    ensures res.m == CoverMatrix.DeleteCol(st.m, c)
    ensures DelStack.Decode(res.stack.slots[st.stack.top]) == DelStack.Some(DelStack.ColDeleted(c))
    ensures Agree(st.stack.slots, res.stack.slots, st.stack.top)
  {
    State(CoverMatrix.DeleteCol(st.m, c), DelStack.PushCol(st.stack, c))
  }

  /** The entry on top of the stack. */
  function TopEntry(st: State): (e: DelStack.Entry)
    requires Valid(st) && st.stack.top > 0
    ensures DelStack.Decode(st.stack.slots[st.stack.top - 1]) == DelStack.Some(e)
    ensures e.Marker? <==> st.stack.slots[st.stack.top - 1] == 0
  {
    assert EntryOk(st.m, st.stack.slots[st.stack.top - 1]);
    DelStack.Decode(st.stack.slots[st.stack.top - 1]).value
  }

  /** The matrix with the row or column of entry `e` linked back in. */
  function Relink(m: CoverMatrix.Matrix, e: DelStack.Entry): (m': CoverMatrix.Matrix)
    requires CoverMatrix.Valid(m) && !e.Marker?
    requires e.RowDeleted? ==> e.pos < m.rowSize && e.pos !in m.rows
    requires e.ColDeleted? ==> e.pos < m.colSize && e.pos !in m.cols
  {
    if e.RowDeleted? then CoverMatrix.RestoreRow(m, e.pos) else CoverMatrix.RestoreCol(m, e.pos)
  }

  /** Linking back the row or column of the top entry keeps every word below
      it consistent with the matrix: no other word names that row or column. */
  lemma RelinkKeepsEntries(st: State)
    requires Valid(st) && st.stack.top > 0 && !TopEntry(st).Marker?
    ensures forall i :: 0 <= i < st.stack.top - 1 ==>
      EntryOk(Relink(st.m, TopEntry(st)), st.stack.slots[i])
  {
    var w := st.stack.slots[st.stack.top - 1];
    assert EntryOk(st.m, w);
    forall i | 0 <= i < st.stack.top - 1
      ensures EntryOk(Relink(st.m, TopEntry(st)), st.stack.slots[i])
    {
      assert EntryOk(st.m, st.stack.slots[i]);
      if st.stack.slots[i] != 0 {
        assert st.stack.slots[i] != w;
      }
    }
  }

  /** One step of `restore`: pops a row or column entry and links that row
      or column back in. */
  function Undo(st: State): (r: State)
    requires Valid(st) && st.stack.top > 0 && !TopEntry(st).Marker?
    ensures Valid(r)
    ensures r.stack == DelStack.Stack(st.stack.slots, st.stack.top - 1)
    ensures TopEntry(st).RowDeleted? ==> r.m == CoverMatrix.RestoreRow(st.m, TopEntry(st).pos)
    ensures TopEntry(st).ColDeleted? ==> r.m == CoverMatrix.RestoreCol(st.m, TopEntry(st).pos)
    ensures HasMarker(st) ==> HasMarker(r)
  {
    assert EntryOk(st.m, st.stack.slots[st.stack.top - 1]);
    RelinkKeepsEntries(st);
    var r := State(Relink(st.m, TopEntry(st)), DelStack.Stack(st.stack.slots, st.stack.top - 1));
    assert HasMarker(st) ==> HasMarker(r) by {
      if HasMarker(st) {
        var i :| 0 <= i < st.stack.top && st.stack.slots[i] == 0;
        assert i < r.stack.top;
      }
    }
    r
  }

  /** `restore`: pops words until the most recent marker, linking every
      popped row and column back in; the marker itself is popped too. */
  function Restore(st: State): (r: State)
    requires Valid(st) && HasMarker(st)
    ensures Valid(r)
    ensures r.stack.top < st.stack.top
    ensures r.stack.slots == st.stack.slots
    ensures SameShape(st.m, r.m)
    ensures st.m.rows <= r.m.rows && st.m.cols <= r.m.cols
    decreases st.stack.top
  {
    if TopEntry(st).Marker? then State(st.m, DelStack.Stack(st.stack.slots, st.stack.top - 1))
    else Restore(Undo(st))
  }

  /** `restore` looks only at the matrix and at the words below the top: two
      states that agree on those restore to the same matrix and top. */
  lemma {:induction false} RestoreCongruent(a: State, b: State)
    requires Valid(a) && HasMarker(a)
    requires Valid(b) && HasMarker(b)
    requires a.m == b.m && a.stack.top == b.stack.top
    requires Agree(a.stack.slots, b.stack.slots, a.stack.top)
    ensures Restore(a).m == Restore(b).m
    ensures Restore(a).stack.top == Restore(b).stack.top
    decreases a.stack.top
  {
    assert a.stack.slots[a.stack.top - 1] == b.stack.slots[a.stack.top - 1];
    if !TopEntry(a).Marker? {
      RestoreCongruent(Undo(a), Undo(b));
    }
  }

  // ---------------------------------------------------------------------
  // Logged deletions between a save and a restore

  /** A row or column deletion whose target is live in `m`. */
  predicate Deletable(m: CoverMatrix.Matrix, e: DelStack.Entry) {
    || (e.RowDeleted? && e.pos in m.rows)
    || (e.ColDeleted? && e.pos in m.cols)
  }

  /** A sequence of deletions of distinct live rows and columns. */
  predicate DeletesOk(m: CoverMatrix.Matrix, ds: seq<DelStack.Entry>) {
    && (forall i :: 0 <= i < |ds| ==> Deletable(m, ds[i]))
    && (forall i, j :: 0 <= i < j < |ds| ==> ds[i] != ds[j])
  }

  /** One logged deletion. */
  function Apply(st: State, e: DelStack.Entry): (r: State)
    requires Valid(st) && Room(st, 1) && Deletable(st.m, e)
    ensures Valid(r)
    ensures r.stack.top == st.stack.top + 1 && |r.stack.slots| == |st.stack.slots|
    ensures DelStack.Decode(r.stack.slots[st.stack.top]) == DelStack.Some(e)
    ensures Agree(st.stack.slots, r.stack.slots, st.stack.top)
    ensures SameShape(st.m, r.m)
    ensures forall e' :: Deletable(st.m, e') && e' != e ==> Deletable(r.m, e')
    ensures e.RowDeleted? ==> r.m == CoverMatrix.DeleteRow(st.m, e.pos)
    ensures e.ColDeleted? ==> r.m == CoverMatrix.DeleteCol(st.m, e.pos)
  {
    if e.RowDeleted? then DeleteRow(st, e.pos) else DeleteCol(st, e.pos)
  }

  /** The rows a sequence of deletions removes. */
  function RowsOf(ds: seq<DelStack.Entry>): set<nat> {
    set e | e in ds && e.RowDeleted? :: e.pos
  }

  /** The columns a sequence of deletions removes. */
  function ColsOf(ds: seq<DelStack.Entry>): set<nat> {
    set e | e in ds && e.ColDeleted? :: e.pos
  }

  /** The last deletion adds its position to the matching set only. */
  lemma PositionsLast(ds: seq<DelStack.Entry>)
    requires |ds| > 0
    ensures var e := ds[|ds| - 1];
      RowsOf(ds) == RowsOf(ds[..|ds| - 1]) + (if e.RowDeleted? then {e.pos} else {})
    ensures var e := ds[|ds| - 1];
      ColsOf(ds) == ColsOf(ds[..|ds| - 1]) + (if e.ColDeleted? then {e.pos} else {})
  {
    var n := |ds| - 1;
    assert forall x :: x in ds <==> x in ds[..n] || x == ds[n];
  }

  /** Performs the deletions in order, each one logged. */
  function ApplyAll(st: State, ds: seq<DelStack.Entry>): (r: State)
    requires Valid(st) && Room(st, |ds|) && DeletesOk(st.m, ds)
    ensures Valid(r)
    ensures r.stack.top == st.stack.top + |ds|
    ensures |r.stack.slots| == |st.stack.slots|
    ensures Agree(st.stack.slots, r.stack.slots, st.stack.top)
    ensures SameShape(st.m, r.m)
    ensures forall e :: Deletable(st.m, e) && e !in ds ==> Deletable(r.m, e)
    decreases |ds|
  {
    if ds == [] then st
    else
      var n := |ds| - 1;
      assert DeletesOk(st.m, ds[..n]);
      var z := ApplyAll(st, ds[..n]);
      assert ds[n] !in ds[..n];
      Apply(z, ds[n])
  }

  /** The rows and columns left live after `ApplyAll` are exactly those that
      were live and that no deletion names. */
  lemma {:induction false} ApplyAllRemoves(st: State, ds: seq<DelStack.Entry>)
    requires Valid(st) && Room(st, |ds|) && DeletesOk(st.m, ds)
    ensures ApplyAll(st, ds).m.rows == st.m.rows - RowsOf(ds)
    ensures ApplyAll(st, ds).m.cols == st.m.cols - ColsOf(ds)
    decreases |ds|
  {
    if ds != [] {
      var n := |ds| - 1;
      assert DeletesOk(st.m, ds[..n]);
      ApplyAllRemoves(st, ds[..n]);
      ApplyAllLast(st, ds);
      PositionsLast(ds);
      MinusUnion(st.m.rows, RowsOf(ds[..n]), if ds[n].RowDeleted? then {ds[n].pos} else {});
      MinusUnion(st.m.cols, ColsOf(ds[..n]), if ds[n].ColDeleted? then {ds[n].pos} else {});
    }
  }

  /** The last deletion of `ApplyAll` removes its own position and no other. */
  lemma ApplyAllLast(st: State, ds: seq<DelStack.Entry>)
    requires Valid(st) && Room(st, |ds|) && DeletesOk(st.m, ds) && |ds| > 0
    ensures var e := ds[|ds| - 1];
      ApplyAll(st, ds).m.rows == ApplyAll(st, ds[..|ds| - 1]).m.rows - (if e.RowDeleted? then {e.pos} else {})
    ensures var e := ds[|ds| - 1];
      ApplyAll(st, ds).m.cols == ApplyAll(st, ds[..|ds| - 1]).m.cols - (if e.ColDeleted? then {e.pos} else {})
  {
    var n := |ds| - 1;
    assert DeletesOk(st.m, ds[..n]);
    assert ds[n] !in ds[..n];
    ApplyRemoves(ApplyAll(st, ds[..n]), ds[n]);
  }

  lemma MinusUnion(a: set<nat>, b: set<nat>, c: set<nat>)
    ensures a - b - c == a - (b + c)
  {
  }

  /** The live sets after one logged deletion. */
  lemma ApplyRemoves(st: State, e: DelStack.Entry)
    requires Valid(st) && Room(st, 1) && Deletable(st.m, e)
    ensures Apply(st, e).m.rows == st.m.rows - (if e.RowDeleted? then {e.pos} else {})
    ensures Apply(st, e).m.cols == st.m.cols - (if e.ColDeleted? then {e.pos} else {})
  {
  }

  /** Undoing one logged deletion: a `restore` after it ends where a
      `restore` before it would. */
  lemma RestoreApply(z: State, d: DelStack.Entry)
    requires Valid(z) && HasMarker(z) && Room(z, 1) && Deletable(z.m, d)
    ensures HasMarker(Apply(z, d))
    ensures Restore(Apply(z, d)).m == Restore(z).m
    ensures Restore(Apply(z, d)).stack.top == Restore(z).stack.top
  {
    var x := Apply(z, d);
    var i :| 0 <= i < z.stack.top && z.stack.slots[i] == 0;
    assert x.stack.slots[i] == 0;
    assert TopEntry(x) == d;
    var u := Undo(x);
    if d.RowDeleted? {
      CoverMatrix.RestoreRowUndoesDelete(z.m, d.pos);
    } else {
      CoverMatrix.RestoreColUndoesDelete(z.m, d.pos);
    }
    assert u.m == z.m;
    RestoreCongruent(u, z);
  }

  /** The marker `y` ends with survives any further logged deletions, and a
      `restore` after them links every one of them back and pops the marker:
      the matrix is `y`'s again and the top is just below the marker. */
  lemma {:induction false} RestoreUndoesDeletes(y: State, ds: seq<DelStack.Entry>)
    requires Valid(y) && y.stack.top > 0 && y.stack.slots[y.stack.top - 1] == 0
    requires Room(y, |ds|) && DeletesOk(y.m, ds)
    ensures HasMarker(ApplyAll(y, ds))
    ensures Restore(ApplyAll(y, ds)).m == y.m
    ensures Restore(ApplyAll(y, ds)).stack.top == y.stack.top - 1
    decreases |ds|
  {
    if ds != [] {
      var n := |ds| - 1;
      assert DeletesOk(y.m, ds[..n]);
      var z := ApplyAll(y, ds[..n]);
      RestoreUndoesDeletes(y, ds[..n]);
      assert ds[n] !in ds[..n];
      assert ApplyAll(y, ds) == Apply(z, ds[n]);
      RestoreApply(z, ds[n]);
    } else {
      assert ApplyAll(y, ds).stack.slots[y.stack.top - 1] == 0;
    }
  }

  /** `save`, any logged deletions of distinct live rows and columns, then
      `restore`: the matrix and the words on the stack are as they were
      before the `save`. */
  lemma SaveDeletesRestore(st: State, ds: seq<DelStack.Entry>)
    requires Valid(st) && Room(st, |ds| + 1) && DeletesOk(st.m, ds)
    ensures HasMarker(ApplyAll(Save(st), ds))
    ensures Restore(ApplyAll(Save(st), ds)).m == st.m
    ensures DelStack.Log(Restore(ApplyAll(Save(st), ds)).stack) == DelStack.Log(st.stack)
  {
    var y := Save(st);
    RestoreUndoesDeletes(y, ds);
    var x := ApplyAll(y, ds);
    var r := Restore(x);
    forall i | 0 <= i < st.stack.top
      ensures r.stack.slots[i] == st.stack.slots[i]
    {
      assert x.stack.slots[i] == y.stack.slots[i];
    }
    LogAgree(r.stack, st.stack);
  }

  /** Two stacks with the same top and the same words below it hold the same
      log, whatever lies above the top. */
  lemma LogAgree(s: DelStack.Stack, t: DelStack.Stack)
    requires DelStack.Valid(s) && DelStack.Valid(t) && s.top == t.top
    requires forall i :: 0 <= i < s.top ==> s.slots[i] == t.slots[i]
    ensures DelStack.Log(s) == DelStack.Log(t)
  {
  }
}
