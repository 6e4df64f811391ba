/** The independent-set helper: nodes with costs and neighbour lists, a greedy
    maximal independent set that always picks the unmarked node with the
    fewest neighbours, and the in-place intersection of two sorted neighbour
    lists. */
module MaxClique {
  import Sets

  /** `INT_MAX` of a 32-bit `int`: the starting value of the running minimum. */
  const IntMax: int := 0x7fff_ffff

  /** Node costs and neighbour lists; both have one entry per node.  Costs are
      integers here (the source keeps them as `double`). */
  datatype Graph = Graph(cost: seq<int>, nlist: seq<seq<nat>>)

  predicate Valid(g: Graph) {
    && |g.cost| == |g.nlist|
    && forall a :: 0 <= a < |g.nlist| ==> forall x :: x in g.nlist[a] ==> x < |g.nlist|
  }

  /** Every neighbour list is shorter than `INT_MAX`, so its size fits the
      `int` it is read into. */
  predicate SizesFit(g: Graph) {
    forall a :: 0 <= a < |g.nlist| ==> |g.nlist[a]| < IntMax
  }

  /** Adjacency goes both ways. */
  predicate Symmetric(g: Graph) {
    forall a, b :: 0 <= a < |g.nlist| && b in g.nlist[a] ==> b < |g.nlist| && a in g.nlist[b]
  }

  /** The constructor: `size` nodes of cost zero and no neighbours. */
  function New(size: nat): (g: Graph)
    ensures Valid(g) && Symmetric(g) && SizesFit(g)
    ensures |g.nlist| == size
    ensures forall a :: 0 <= a < size ==> g.cost[a] == 0 && g.nlist[a] == []
  {
    Graph(seq(size, _ => 0), seq(size, _ => []))
  }

  /** `set_cost`: only the cost of `id` changes. */
  function SetCost(g: Graph, id: nat, c: int): (r: Graph)
    requires Valid(g) && id < |g.cost|
    ensures Valid(r) && r.nlist == g.nlist && |r.cost| == |g.cost|
    ensures r.cost[id] == c
    ensures forall a :: 0 <= a < |g.cost| && a != id ==> r.cost[a] == g.cost[a]
  {
    g.(cost := g.cost[id := c])
  }

  /** `connect`: appends `b` to the list of `a`, then `a` to the list of `b`
      (so a self-loop appends `a` twice); every other list is untouched, and
      a symmetric adjacency stays symmetric. */
  function Connect(g: Graph, a: nat, b: nat): (r: Graph)
    requires Valid(g) && a < |g.nlist| && b < |g.nlist|
    ensures Valid(r) && r.cost == g.cost && |r.nlist| == |g.nlist|
    ensures a != b ==> r.nlist[a] == g.nlist[a] + [b] && r.nlist[b] == g.nlist[b] + [a]
    ensures a == b ==> r.nlist[a] == g.nlist[a] + [a, a]
    ensures forall x :: 0 <= x < |g.nlist| && x != a && x != b ==> r.nlist[x] == g.nlist[x]
    ensures forall x, y :: 0 <= x < |g.nlist| && y in g.nlist[x] ==> y in r.nlist[x]
    ensures Symmetric(g) ==> Symmetric(r)
  {
    var l1 := g.nlist[a := g.nlist[a] + [b]];
    var l2 := l1[b := l1[b] + [a]];
    assert a == b ==> l2[a] == g.nlist[a] + [a, a];
    Graph(g.cost, l2)
  }

  /** Connects every listed pair in turn. */
  function ConnectAll(g: Graph, edges: seq<(nat, nat)>): (r: Graph)
    requires Valid(g)
    requires forall i :: 0 <= i < |edges| ==> edges[i].0 < |g.nlist| && edges[i].1 < |g.nlist|
    ensures Valid(r) && r.cost == g.cost && |r.nlist| == |g.nlist|
    ensures forall x, y :: 0 <= x < |g.nlist| && y in g.nlist[x] ==> y in r.nlist[x]
    ensures Symmetric(g) ==> Symmetric(r)
    decreases |edges|
  {
    if edges == [] then g
    else ConnectAll(Connect(g, edges[0].0, edges[0].1), edges[1..])
  }

  /** Whatever edges are added to a fresh graph, adjacency is symmetric and
      every listed edge is present in both directions. */
  lemma {:induction false} BuildSymmetric(g: Graph, edges: seq<(nat, nat)>)
    requires Valid(g) && Symmetric(g)
    requires forall i :: 0 <= i < |edges| ==> edges[i].0 < |g.nlist| && edges[i].1 < |g.nlist|
    ensures Symmetric(ConnectAll(g, edges))
    ensures forall i :: 0 <= i < |edges| ==>
      edges[i].1 in ConnectAll(g, edges).nlist[edges[i].0] &&
      edges[i].0 in ConnectAll(g, edges).nlist[edges[i].1]
    decreases |edges|
  {
    if edges != [] {
      var g' := Connect(g, edges[0].0, edges[0].1);
      BuildSymmetric(g', edges[1..]);
      var r := ConnectAll(g', edges[1..]);
      assert r == ConnectAll(g, edges);
      forall i | 0 <= i < |edges|
        ensures edges[i].1 in r.nlist[edges[i].0] && edges[i].0 in r.nlist[edges[i].1]
      {
        if i == 0 {
          assert edges[0].1 in g'.nlist[edges[0].0];
        } else {
          assert edges[i] == edges[1..][i - 1];
        }
      }
    }
  }

  // ---------------------------------------------------------------------
  // Greedy independent set

  /** `v` is chosen already or is a neighbour of a chosen node -- what the
      `mark` array records. */
  predicate Dominated(g: Graph, chosen: seq<nat>, v: nat) {
    v in chosen || exists i :: 0 <= i < |chosen| && chosen[i] < |g.nlist| && v in g.nlist[chosen[i]]
  }

  /** The tie-break order of the scan: fewer neighbours first, then the lower
      index (the comparison `min_num > num` is strict). */
  predicate Before(g: Graph, m: nat, v: nat)
    requires m < |g.nlist| && v < |g.nlist|
  {
    |g.nlist[m]| < |g.nlist[v]| || (|g.nlist[m]| == |g.nlist[v]| && m <= v)
  }

  /** `m` is what the scan picks after `chosen`: undominated, and first in
      the tie-break order among the undominated nodes. */
  predicate IsMinPick(g: Graph, chosen: seq<nat>, m: nat) {
    && m < |g.nlist|
    && !Dominated(g, chosen, m)
    && forall v :: 0 <= v < |g.nlist| && !Dominated(g, chosen, v) ==> Before(g, m, v)
  }

  /** Every node of `ans` was the scan's pick given the nodes before it. */
  predicate GreedyPicks(g: Graph, ans: seq<nat>) {
    forall k :: 0 <= k < |ans| ==> IsMinPick(g, ans[..k], ans[k])
  }

  /** No node of `ans` repeats or is a neighbour of an earlier one. */
  predicate ForwardIndependent(g: Graph, ans: seq<nat>)
    requires forall i :: 0 <= i < |ans| ==> ans[i] < |g.nlist|
  {
    forall i, j :: 0 <= i < j < |ans| ==> ans[j] != ans[i] && ans[j] !in g.nlist[ans[i]]
  }

  /** No two nodes of `ans` are equal or adjacent, in either direction. */
  predicate Independent(g: Graph, ans: seq<nat>)
    requires forall i :: 0 <= i < |ans| ==> ans[i] < |g.nlist|
  {
    forall i, j :: 0 <= i < |ans| && 0 <= j < |ans| && i != j ==>
      ans[j] != ans[i] && ans[j] !in g.nlist[ans[i]]
  }

  function SumCost(g: Graph, s: seq<nat>): int
    requires forall i :: 0 <= i < |s| ==> s[i] < |g.cost|
  {
    if s == [] then 0 else SumCost(g, s[..|s| - 1]) + g.cost[s[|s| - 1]]
  }

  lemma DominatedAppend(g: Graph, s: seq<nat>, m: nat, v: nat)
    requires m < |g.nlist|
    ensures Dominated(g, s + [m], v) <==> Dominated(g, s, v) || v == m || v in g.nlist[m]
  {
    var t := s + [m];
    if Dominated(g, s, v) {
      if v !in s {
        var i :| 0 <= i < |s| && s[i] < |g.nlist| && v in g.nlist[s[i]];
        assert t[i] == s[i];
      }
    }
    if v in g.nlist[m] {
      assert t[|s|] == m;
    }
  }

  lemma GreedyPicksAppend(g: Graph, ans: seq<nat>, m: nat)
    requires GreedyPicks(g, ans) && IsMinPick(g, ans, m)
    ensures GreedyPicks(g, ans + [m])
  {
    var t := ans + [m];
    forall k | 0 <= k < |t| ensures IsMinPick(g, t[..k], t[k]) {
      if k < |ans| {
        assert t[..k] == ans[..k];
      } else {
        assert t[..k] == ans;
      }
    }
  }

  /** The first unmarked node in the tie-break order, if any: the inner scan
      of `solve`. */
  method PickMin(g: Graph, mark: seq<bool>) returns (found: bool, minRow: nat)
    requires |mark| == |g.nlist| && SizesFit(g)
    ensures found <==> exists v :: 0 <= v < |mark| && !mark[v]
    ensures found ==> minRow < |mark| && !mark[minRow]
    ensures found ==> forall v :: 0 <= v < |mark| && !mark[v] ==> Before(g, minRow, v)
  {
    var minNum := IntMax;
    minRow := 0;
    found := false;
    var i := 0;
    while i < |mark|
      invariant 0 <= i <= |mark|
      invariant found <==> exists v :: 0 <= v < i && !mark[v]
      invariant !found ==> minNum == IntMax
      invariant found ==> minRow < i && !mark[minRow] && minNum == |g.nlist[minRow]|
      invariant found ==> forall v :: 0 <= v < i && !mark[v] ==> Before(g, minRow, v)
    {
      if !mark[i] {
        var num := |g.nlist[i]|;
        if minNum > num {
          minNum := num;
          minRow := i;
          found := true;
        }
      }
      i := i + 1;
    }
  }

  /** Marks `m` and then every node of `adj`. */
  method MarkAll(mark: seq<bool>, m: nat, adj: seq<nat>) returns (mark': seq<bool>)
    requires m < |mark|
    requires forall x :: x in adj ==> x < |mark|
    ensures |mark'| == |mark|
    ensures forall v :: 0 <= v < |mark| ==> (mark'[v] <==> mark[v] || v == m || v in adj)
  {
    mark' := mark[m := true];
    var k := 0;
    while k < |adj|
      invariant 0 <= k <= |adj| && |mark'| == |mark|
      invariant forall v :: 0 <= v < |mark| ==> (mark'[v] <==> mark[v] || v == m || v in adj[..k])
    {
      assert adj[..k + 1] == adj[..k] + [adj[k]];
      assert adj[k] in adj;
      mark' := mark'[adj[k] := true];
      k := k + 1;
    }
    assert adj[..k] == adj;
  }

  function Unmarked(mark: seq<bool>): set<nat> {
    set v: nat | v < |mark| && !mark[v]
  }

  /** A fresh mark array leaves all `n` nodes unmarked. */
  lemma {:induction false} AllUnmarked(n: nat)
    ensures |Unmarked(seq(n, _ => false))| == n
  {
    if n > 0 {
      AllUnmarked(n - 1);
      assert Unmarked(seq(n, _ => false)) == Unmarked(seq(n - 1, _ => false)) + {n - 1};
    }
  }

  /** What the `mark` array records, and what the answer so far satisfies. */
  predicate SolveInv(g: Graph, ans: seq<nat>, mark: seq<bool>) {
    && |mark| == |g.nlist|
    && (forall i :: 0 <= i < |ans| ==> ans[i] < |g.nlist|)
    && (forall v :: 0 <= v < |g.nlist| ==> (mark[v] <==> Dominated(g, ans, v)))
    && ForwardIndependent(g, ans)
    && GreedyPicks(g, ans)
  }

  /** Choosing the scan's pick `m` and marking it and its neighbours keeps the
      invariant. */
  lemma SolveStep(g: Graph, ans: seq<nat>, mark: seq<bool>, m: nat, mark': seq<bool>)
    requires SolveInv(g, ans, mark)
    requires m < |mark| && !mark[m]
    requires forall v :: 0 <= v < |mark| && !mark[v] ==> Before(g, m, v)
    requires |mark'| == |mark|
    requires forall v :: 0 <= v < |mark| ==> (mark'[v] <==> mark[v] || v == m || v in g.nlist[m])
    ensures SolveInv(g, ans + [m], mark')
  {
    assert IsMinPick(g, ans, m);
    GreedyPicksAppend(g, ans, m);
    forall v | 0 <= v < |g.nlist| ensures mark'[v] <==> Dominated(g, ans + [m], v) {
      DominatedAppend(g, ans, m, v);
    }
    IndependentAppend(g, ans, m);
  }

  lemma IndependentAppend(g: Graph, ans: seq<nat>, m: nat)
    requires forall i :: 0 <= i < |ans| ==> ans[i] < |g.nlist|
    requires ForwardIndependent(g, ans)
    requires m < |g.nlist| && !Dominated(g, ans, m)
    ensures ForwardIndependent(g, ans + [m])
  {
    var t := ans + [m];
    forall i, j | 0 <= i < j < |t| ensures t[j] != t[i] && t[j] !in g.nlist[t[i]] {
      if j == |ans| {
        assert t[i] == ans[i];
      } else {
        assert t[i] == ans[i] && t[j] == ans[j];
      }
    }
  }

  lemma SumCostAppend(g: Graph, s: seq<nat>, m: nat)
    requires forall i :: 0 <= i < |s| ==> s[i] < |g.cost|
    requires m < |g.cost|
    ensures SumCost(g, s + [m]) == SumCost(g, s) + g.cost[m]
  {
    assert (s + [m])[..|s|] == s;
  }

  /** Marking a node that was unmarked, and unmarking nothing, shrinks the
      set of unmarked nodes. */
  lemma UnmarkedShrinks(mark: seq<bool>, mark': seq<bool>, m: nat)
    requires |mark'| == |mark| && m < |mark| && !mark[m] && mark'[m]
    requires forall v :: 0 <= v < |mark| && mark[v] ==> mark'[v]
    ensures |Unmarked(mark')| < |Unmarked(mark)|
  {
    Sets.SubsetCard(Unmarked(mark'), Unmarked(mark) - {m});
  }


  /** `solve`: starting from an empty answer and no marks, repeatedly picks
      the unmarked node with the fewest neighbours (lowest index on ties),
      marks it and its neighbours, and adds its cost.  The answer has no
      repeats and no node adjacent to an earlier one, every node ends up
      chosen or adjacent to a chosen node, and the returned cost is the sum of
      the chosen nodes' costs. */
  method Solve(g: Graph) returns (ans: seq<nat>, cost: int)
    requires Valid(g) && SizesFit(g)
    ensures forall i :: 0 <= i < |ans| ==> ans[i] < |g.nlist|
    ensures ForwardIndependent(g, ans)
    ensures forall v :: 0 <= v < |g.nlist| ==> Dominated(g, ans, v)
    ensures GreedyPicks(g, ans)
    ensures cost == SumCost(g, ans)
    ensures |ans| <= |g.nlist|
  {
    var n := |g.nlist|;
    ans := [];
    cost := 0;
    var mark := seq(n, _ => false);
    AllUnmarked(n);
    while true
      invariant SolveInv(g, ans, mark)
      invariant cost == SumCost(g, ans)
      invariant |ans| + |Unmarked(mark)| <= n
      decreases |Unmarked(mark)|
    {
      var found, m := PickMin(g, mark);
      if !found {
        break;
      }
      var mark' := MarkAll(mark, m, g.nlist[m]);
      SolveStep(g, ans, mark, m, mark');
      UnmarkedShrinks(mark, mark', m);
      SumCostAppend(g, ans, m);
      ans := ans + [m];
      mark := mark';
      cost := cost + g.cost[m];
    }
  }

  /** With symmetric adjacency, the answer is independent in both directions. */
  lemma SymmetricIndependent(g: Graph, ans: seq<nat>)
    requires Symmetric(g)
    requires forall i :: 0 <= i < |ans| ==> ans[i] < |g.nlist|
    requires ForwardIndependent(g, ans)
    ensures Independent(g, ans)
  {
    forall i, j | 0 <= i < |ans| && 0 <= j < |ans| && i != j
      ensures ans[j] != ans[i] && ans[j] !in g.nlist[ans[i]]
    {
      if j < i {
        assert ans[i] !in g.nlist[ans[j]];
      }
    }
  }

  // ---------------------------------------------------------------------
  // merge_nlist

  predicate Increasing(s: seq<int>) {
    forall i, j :: 0 <= i < j < |s| ==> s[i] < s[j]
  }

  /** The elements of `left` that also occur in `right`, in `left`'s order. */
  function Intersect(left: seq<int>, right: seq<int>): (r: seq<int>)
    ensures |r| <= |left|
  {
    if left == [] then []
    else
      var last := left[|left| - 1];
      Intersect(left[..|left| - 1], right) + (if last in right then [last] else [])
  }

  /** The scan stops with `right` exhausted while `left` still has elements:
      `left` is non-empty and its last element exceeds everything in
      `right`. */
  predicate Truncates(left: seq<int>, right: seq<int>) {
    left != [] && (right == [] || right[|right| - 1] < left[|left| - 1])
  }

  lemma {:induction false} IntersectMembers(left: seq<int>, right: seq<int>)
    ensures forall x :: x in Intersect(left, right) <==> x in left && x in right
  {
    if left != [] {
      var front := left[..|left| - 1];
      IntersectMembers(front, right);
      assert left == front + [left[|left| - 1]];
    }
  }

  lemma IntersectStep(left: seq<int>, right: seq<int>, k: nat)
    requires k < |left|
    ensures Intersect(left[..k + 1], right)
         == Intersect(left[..k], right) + (if left[k] in right then [left[k]] else [])
  {
    assert left[..k + 1][..k] == left[..k];
  }

  /** Elements of `left` beyond position `k` that are absent from `right` add
      nothing to the intersection. */
  lemma {:induction false} IntersectIgnoresTail(left: seq<int>, right: seq<int>, k: nat)
    requires k <= |left|
    requires forall i :: k <= i < |left| ==> left[i] !in right
    ensures Intersect(left, right) == Intersect(left[..k], right)
    decreases |left| - k
  {
    if k < |left| {
      IntersectStep(left, right, k);
      IntersectIgnoresTail(left, right, k + 1);
    } else {
      assert left[..k] == left;
    }
  }

  /** A value above the first `rr` elements of an increasing list and below
      the rest is not in the list. */
  lemma BetweenNotIn(right: seq<int>, rr: nat, x: int)
    requires Increasing(right) && rr <= |right|
    requires forall j :: 0 <= j < rr ==> right[j] < x
    requires rr < |right| ==> x < right[rr]
    ensures x !in right
  {
    forall j | 0 <= j < |right| ensures right[j] != x {
      if rr < j {
        assert right[rr] < right[j];
      }
    }
  }

  /** The state of the scan: the intersection of the part of `left` read so
      far sits before the write position, nothing from there on has been
      overwritten, every element of `right` read so far lies below the next
      element of `left`, and the last element of `left` read lies below the
      next element of `right` or at most the last one read. */
  predicate ScanInv(left: seq<int>, right: seq<int>, a: seq<int>, lr: nat, wpos: nat, rr: nat) {
    && wpos <= lr <= |left| && rr <= |right| && |a| == |left|
    && a[..wpos] == Intersect(left[..lr], right)
    && (forall i :: wpos <= i < |a| ==> a[i] == left[i])
    && (lr < |left| ==> forall j :: 0 <= j < rr ==> right[j] < left[lr])
    && (lr > 0 ==>
        (rr < |right| && left[lr - 1] < right[rr]) || (rr > 0 && left[lr - 1] <= right[rr - 1]))
  }

  /** `l_id < r_id`: the left element is in no position of `right`; only the
      left read position moves. */
  lemma ScanLess(left: seq<int>, right: seq<int>, a: seq<int>, lr: nat, wpos: nat, rr: nat)
    requires Increasing(left) && Increasing(right)
    requires ScanInv(left, right, a, lr, wpos, rr)
    requires lr < |left| && rr < |right| && left[lr] < right[rr]
    ensures ScanInv(left, right, a, lr + 1, wpos, rr)
  {
    IntersectStep(left, right, lr);
    BetweenNotIn(right, rr, left[lr]);
  }

  /** `l_id == r_id`: the element is written at the write position (unless
      it is already there) and all three positions move. */
  lemma ScanEqual(left: seq<int>, right: seq<int>, a: seq<int>, lr: nat, wpos: nat, rr: nat)
    requires Increasing(left) && Increasing(right)
    requires ScanInv(left, right, a, lr, wpos, rr)
    requires lr < |left| && rr < |right| && left[lr] == right[rr]
    ensures ScanInv(left, right, if lr != wpos then a[wpos := left[lr]] else a, lr + 1, wpos + 1, rr + 1)
  {
    IntersectStep(left, right, lr);
    var a' := if lr != wpos then a[wpos := left[lr]] else a;
    assert a'[..wpos + 1] == a[..wpos] + [left[lr]];
  }

  /** `l_id > r_id`: only the right read position moves. */
  lemma ScanGreater(left: seq<int>, right: seq<int>, a: seq<int>, lr: nat, wpos: nat, rr: nat)
    requires Increasing(left) && Increasing(right)
    requires ScanInv(left, right, a, lr, wpos, rr)
    requires lr < |left| && rr < |right| && left[lr] > right[rr]
    ensures ScanInv(left, right, a, lr, wpos, rr + 1)
  {
  }

  /** Leaving with `left` exhausted: the intersection is complete and the scan
      does not truncate. */
  lemma ScanLeftDone(left: seq<int>, right: seq<int>, a: seq<int>, lr: nat, wpos: nat, rr: nat)
    requires Increasing(left) && Increasing(right)
    requires ScanInv(left, right, a, lr, wpos, rr) && lr == |left|
    ensures a[..wpos] == Intersect(left, right)
    ensures !Truncates(left, right)
  {
    assert left[..lr] == left;
    if left != [] && right != [] {
      assert left[|left| - 1] <= right[|right| - 1];
    }
  }

  /** Leaving with `right` exhausted first: the rest of `left` lies above all
      of `right`, so the prefix already is the whole intersection. */
  lemma ScanRightDone(left: seq<int>, right: seq<int>, a: seq<int>, lr: nat, wpos: nat, rr: nat)
    requires Increasing(left) && Increasing(right)
    requires ScanInv(left, right, a, lr, wpos, rr) && lr < |left| && rr == |right|
    ensures a[..wpos] == Intersect(left, right)
    ensures Truncates(left, right)
  {
    forall i | lr <= i < |left| ensures left[i] !in right {
      BetweenNotIn(right, rr, left[i]);
    }
    IntersectIgnoresTail(left, right, lr);
    if right != [] {
      assert right[|right| - 1] < left[lr] <= left[|left| - 1];
    }
  }

  /** The loop of `merge_nlist` with its read and write positions, on any
      input.  It only ever copies elements of `left` over `left`, so the list
      keeps its length and holds nothing new.  On strictly increasing inputs
      it ends with the intersection written over the front of `left`, the
      rest of `left` untouched, and `truncated` telling whether it stopped
      because `right` ran out first (the branch that erases the tail). */
  method MergeScan(left: seq<int>, right: seq<int>) returns (a: seq<int>, wpos: nat, truncated: bool)
    ensures |a| == |left| && wpos <= |a|
    ensures forall i :: 0 <= i < |a| ==> a[i] in left
    ensures Increasing(left) && Increasing(right) ==>
      && a[..wpos] == Intersect(left, right)
      && a[wpos..] == left[wpos..]
      && (truncated <==> Truncates(left, right))
  {
    a := left;
    var lr, rr := 0, 0;
    wpos := 0;
    while true
      invariant wpos <= lr <= |left| && rr <= |right| && |a| == |left|
      invariant forall i :: 0 <= i < |a| ==> a[i] in left
      invariant Increasing(left) && Increasing(right) ==> ScanInv(left, right, a, lr, wpos, rr)
      decreases |left| - lr + |right| - rr
    {
      if lr == |left| {
        if Increasing(left) && Increasing(right) {
          ScanLeftDone(left, right, a, lr, wpos, rr);
        }
        truncated := false;
        break;
      }
      var lId := a[lr];
      if rr == |right| {
        if Increasing(left) && Increasing(right) {
          ScanRightDone(left, right, a, lr, wpos, rr);
        }
        truncated := true;
        break;
      }
      var rId := right[rr];
      if lId < rId {
        if Increasing(left) && Increasing(right) {
          ScanLess(left, right, a, lr, wpos, rr);
        }
        lr := lr + 1;
      } else if lId == rId {
        if Increasing(left) && Increasing(right) {
          ScanEqual(left, right, a, lr, wpos, rr);
        }
        if lr != wpos {
          a := a[wpos := lId];
        }
        lr := lr + 1;
        wpos := wpos + 1;
        rr := rr + 1;
      } else {
        if Increasing(left) && Increasing(right) {
          ScanGreater(left, right, a, lr, wpos, rr);
        }
        rr := rr + 1;
      }
    }
    if Increasing(left) && Increasing(right) {
      TailAgrees(a, left, wpos);
    }
  }

  lemma TailAgrees(a: seq<int>, left: seq<int>, wpos: nat)
    requires |a| == |left| && wpos <= |a|
    requires forall i :: wpos <= i < |a| ==> a[i] == left[i]
    ensures a[wpos..] == left[wpos..]
  {
  }

  /** `merge_nlist` as written: the tail is erased only on the branch where
      `right` runs out first.  The result is the intersection followed, when
      `left` ran out first, by the stale tail of the original `left`. */
  method MergeNlist(left: seq<int>, right: seq<int>) returns (res: seq<int>)
    ensures |res| <= |left|
    ensures forall x :: x in res ==> x in left
    ensures Increasing(left) && Increasing(right) ==> res == MergeAsWritten(left, right)
  {
    var a, wpos, truncated := MergeScan(left, right);
    if truncated {
      res := a[..wpos];
    } else {
      res := a;
      if Increasing(left) && Increasing(right) {
        assert a == a[..wpos] + a[wpos..];
      }
    }
  }

  /** What `merge_nlist` leaves behind, stated without the loop. */
  function MergeAsWritten(left: seq<int>, right: seq<int>): seq<int> {
    var common := Intersect(left, right);
    if Truncates(left, right) then common
    else common + left[|common|..]
  }

  /** The stale tail is real: for `left = [1, 2]` and `right = [2]` the scan
      ends with `left` exhausted, and the list keeps the overwritten copy of
      `2` instead of shrinking to the intersection `[2]`. */
  lemma MergeAsWrittenKeepsStaleTail()
    ensures Intersect([1, 2], [2]) == [2]
    ensures MergeAsWritten([1, 2], [2]) == [2, 2]
    ensures MergeAsWritten([1, 2], [2]) != Intersect([1, 2], [2])
  {
    assert [1, 2][..1] == [1];
    assert [1][..0] == [];
  }

  /** The result always starts with the intersection, and it equals the
      intersection exactly when the tail is erased or nothing of `left` was
      dropped. */
  lemma MergeAsWrittenPrefix(left: seq<int>, right: seq<int>)
    ensures MergeAsWritten(left, right)[..|Intersect(left, right)|] == Intersect(left, right)
    ensures MergeAsWritten(left, right) == Intersect(left, right)
        <==> Truncates(left, right) || |Intersect(left, right)| == |left|
  {
  }

  /** `merge_nlist` with the tail erased on both exits: the list becomes
      exactly the elements of `left` that occur in `right`. */
  method MergeNlistCorrected(left: seq<int>, right: seq<int>) returns (res: seq<int>)
    requires Increasing(left) && Increasing(right)
    ensures res == Intersect(left, right)
    ensures forall x :: x in res <==> x in left && x in right
    ensures Increasing(res)
  {
    var a, wpos, truncated := MergeScan(left, right);
    res := a[..wpos];
    IntersectMembers(left, right);
    IntersectIncreasing(left, right);
  }

  /** The intersection of an increasing list stays increasing. */
  lemma {:induction false} IntersectIncreasing(left: seq<int>, right: seq<int>)
    requires Increasing(left)
    ensures Increasing(Intersect(left, right))
  {
    if left != [] {
      var front := left[..|left| - 1];
      assert Increasing(front);
      IntersectIncreasing(front, right);
      IntersectMembers(front, right);
      var r := Intersect(left, right);
      var f := Intersect(front, right);
      forall i, j | 0 <= i < j < |r| ensures r[i] < r[j] {
        if j >= |f| {
          assert r[i] in f;
          assert r[j] == left[|left| - 1];
        }
      }
    }
  }
}
