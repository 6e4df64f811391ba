/** The node record of the independent-set bound: a row position, a link
    array of adjacent nodes (named here by their indices), the size of that
    array, a count of the links still in effect, and the node's index in a
    heap, where index 0 means the node is not in the heap. */
module MisNode {

  datatype Node = Node(rowPos: int, adjLink: seq<nat>, adjSize: int, num: int, heapIdx: int)

  /** The link array holds at least `adj_size` entries. */
  predicate Valid(n: Node) {
    0 <= n.adjSize <= |n.adjLink|
  }

  function RowPos(n: Node): int {
    n.rowPos
  }

  function Deleted(n: Node): bool {
    n.heapIdx == 0
  }

  function AdjSize(n: Node): int {
    n.adjSize
  }

  function AdjNum(n: Node): int {
    n.num
  }

  /** `adj_node(pos)`, for `0 <= pos < adj_size()`. */
  function AdjNode(n: Node, pos: nat): nat
    requires Valid(n) && pos < n.adjSize
  {
    n.adjLink[pos]
  }

  /** `set(row_pos)`: a node for the row, with no links and outside the heap. */
  function Set(rowPos: int): (n: Node)
    ensures Valid(n)
    ensures RowPos(n) == rowPos
    ensures AdjSize(n) == 0 && AdjNum(n) == 0
    ensures Deleted(n)
  {
    Node(rowPos, [], 0, 0, 0)
  }

  /** `set_adj_link(adj_num, adj_link)`: installs the first `k` links; the
      link count starts at `k`, and the row position and the heap index stay
      as they were. */
  function SetAdjLink(n: Node, k: nat, link: seq<nat>): (r: Node)
    requires k <= |link|
    ensures Valid(r)
    ensures AdjSize(r) == k && AdjNum(r) == k
    ensures forall p :: 0 <= p < k ==> AdjNode(r, p) == link[p]
    ensures RowPos(r) == RowPos(n) && Deleted(r) == Deleted(n)
  {
    n.(adjLink := link, adjSize := k, num := k)
  }

  /** `dec_adj_num()`: the link count drops by one; the links, their number
      and everything else stay as they were. */
  function DecAdjNum(n: Node): (r: Node)
    ensures AdjNum(r) == AdjNum(n) - 1
    ensures AdjSize(r) == AdjSize(n) && r.adjLink == n.adjLink
    ensures RowPos(r) == RowPos(n) && Deleted(r) == Deleted(n)
    ensures Valid(n) ==> Valid(r) && forall p :: 0 <= p < AdjSize(n) ==> AdjNode(r, p) == AdjNode(n, p)
  {
    n.(num := n.num - 1)
  }

  function DecAdjNumTimes(n: Node, j: nat): Node {
    if j == 0 then n else DecAdjNum(DecAdjNumTimes(n, j - 1))
  }

  /** After the links are installed and `j` of them are dropped, the count is
      `k - j`, still between zero and the array size when `j <= k`, and the
      links themselves are those installed. */
  lemma {:induction false} CountAfterDrops(n: Node, k: nat, link: seq<nat>, j: nat)
    requires k <= |link|
    ensures AdjNum(DecAdjNumTimes(SetAdjLink(n, k, link), j)) == k - j
    ensures AdjSize(DecAdjNumTimes(SetAdjLink(n, k, link), j)) == k
    ensures j <= k ==> 0 <= AdjNum(DecAdjNumTimes(SetAdjLink(n, k, link), j)) <= AdjSize(DecAdjNumTimes(SetAdjLink(n, k, link), j))
    ensures Valid(DecAdjNumTimes(SetAdjLink(n, k, link), j))
    ensures forall p :: 0 <= p < k ==> AdjNode(DecAdjNumTimes(SetAdjLink(n, k, link), j), p) == link[p]
  {
    if j > 0 {
      CountAfterDrops(n, k, link, j - 1);
    }
  }
}
