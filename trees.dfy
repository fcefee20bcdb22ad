// The value of a compact binary decision tree and its two pure recursions:
// evaluation (evalcompactbdt) and node counting (countbdtnodes).

module Trees {

  datatype Option<T> = None | Some(value: T)

  /** The value of a bdnode subtree. A leaf carries "0" or "1"; an internal node
      carries "x{k}" and owns lo (the left, 0 branch) and hi (the right, 1 branch). */
  datatype Tree = Leaf(value: bool) | Node(k: nat, lo: Tree, hi: Tree)

  /** What evalcompactbdt answers for a null tree. */
  const NoResult: string := "Solution Could Not Be Found."

  /** The label of a leaf. */
  function Bit(b: bool): string
  {
    if b then "1" else "0"
  }

  /** Every tested variable x{k} has 1 <= k <= n, so input[k-1] exists whenever |input| >= n. */
  predicate VarsWithin(t: Tree, n: nat)
  {
    match t
    case Leaf(_) => true
    case Node(k, lo, hi) => 1 <= k <= n && VarsWithin(lo, n) && VarsWithin(hi, n)
  }

  /** Variables strictly increase along every root-to-leaf path, all of them above m. */
  predicate Ordered(t: Tree, m: nat)
  {
    match t
    case Leaf(_) => true
    case Node(k, lo, hi) => m < k && Ordered(lo, k) && Ordered(hi, k)
  }

  /** No internal node has two structurally equal children. */
  predicate Reduced(t: Tree)
  {
    match t
    case Leaf(_) => true
    case Node(_, lo, hi) => lo != hi && Reduced(lo) && Reduced(hi)
  }

  /** The value a non-null tree gives the function at input: walk to a leaf, taking lo
      when input[k-1] is '0' and hi for any other character. */
  function Holds(t: Tree, input: string): bool
    requires VarsWithin(t, |input|)
  {
    match t
    case Leaf(b) => b
    case Node(k, lo, hi) =>
      if input[k - 1] == '0' then Holds(lo, input) else Holds(hi, input)
  }

  /** evalcompactbdt: the label of the leaf reached, or the sentinel exactly for the null tree. */
  function Eval(t: Option<Tree>, input: string): (r: string)
    requires t.Some? ==> VarsWithin(t.value, |input|)
    ensures r == NoResult <==> t.None?
    ensures t.Some? ==> r == "0" || r == "1"
  {
    match t
    case None => NoResult
    case Some(u) => Bit(Holds(u, input))
  }

  /** Number of nodes of a non-null tree: a full binary tree, so always odd. */
  function CountTree(t: Tree): (c: nat)
    ensures c % 2 == 1
  {
    match t
    case Leaf(_) => 1
    case Node(_, lo, hi) => 1 + CountTree(hi) + CountTree(lo)
  }

  /** countbdtnodes: a null tree has no nodes, any other at least one. */
  function Count(t: Option<Tree>): (c: nat)
    ensures c == 0 <==> t.None?
  {
    match t
    case None => 0
    case Some(u) => CountTree(u)
  }

  lemma {:induction false} VarsWithinMono(t: Tree, n: nat, m: nat)
    requires VarsWithin(t, n) && n <= m
    ensures VarsWithin(t, m)
  {
    match t
    case Leaf(_) =>
    case Node(_, lo, hi) =>
      VarsWithinMono(lo, n, m);
      VarsWithinMono(hi, n, m);
  }
}
