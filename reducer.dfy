// reducebdt on values: a post-order pass that collapses every node whose two
// reduced children are structurally equal into one copy of that child.

module Reducer {
  import opened Trees

  /** The reduction step at one node labelled x{k} whose children have been reduced to l
      and h: equal children collapse into one copy of l. */
  function Merge(k: nat, l: Tree, h: Tree): Tree
  {
    if l == h then l else Node(k, l, h)
  }

  function Reduce(t: Tree): Tree
  {
    match t
    case Leaf(_) => t
    case Node(k, lo, hi) => Merge(k, Reduce(lo), Reduce(hi))
  }

  /** After reduction no internal node has equal children. */
  lemma {:induction false} ReduceIsReduced(t: Tree)
    ensures Reduced(Reduce(t))
  {
    match t
    case Leaf(_) =>
    case Node(_, lo, hi) =>
      ReduceIsReduced(lo);
      ReduceIsReduced(hi);
  }

  /** A tree without redundant tests is left as it is. */
  lemma {:induction false} ReduceKeepsReduced(t: Tree)
    requires Reduced(t)
    ensures Reduce(t) == t
  {
    match t
    case Leaf(_) =>
    case Node(_, lo, hi) =>
      ReduceKeepsReduced(lo);
      ReduceKeepsReduced(hi);
  }

  /** Reduction changes a tree exactly when the tree has a redundant test. */
  lemma ReduceFixpoint(t: Tree)
    ensures Reduce(t) == t <==> Reduced(t)
  {
    ReduceIsReduced(t);
    if Reduced(t) {
      ReduceKeepsReduced(t);
    }
  }

  lemma {:induction false} ReduceIdempotent(t: Tree)
    ensures Reduce(Reduce(t)) == Reduce(t)
  {
    ReduceIsReduced(t);
    ReduceKeepsReduced(Reduce(t));
  }

  /** Reduction never adds nodes. */
  lemma {:induction false} ReduceCount(t: Tree)
    ensures CountTree(Reduce(t)) <= CountTree(t)
  {
    match t
    case Leaf(_) =>
    case Node(_, lo, hi) =>
      ReduceCount(lo);
      ReduceCount(hi);
  }

  /** Reduction removes tests but never adds or reorders them. */
  lemma {:induction false} ReduceShape(t: Tree, m: nat, n: nat)
    ensures Ordered(t, m) ==> Ordered(Reduce(t), m)
    ensures VarsWithin(t, n) ==> VarsWithin(Reduce(t), n)
  {
    match t
    case Leaf(_) =>
    case Node(k, lo, hi) =>
      ReduceShape(lo, k, n);
      ReduceShape(hi, k, n);
      if Ordered(t, m) {
        OrderedWeaken(Reduce(lo), k, m);
      }
  }

  lemma {:induction false} OrderedWeaken(t: Tree, k: nat, m: nat)
    requires Ordered(t, k) && m <= k
    ensures Ordered(t, m)
  {
    match t
    case Leaf(_) =>
    case Node(_, _, _) =>
  }

  /** Reduction preserves the value of the function on every input. */
  lemma {:induction false} ReduceEval(t: Tree, input: string)
    requires VarsWithin(t, |input|)
    ensures VarsWithin(Reduce(t), |input|)
    ensures Holds(Reduce(t), input) == Holds(t, input)
  {
    ReduceShape(t, 0, |input|);
    match t
    case Leaf(_) =>
    case Node(k, lo, hi) =>
      ReduceEval(lo, input);
      ReduceEval(hi, input);
  }
}
