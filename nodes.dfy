// The bdnode structure on the heap and the operations that build, reduce, compare,
// evaluate, count and delete it. Each node carries, as ghost state, the set of nodes it
// owns (Repr) and the value tree it stands for (Model); every operation is tied to the
// value-level definitions of Trees, Reducer and Builder through Model.

module Nodes {
  import opened Trees
  import opened Binary
  import opened Reducer
  import opened Builder

  /** The val string of a bdnode: "0" or "1" on a leaf, "x{k}" on a test, and "Unassigned"
      on a node buildcompact has allocated but not filled in yet. */
  datatype Label = Const(b: bool) | Var(k: nat) | Unassigned

  class BdNode {
    var val: Label
    var left: BdNode?
    var right: BdNode?
    ghost var Repr: set<BdNode>
    ghost var Model: Tree

    /** A finished tree: leaves have no children, tests have two children owning disjoint
        sets of nodes, and no node is "Unassigned". */
    ghost predicate Valid()
      reads this, Repr
      decreases Repr
    {
      this in Repr &&
      match val
      case Unassigned => false
      case Const(b) => left == null && right == null && Repr == {this} && Model == Leaf(b)
      case Var(k) =>
        left != null && right != null &&
        left in Repr && right in Repr && Repr == {this} + left.Repr + right.Repr &&
        this !in left.Repr && this !in right.Repr && left.Repr !! right.Repr &&
        left.Valid() && right.Valid() &&
        Model == Node(k, left.Model, right.Model)
    }

    /** newNode: a node with the given label and no children. */
    constructor (v: Label)
      ensures val == v && left == null && right == null && Repr == {this}
      ensures v.Const? ==> Valid() && Model == Leaf(v.b)
    {
      val := v;
      left := null;
      right := null;
      Repr := {this};
      Model := Leaf(v.Const? && v.b);
    }
  }

  /** A test node whose children are finished trees owning disjoint nodes, with its ghost
      state summing up theirs, is a finished tree. */
  lemma Join(p: BdNode)
    requires p.val.Var? && p.left != null && p.right != null
    requires p.left.Valid() && p.right.Valid()
    requires p !in p.left.Repr && p !in p.right.Repr && p.left.Repr !! p.right.Repr
    requires p.Repr == {p} + p.left.Repr + p.right.Repr
    requires p.Model == Node(p.val.k, p.left.Model, p.right.Model)
    ensures p.Valid()
  {
  }

  /** A finished tree none of whose nodes have changed is still finished. */
  twostate lemma {:induction false} Untouched(t: BdNode)
    requires old(t.Valid()) && unchanged(old(t.Repr))
    ensures t.Valid() && t.Repr == old(t.Repr) && t.Model == old(t.Model)
    decreases old(t.Repr)
  {
    if t.val.Var? {
      Untouched(t.left);
      Untouched(t.right);
    }
  }

  /** A node that has taken over the label, children and ghost state of a finished tree a,
      none of whose nodes have changed, is itself a finished tree. */
  twostate lemma Adopted(new p: BdNode, a: BdNode)
    requires old(a.Valid()) && p !in old(a.Repr) && unchanged(old(a.Repr))
    requires p.val == old(a.val) && p.left == old(a.left) && p.right == old(a.right)
    requires p.Repr == {p} + (old(a.Repr) - {a}) && p.Model == old(a.Model)
    ensures p.Valid()
  {
    if p.val.Var? {
      Untouched(p.left);
      Untouched(p.right);
      Join(p);
    }
  }

  /** The value a possibly null bdt stands for. */
  ghost function ModelOf(t: BdNode?): Option<Tree>
    reads t
  {
    if t == null then None else Some(t.Model)
  }

  /** The nodes a possibly null bdt owns. */
  ghost function ReprOf(t: BdNode?): set<BdNode>
    reads t
  {
    if t == null then {} else t.Repr
  }

  /** comparebdt: true exactly when the two trees are structurally equal (same labels in the
      same places), so it is reflexive and symmetric. */
  function CompareBdt(a: BdNode?, b: BdNode?): (r: bool)
    requires a != null ==> a.Valid()
    requires b != null ==> b.Valid()
    reads a, if a != null then a.Repr else {}, b, if b != null then b.Repr else {}
    ensures r <==> ModelOf(a) == ModelOf(b)
    decreases ReprOf(a)
  {
    if a == null && b == null then true
    else if a == null || b == null then false
    else a.val == b.val && CompareBdt(a.right, b.right) && CompareBdt(a.left, b.left)
  }

  /** evalcompactbdt: the label of the leaf that input leads to, or the sentinel for a null
      tree; it agrees with the value-level evaluation of the tree's model. */
  function EvalCompactBdt(t: BdNode?, input: string): (r: string)
    requires t != null ==> t.Valid() && VarsWithin(t.Model, |input|)
    reads t, if t != null then t.Repr else {}
    ensures r == Eval(ModelOf(t), input)
    decreases ReprOf(t)
  {
    if t == null then NoResult
    else if t.val.Const? then Bit(t.val.b)
    else if input[t.val.k - 1] == '0' then EvalCompactBdt(t.left, input)
    else EvalCompactBdt(t.right, input)
  }

  /** countbdtnodes: the number of nodes of the tree, 0 for a null tree. */
  function CountBdtNodes(t: BdNode?): (c: nat)
    requires t != null ==> t.Valid()
    reads t, if t != null then t.Repr else {}
    ensures c == Count(ModelOf(t))
    decreases ReprOf(t)
  {
    if t == null then 0 else 1 + CountBdtNodes(t.right) + CountBdtNodes(t.left)
  }

  /** deletebdt: visits the tree, clearing the children of every node, and returns null.
      Freeing the memory has no counterpart here. */
  method DeleteBdt(root: BdNode) returns (r: BdNode?)
    requires root.Valid()
    modifies root.Repr
    ensures r == null
    ensures forall x :: x in old(root.Repr) ==> x.left == null && x.right == null
    decreases root.Repr
  {
    if root.left == null {
      return null;
    }
    root.left := DeleteBdt(root.left);
    root.right := DeleteBdt(root.right);
    return null;
  }

  /** The partition loop of buildcompact: one pass over the first numSolutions strings,
      pushing each onto fvaluesZero when it has '0' at position v-1 and onto fvaluesOne
      otherwise, and counting the first kind. The two lists hold exactly the strings of
      the zero and the one group of level v. */
  method Partition(fvalues: seq<string>, v: nat, n: nat, numSolutions: nat)
      returns (fvaluesZero: seq<string>, fvaluesOne: seq<string>, zeroCount: nat)
    requires 1 <= v <= n && SameLength(fvalues, n) && numSolutions == |fvalues|
    ensures SameLength(fvaluesZero, n) && SameLength(fvaluesOne, n)
    ensures zeroCount == |fvaluesZero| && zeroCount + |fvaluesOne| == numSolutions
    ensures Elements(fvaluesZero) == Zeros(Elements(fvalues), v, n)
    ensures Elements(fvaluesOne) == Ones(Elements(fvalues), v, n)
  {
    fvaluesZero, fvaluesOne, zeroCount := [], [], 0;
    for i := 0 to numSolutions
      invariant zeroCount == |fvaluesZero| && |fvaluesZero| + |fvaluesOne| == i
      invariant SameLength(fvaluesZero, n) && SameLength(fvaluesOne, n)
      invariant forall t :: t in fvaluesZero <==> t in fvalues[..i] && t[v - 1] == '0'
      invariant forall t :: t in fvaluesOne <==> t in fvalues[..i] && t[v - 1] != '0'
    {
      assert fvalues[..i + 1] == fvalues[..i] + [fvalues[i]];
      if fvalues[i][v - 1] == '0' {
        fvaluesZero := fvaluesZero + [fvalues[i]];
        zeroCount := zeroCount + 1;
      } else {
        fvaluesOne := fvaluesOne + [fvalues[i]];
      }
    }
    assert fvalues[..numSolutions] == fvalues;
  }

  /** Hangs two finished trees owning disjoint nodes below the test node root. */
  method Hang(root: BdNode, lo: BdNode, hi: BdNode)
    requires root.val.Var? && lo.Valid() && hi.Valid()
    requires root !in lo.Repr && root !in hi.Repr && lo.Repr !! hi.Repr
    modifies root
    ensures root.Valid() && root.val == old(root.val) && root.left == lo && root.right == hi
    ensures root.Repr == {root} + lo.Repr + hi.Repr
    ensures root.Model == Node(root.val.k, lo.Model, hi.Model)
  {
    root.left, root.right := lo, hi;
    root.Repr, root.Model := {root} + lo.Repr + hi.Repr, Node(root.val.k, lo.Model, hi.Model);
    Untouched(lo);
    Untouched(hi);
    Join(root);
  }

  /** newNode("Unassigned") followed by buildcompact on it: a child built from a non-empty group. */
  method Grow(fvalues: seq<string>, v: nat, n: nat, numSolutions: nat) returns (r: BdNode)
    requires 1 <= v <= n && SameLength(fvalues, n)
    requires numSolutions == |fvalues| && numSolutions > 0
    ensures r.Valid() && fresh(r.Repr)
    ensures r.Model == Build(Elements(fvalues), v, n)
    decreases n - v, 3
  {
    r := new BdNode(Unassigned);
    r := BuildCompact(r, fvalues, v, n, numSolutions);
  }

  /** buildcompact: partitions fvalues on x{v}, then either turns root into a "1" leaf (both
      groups non-empty at the last variable) or labels it x{v} and hangs the two children
      below it. The finished tree is the value-level Build of the set of strings; every
      recursive call is given a non-empty group. */
  method BuildCompact(root: BdNode, fvalues: seq<string>, v: nat, n: nat, numSolutions: nat)
      returns (r: BdNode)
    requires 1 <= v <= n && SameLength(fvalues, n)
    requires numSolutions == |fvalues| && numSolutions > 0
    requires root.left == null && root.right == null
    modifies root
    ensures r == root && r.Valid() && fresh(r.Repr - {root})
    ensures r.Model == Build(Elements(fvalues), v, n)
    decreases n - v, 2
  {
    var fvaluesZero, fvaluesOne, zeroCount := Partition(fvalues, v, n, numSolutions);
    ghost var zero, one := Elements(fvaluesZero), Elements(fvaluesOne);
    assert Build(Elements(fvalues), v, n) ==
      if v == n && zero != {} && one != {} then Leaf(true)
      else Node(v, Child(zero, v, n), Child(one, v, n));
    root.val := Var(v);
    if v == n && zeroCount != 0 && zeroCount != numSolutions {
      root.val := Const(true);
      root.Repr, root.Model := {root}, Leaf(true);
      return root;
    }
    var lo, hi := Children(fvaluesZero, fvaluesOne, v, n, zeroCount, numSolutions);
    ghost var lower, upper := lo.Repr, hi.Repr;
    Hang(root, lo, hi);
    assert root.Repr == {root} + lower + upper;
    return root;
  }

  /** The children buildcompact hangs below a node labelled x{v}: at the last variable a
      "1" leaf on the side of the one non-empty group and a "0" leaf on the other; above it a
      child built at v+1 for each non-empty group and a "0" leaf for an empty one. */
  method Children(fvaluesZero: seq<string>, fvaluesOne: seq<string>, v: nat, n: nat,
                  zeroCount: nat, numSolutions: nat)
      returns (lo: BdNode, hi: BdNode)
    requires 1 <= v <= n && SameLength(fvaluesZero, n) && SameLength(fvaluesOne, n)
    requires zeroCount == |fvaluesZero| && zeroCount + |fvaluesOne| == numSolutions
    requires numSolutions > 0 && !(v == n && zeroCount != 0 && zeroCount != numSolutions)
    ensures lo.Valid() && hi.Valid() && fresh(lo.Repr) && fresh(hi.Repr) && lo.Repr !! hi.Repr
    ensures lo.Model == Child(Elements(fvaluesZero), v, n)
    ensures hi.Model == Child(Elements(fvaluesOne), v, n)
    decreases n - v, 1
  {
    if v == n {
      if zeroCount != 0 {
        lo := new BdNode(Const(true));
        hi := new BdNode(Const(false));
      } else {
        lo := new BdNode(Const(false));
        hi := new BdNode(Const(true));
      }
    } else {
      if zeroCount != 0 && zeroCount != numSolutions {
        lo := Grow(fvaluesZero, v + 1, n, zeroCount);
        hi := Grow(fvaluesOne, v + 1, n, numSolutions - zeroCount);
      } else if zeroCount != 0 {
        hi := new BdNode(Const(false));
        lo := Grow(fvaluesZero, v + 1, n, zeroCount);
      } else {
        lo := new BdNode(Const(false));
        hi := Grow(fvaluesOne, v + 1, n, numSolutions - zeroCount);
      }
    }
  }

  /** reducebdt: reduces the two children in place, then settles root. The tree left
      behind is the value-level Reduce of the one given, made of nodes it already owned. */
  method ReduceBdt(root: BdNode) returns (r: BdNode)
    requires root.Valid()
    modifies root.Repr
    ensures r == root && r.Valid() && r.Repr <= old(root.Repr)
    ensures r.Model == Reduce(old(root.Model))
    decreases root.Repr
  {
    if root.val.Const? {
      return root;
    }
    ghost var lower, upper := root.left.Repr, root.right.Repr;
    label Start:
    root.left := ReduceBdt(root.left);
    Untouched@Start(root.right);
    label Middle:
    root.right := ReduceBdt(root.right);
    Untouched@Middle(root.left);
    Settle(root, root.left, root.right);
    return root;
  }

  /** The last step of reducebdt, on a test node whose children a and b are reduced: when
      comparebdt finds them equal, root is collapsed onto a; otherwise nothing changes. */
  method Settle(root: BdNode, a: BdNode, b: BdNode)
    requires root.val.Var? && root.left == a && root.right == b
    requires a.Valid() && b.Valid() && root !in a.Repr && root !in b.Repr && a.Repr !! b.Repr
    modifies root, b.Repr
    ensures root.Valid() && root.Repr <= {root} + old(a.Repr) + old(b.Repr)
    ensures root.Model == Merge(old(root.val.k), old(a.Model), old(b.Model))
  {
    if CompareBdt(root.left, root.right) {
      Collapse(root, a, b);
    } else {
      root.Repr, root.Model := {root} + a.Repr + b.Repr, Node(root.val.k, a.Model, b.Model);
      Join(root);
    }
  }

  /** The collapse step of reducebdt: root takes over the label and the children of its
      left child a, and its right child b is deleted (freeing a itself has no counterpart). */
  method Collapse(root: BdNode, a: BdNode, b: BdNode)
    requires root.val.Var? && root.left == a && root.right == b
    requires a.Valid() && b.Valid() && root !in a.Repr && root !in b.Repr && a.Repr !! b.Repr
    modifies root, b.Repr
    ensures root.Valid() && root.Model == old(a.Model) && root.Repr == {root} + (old(a.Repr) - {a})
  {
    ghost var kept, dropped := {root} + (a.Repr - {a}), b.Repr;
    assert kept !! dropped;
    root.val, root.left, root.right, root.Repr, root.Model := a.val, a.left, a.right, kept, a.Model;
    Adopted(root, a);
    label Copied:
    assert b.Repr == dropped;
    var gone := DeleteBdt(b);
    Untouched@Copied(root);
  }

  /** buildcompactbdt: null for an empty list, a single "1" leaf when all 2^n inputs are
      listed, otherwise the tree buildcompact grows from a fresh root, reduced in place. */
  method BuildCompactBdt(fvalues: seq<string>) returns (r: BdNode?)
    requires WellFormed(fvalues)
    ensures r != null ==> r.Valid() && fresh(r.Repr)
    ensures ModelOf(r) == Compact(fvalues)
  {
    var numSolutions := |fvalues|;
    if numSolutions == 0 {
      return null;
    }
    var numVariables := |fvalues[0]|;
    var root := new BdNode(Const(false));
    if numSolutions == Pow2(numVariables) {
      root.val := Const(true);
      root.Model := Leaf(true);
      return root;
    }
    EmptyStrings(fvalues, numVariables);
    root := BuildCompact(root, fvalues, 1, numVariables, numSolutions);
    root := ReduceBdt(root);
    return root;
  }
}
