// buildcompact and buildcompactbdt on values, and the end-to-end contract: the
// built (and reduced) tree evaluates to "1" exactly on the true list.

module Builder {
  import opened Trees
  import opened Reducer
  import opened Binary

  /** Every string of xs has length n. */
  predicate Uniform(xs: set<string>, n: nat)
  {
    forall t {:trigger t in xs} :: t in xs ==> |t| == n
  }

  /** fvaluesZero at level v: the strings with '0' at position v-1. */
  function Zeros(xs: set<string>, v: nat, n: nat): set<string>
    requires 1 <= v <= n && Uniform(xs, n)
  {
    set t | t in xs && t[v - 1] == '0'
  }

  /** fvaluesOne at level v: the strings with any other character at position v-1. */
  function Ones(xs: set<string>, v: nat, n: nat): set<string>
    requires 1 <= v <= n && Uniform(xs, n)
  {
    set t | t in xs && t[v - 1] != '0'
  }

  /** buildcompact at level v of n, without the node allocation: the tree it leaves behind
      for the set of strings it is given. At the last variable two non-empty groups make the
      node a "1" leaf; otherwise the node tests x{v}, an empty group gives a "0" child and a
      non-empty one a child built at v+1. */
  function Build(xs: set<string>, v: nat, n: nat): Tree
    requires 1 <= v <= n && xs != {} && Uniform(xs, n)
    decreases n - v, 1
  {
    var zero := Zeros(xs, v, n);
    var one := Ones(xs, v, n);
    if v == n && zero != {} && one != {} then Leaf(true)
    else Node(v, Child(zero, v, n), Child(one, v, n))
  }

  /** The child of a node at level v built from one group. */
  function Child(group: set<string>, v: nat, n: nat): Tree
    requires 1 <= v <= n && Uniform(group, n)
    decreases n - v, 0
  {
    if group == {} then Leaf(false)
    else if v == n then Leaf(true)
    else Build(group, v + 1, n)
  }

  /** The strings of a list, as a set. */
  function Elements(fvalues: seq<string>): (r: set<string>)
    ensures r == {} <==> fvalues == []
    ensures forall n: nat :: SameLength(fvalues, n) ==> Uniform(r, n)
  {
    var r := set t | t in fvalues;
    assert fvalues != [] ==> fvalues[0] in r;
    r
  }

  /** What the caller of buildcompactbdt guarantees: equal-length, duplicate-free strings. */
  predicate WellFormed(fvalues: seq<string>)
  {
    fvalues != [] ==> SameLength(fvalues, |fvalues[0]|) && Distinct(fvalues)
  }

  /** buildcompactbdt: null for no true inputs, a single "1" leaf when all 2^n inputs are
      true, otherwise the reduced built tree. Its tests lie in x1..xn, increase along
      every path and are never redundant. */
  function Compact(fvalues: seq<string>): (r: Option<Tree>)
    requires WellFormed(fvalues)
    ensures r.None? <==> fvalues == []
    ensures r.Some? ==> VarsWithin(r.value, |fvalues[0]|) && Ordered(r.value, 0) && Reduced(r.value)
    ensures fvalues != [] && |fvalues| == Pow2(|fvalues[0]|) ==> r == Some(Leaf(true)) && Count(r) == 1
  {
    if |fvalues| == 0 then None
    else
      var n := |fvalues[0]|;
      if |fvalues| == Pow2(n) then Some(Leaf(true))
      else
        EmptyStrings(fvalues, n);
        var xs := Elements(fvalues);
        assert fvalues[0] in xs;
        var t := Build(xs, 1, n);
        BuildShape(xs, 1, n);
        ReduceShape(t, 0, n);
        ReduceIsReduced(t);
        Some(Reduce(t))
  }

  /** The node built at level v is labelled x{v}, or is the "1" leaf of the last-level
      shortcut; variables increase along every path and stay within x1..xn. */
  lemma {:induction false} BuildShape(xs: set<string>, v: nat, n: nat)
    requires 1 <= v <= n && xs != {} && Uniform(xs, n)
    ensures Ordered(Build(xs, v, n), v - 1)
    ensures VarsWithin(Build(xs, v, n), n)
    ensures Build(xs, v, n).Node? ==> Build(xs, v, n).k == v
    ensures Build(xs, v, n).Leaf? ==> v == n && Build(xs, v, n).value
    decreases n - v, 1
  {
    ChildShape(Zeros(xs, v, n), v, n);
    ChildShape(Ones(xs, v, n), v, n);
  }

  lemma {:induction false} ChildShape(group: set<string>, v: nat, n: nat)
    requires 1 <= v <= n && Uniform(group, n)
    ensures Ordered(Child(group, v, n), v) && VarsWithin(Child(group, v, n), n)
    decreases n - v, 0
  {
    if group != {} && v < n {
      assert Child(group, v, n) == Build(group, v + 1, n);
      BuildShape(group, v + 1, n);
    }
  }

  /** a and b agree on their first m characters. */
  predicate Agree(a: string, b: string, m: nat)
  {
    m <= |a| && m <= |b| && forall i :: 0 <= i < m ==> a[i] == b[i]
  }

  /** Two strings of length n that agree everywhere are equal. */
  lemma AgreeAll(a: string, b: string, n: nat)
    requires |a| == n && |b| == n && Agree(a, b, n)
    ensures a == b
  {
  }

  /** Every string of xs is binary and agrees with s on its first m characters: the
      strings that reach a node whose ancestors tested x1..xm on the path s takes. */
  predicate Near(xs: set<string>, s: string, m: nat)
  {
    forall t :: t in xs ==> IsBinary(t) && Agree(t, s, m)
  }

  /** The group of s at level v holds the strings of xs with s's character at position
      v-1, which therefore agree with s up to and including that position. */
  lemma GroupOf(xs: set<string>, v: nat, n: nat, s: string)
    requires 1 <= v <= n && Uniform(xs, n) && |s| == n && IsBinary(s) && Near(xs, s, v - 1)
    ensures var mine := if s[v - 1] == '0' then Zeros(xs, v, n) else Ones(xs, v, n);
      (s in xs <==> s in mine) && Near(mine, s, v)
  {
  }

  /** t answers 1 on s exactly when s is one of xs. */
  predicate Decides(t: Tree, xs: set<string>, s: string)
  {
    VarsWithin(t, |s|) && Holds(t, s) == (s in xs)
  }

  /** The tree built at level v is correct for every binary input s that agrees with all of
      xs on the positions fixed by the ancestors (x1 .. x{v-1}). */
  lemma {:induction false} BuildCorrect(xs: set<string>, v: nat, n: nat, s: string)
    requires 1 <= v <= n && xs != {} && Uniform(xs, n)
    requires |s| == n && IsBinary(s) && Near(xs, s, v - 1)
    ensures Decides(Build(xs, v, n), xs, s)
    decreases n - v, 1
  {
    BuildShape(xs, v, n);
    GroupOf(xs, v, n, s);
    var zero := Zeros(xs, v, n);
    var one := Ones(xs, v, n);
    var mine := if s[v - 1] == '0' then zero else one;
    ChildCorrect(mine, v, n, s);
    if v == n && zero != {} && one != {} {
      assert Child(mine, v, n) == Leaf(true);
    } else {
      var t := Node(v, Child(zero, v, n), Child(one, v, n));
      assert Build(xs, v, n) == t;
      assert Holds(t, s) == Holds(Child(mine, v, n), s);
    }
  }

  /** A child built from the group of s at level v answers "1" on s exactly when s is in it. */
  lemma {:induction false} ChildCorrect(group: set<string>, v: nat, n: nat, s: string)
    requires 1 <= v <= n && Uniform(group, n)
    requires |s| == n && IsBinary(s) && Near(group, s, v)
    ensures Decides(Child(group, v, n), group, s)
    decreases n - v, 0
  {
    if group == {} {
      assert Child(group, v, n) == Leaf(false);
    } else if v == n {
      assert Child(group, v, n) == Leaf(true);
      var t :| t in group;
      AgreeAll(t, s, n);
    } else {
      assert Child(group, v, n) == Build(group, v + 1, n);
      BuildCorrect(group, v + 1, n, s);
    }
  }

  /** What verifybdt checks, for every input: buildcompactbdt's tree answers "1" exactly
      on the true strings and "0" on every other binary string of the same length. */
  lemma CompactCorrect(fvalues: seq<string>, s: string)
    requires WellFormed(fvalues) && AllBinary(fvalues) && fvalues != []
    requires |s| == |fvalues[0]| && IsBinary(s)
    ensures Compact(fvalues).Some? && VarsWithin(Compact(fvalues).value, |s|)
    ensures Eval(Compact(fvalues), s) == Bit(s in fvalues)
  {
    var n := |fvalues[0]|;
    if |fvalues| == Pow2(n) {
      FullSet(fvalues, n);
    } else {
      EmptyStrings(fvalues, n);
      var xs := Elements(fvalues);
      assert fvalues[0] in xs;
      BuildShape(xs, 1, n);
      BuildCorrect(xs, 1, n, s);
      ReduceEval(Build(xs, 1, n), s);
    }
  }
}
