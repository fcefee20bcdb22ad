// What buildcompactbdt builds for three concrete lists.

module Scenarios {
  import opened Trees
  import opened Builder

  /** {"000", "111"}: the two strings part at x1 and each path then tests x2 and x3, so no
      two sibling subtrees are equal and reduction leaves all 11 nodes in place. */
  lemma NoSharedSubtrees()
    ensures Build({"000", "111"}, 1, 3) ==
      Node(1, Node(2, Node(3, Leaf(true), Leaf(false)), Leaf(false)),
              Node(2, Leaf(false), Node(3, Leaf(false), Leaf(true))))
    ensures CountTree(Build({"000", "111"}, 1, 3)) == 11
    ensures Compact(["000", "111"]) ==
      Some(Node(1, Node(2, Node(3, Leaf(true), Leaf(false)), Leaf(false)),
                   Node(2, Leaf(false), Node(3, Leaf(false), Leaf(true)))))
    ensures Count(Compact(["000", "111"])) == 11
  {
    var xs := Elements(["000", "111"]);
    assert xs == {"000", "111"};
    assert Zeros(xs, 1, 3) == {"000"};
    assert Ones(xs, 1, 3) == {"111"};
    assert Zeros({"000"}, 2, 3) == {"000"} && Ones({"000"}, 2, 3) == {};
    assert Zeros({"000"}, 3, 3) == {"000"} && Ones({"000"}, 3, 3) == {};
    assert Zeros({"111"}, 2, 3) == {} && Ones({"111"}, 2, 3) == {"111"};
    assert Zeros({"111"}, 3, 3) == {} && Ones({"111"}, 3, 3) == {"111"};
  }

  /** {"11"}: x1 = 0 leads straight to a "0" leaf, x1 = 1 to a test of x2. */
  lemma SingleTrueInput()
    ensures Compact(["11"]) == Some(Node(1, Leaf(false), Node(2, Leaf(false), Leaf(true))))
    ensures Count(Compact(["11"])) == 5
  {
    var xs := Elements(["11"]);
    assert xs == {"11"};
    assert Zeros(xs, 1, 2) == {} && Ones(xs, 1, 2) == {"11"};
    assert Zeros(xs, 2, 2) == {} && Ones(xs, 2, 2) == {"11"};
  }

  /** {"000", "001", "100", "101"}: both x1 branches build the same subtree (x2 = 0 reaches
      the last-level "1" shortcut, x2 = 1 a "0" leaf), so reduction shrinks the 7 built
      nodes to the 3 of that subtree. */
  lemma SharedSubtrees()
    ensures Build({"000", "001", "100", "101"}, 1, 3) ==
      Node(1, Node(2, Leaf(true), Leaf(false)), Node(2, Leaf(true), Leaf(false)))
    ensures CountTree(Build({"000", "001", "100", "101"}, 1, 3)) == 7
    ensures Compact(["000", "001", "100", "101"]) == Some(Node(2, Leaf(true), Leaf(false)))
    ensures Count(Compact(["000", "001", "100", "101"])) == 3
  {
    var xs := Elements(["000", "001", "100", "101"]);
    assert xs == {"000", "001", "100", "101"};
    assert Zeros(xs, 1, 3) == {"000", "001"} && Ones(xs, 1, 3) == {"100", "101"};
    assert Zeros({"000", "001"}, 2, 3) == {"000", "001"} && Ones({"000", "001"}, 2, 3) == {};
    assert Zeros({"000", "001"}, 3, 3) == {"000"} && Ones({"000", "001"}, 3, 3) == {"001"};
    assert Zeros({"100", "101"}, 2, 3) == {"100", "101"} && Ones({"100", "101"}, 2, 3) == {};
    assert Zeros({"100", "101"}, 3, 3) == {"100"} && Ones({"100", "101"}, 3, 3) == {"101"};
  }
}
