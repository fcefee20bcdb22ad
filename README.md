# Compact binary decision trees

A model of the core of Reduced-Binary-Trees. The program takes a list of the binary
input strings on which a Boolean function is true, and builds a compact binary decision
tree for it (`buildcompactbdt`). The tree is grown one variable at a time (`buildcompact`).
Identical sibling subtrees are then merged in place (`reducebdt`, using `comparebdt` and
`deletebdt`). Beside the builder are three other operations:

- `evalcompactbdt` walks the tree for one input;
- `countbdtnodes` counts its nodes;
- `verifybdt` enumerates every input of the strings' length, prints one truth-table line
  each and collects the inputs whose answer disagrees with the list.

The model has two layers.

- **Values** (`trees.dfy`, `reducer.dfy`, `binary.dfy`, `builder.dfy`):
  - `Tree` is the value of a `bdnode` subtree.
  - `Holds`/`Eval` and `CountTree`/`Count` are the two pure recursions.
  - `Reduce` is the post-order merge.
  - `Build`/`Child` describe what `buildcompact` leaves behind for a set of strings.
  - `Compact` is the whole of `buildcompactbdt`.
  - `Inputs` is the order in which `verifybdt` visits inputs.
- **Heap** (`nodes.dfy`, `verifier.dfy`):
  - `BdNode` is a class with the `bdnode` fields `val`, `left` and `right`. It also has
    ghost `Repr` (the nodes it owns) and ghost `Model` (its value).
  - The source's functions are methods and functions over `BdNode`. Each one except
    `DeleteBdt` is proved against the value layer through `Model`.
  - `buildcompact` and `reducebdt` mutate nodes in place.
  - `verifybdt` is a recursive method whose scans are loops.

`scenarios.dfy` works out what `buildcompactbdt` builds for three concrete lists.

The main results:

- `Builder.CompactCorrect`: for a duplicate-free list of equal-length binary strings, the
  built and reduced tree answers "1" on a binary input of that length exactly when the
  input is listed, and "0" otherwise.
- `Verifier.CompactVerifies`: on that tree, a full `verifybdt` run records no errors and
  prints the list's own truth table.
- `Nodes.BuildCompactBdt` yields a heap tree whose value is `Compact`.
- `Nodes.ReduceBdt` leaves behind exactly `Reduce` of the tree it was given, using only
  nodes that tree already owned.

Two consequences of the code are worth stating.

- **The last-level shortcut is sound.** When both groups are non-empty at the last
  variable, `buildcompact` makes the node a "1" leaf without testing that variable. Given
  distinct binary strings, the strings that reach such a node differ only in the last
  digit, so both answers are "1" (`Builder.BuildCorrect`).
- **Reduction does not always shrink the tree.** {"000","111"} keeps all 11 nodes
  (`Scenarios.NoSharedSubtrees`); {"000","001","100","101"} goes from 7 nodes to 3
  (`Scenarios.SharedSubtrees`).

## Model

| member | source | states |
|---|---|---|
| Trees.Holds | main.cpp:260-274 | definition, no contract of its own: the walk from the root to a leaf, lo on '0' and hi otherwise; its properties are Trees.Eval, Reducer.ReduceEval and Builder.BuildCorrect |
| Trees.Eval | main.cpp:254-275 | the sentinel "Solution Could Not Be Found." is answered exactly for the null tree; any other tree answers "0" or "1" |
| Trees.CountTree | main.cpp:342-352 | a non-null tree has an odd number of nodes (every test has exactly two children) |
| Trees.Count | main.cpp:342-352 | the count is 0 exactly for the null tree |
| Reducer.Merge | main.cpp:215-224 | definition, no contract of its own: the step at one node, collapsing onto the left child when the reduced children are equal; Nodes.Settle is proved against it |
| Reducer.Reduce | main.cpp:207-226 | definition, no contract of its own: the post-order reduction; its properties are Reducer.ReduceIsReduced, ReduceKeepsReduced, ReduceFixpoint, ReduceIdempotent, ReduceCount, ReduceShape and ReduceEval, and Nodes.ReduceBdt is proved against it |
| Reducer.ReduceIsReduced | main.cpp:207-226 | after reduction no internal node has two structurally equal children |
| Reducer.ReduceKeepsReduced | main.cpp:207-226 | a tree without equal siblings is left unchanged |
| Reducer.ReduceFixpoint | main.cpp:207-226 | reduction leaves a tree unchanged if and only if it has no equal siblings |
| Reducer.ReduceIdempotent | main.cpp:207-226 | reducing twice gives the same tree as reducing once |
| Reducer.ReduceCount | main.cpp:207-226 | reduction never increases the node count |
| Reducer.ReduceShape | main.cpp:207-226 | reduction keeps variables increasing along paths and within x1..xn |
| Reducer.ReduceEval | main.cpp:207-226 | the reduced tree gives the same answer as the original on every input |
| Binary.Inputs | main.cpp:335-339 | one run from `length` remaining digits visits 2^length inputs |
| Binary.InputsLength | main.cpp:335-339 | every visited input is the prefix plus `length` more characters |
| Binary.InputsMembers | main.cpp:335-339 | the visited inputs are exactly the prefix followed by `length` binary digits |
| Binary.InputsAscending | main.cpp:335-339 | the i-th visited input spells i in binary after the prefix: ascending order, 0 first |
| Binary.FullSet | main.cpp:136-140 | a duplicate-free list of 2^n binary strings of length n lists every such string, so the "1" leaf shortcut is the right answer |
| Binary.EmptyStrings | main.cpp:134-141 | with strings of length 0 the list has at most one entry, so `buildcompact` is never reached with no variables |
| Builder.Zeros | main.cpp:148-162 | definition, no contract of its own: the strings with '0' at position v-1; Nodes.Partition is proved against it |
| Builder.Ones | main.cpp:148-162 | definition, no contract of its own: the strings with any other character at position v-1; Nodes.Partition is proved against it |
| Builder.Build | main.cpp:146-205 | definition, no contract of its own: the tree buildcompact leaves at level v; its properties are Builder.BuildShape and BuildCorrect, and Nodes.BuildCompact is proved against it |
| Builder.Child | main.cpp:164-202 | definition, no contract of its own: the child hung below a node at level v for one group; its properties are Builder.ChildShape and ChildCorrect, and Nodes.Children is proved against it |
| Builder.Elements | main.cpp:146-162 | the set of the listed strings is empty exactly for the empty list, and its strings share their length |
| Builder.Compact | main.cpp:127-144 | null exactly for the empty list; a single "1" leaf with one node when all 2^n strings are listed; otherwise a tree over x1..xn with variables increasing along every path and no equal siblings |
| Builder.BuildShape | main.cpp:163-204 | the node built at level v is labelled x{v}, or is the "1" leaf of the last-level shortcut; variables increase along every path and stay within x1..xn |
| Builder.ChildShape | main.cpp:164-202 | a child hung below a node at level v tests only variables above x{v} and within x1..xn |
| Builder.GroupOf | main.cpp:148-162 | an input lies in the set at level v exactly when it lies in its own group (by its digit v), and that group agrees with it through position v |
| Builder.BuildCorrect | main.cpp:146-205 | the tree built at level v answers "1" exactly on the strings of its set, for every binary input agreeing with the set on x1..x{v-1} |
| Builder.ChildCorrect | main.cpp:164-202 | a child built from one group answers "1" exactly on the strings of that group |
| Builder.CompactCorrect | main.cpp:127-144 | buildcompactbdt's tree answers "1" on a binary input of length n exactly when it is listed, "0" otherwise |
| Scenarios.NoSharedSubtrees | main.cpp:127-144 | for {"000","111"} the tree built before reduction has 11 nodes and no equal siblings, and buildcompactbdt returns that same tree |
| Scenarios.SingleTrueInput | main.cpp:127-144 | for {"11"} the tree tests x1 and then x2, with 5 nodes |
| Scenarios.SharedSubtrees | main.cpp:207-226 | for {"000","001","100","101"} the built tree has 7 nodes and reduction merges its two equal x2 subtrees into one, leaving 3 |
| Nodes.BdNode.constructor | main.cpp:277-284 | newNode sets the label and leaves both children null; a "0"/"1" node is a finished leaf |
| Nodes.CompareBdt | main.cpp:228-239 | true if and only if the two (possibly null) trees are structurally equal, hence reflexive and symmetric |
| Nodes.EvalCompactBdt | main.cpp:254-275 | the answer equals the value-level evaluation of the tree, including the sentinel for null |
| Nodes.CountBdtNodes | main.cpp:342-352 | the count equals the value-level count of the tree, 0 for null |
| Nodes.DeleteBdt | main.cpp:241-252 | returns null, and every node of the deleted tree is left without children |
| Nodes.Partition | main.cpp:148-162 | fvaluesZero and fvaluesOne hold exactly the strings with '0', respectively any other character, at position v-1; zeroCount is the size of the first; together they have all numSolutions entries |
| Nodes.Hang | main.cpp:185-200 | the two children are hung below root, and root becomes a finished test node over them |
| Nodes.Grow | main.cpp:185-200 | a fresh "Unassigned" node filled in by buildcompact at level v is a finished tree whose value is Build of its group |
| Nodes.BuildCompact | main.cpp:146-205 | root becomes the finished tree Build(set of fvalues, v, n), built from fresh nodes besides root; every recursive call receives a non-empty group |
| Nodes.Children | main.cpp:164-202 | the left and right children hung at level v are fresh, disjoint, finished trees whose values are Child of the zero and the one group |
| Nodes.ReduceBdt | main.cpp:207-226 | root becomes the finished tree Reduce(old value), made only of nodes it already owned |
| Nodes.Settle | main.cpp:215-224 | when comparebdt finds the reduced children equal, root collapses onto the left child; otherwise root keeps both |
| Nodes.Collapse | main.cpp:217-222 | root takes over the label and children of its left child, and the right child is deleted |
| Nodes.BuildCompactBdt | main.cpp:127-144 | the result is null or a finished tree of fresh nodes, and its value is Compact(fvalues) |
| Verifier.Line | main.cpp:332 | definition, no contract of its own: the input, a bar and a space, then the answer (see Verifier.ReportLines) |
| Verifier.Report | main.cpp:332 | definition, no contract of its own: one line per input in order; its properties are Verifier.ReportLines, ReportAppend and ReportTruth |
| Verifier.Check | main.cpp:328-331 | definition, no contract of its own: the input is an error exactly when the answer differs from its membership; Verifier.VerifyInput is proved against it |
| Verifier.Mismatches | main.cpp:300-331 | definition, no contract of its own: the errors over a list of inputs in order; its properties are Verifier.MismatchesMembers, MismatchesAppend and NoMismatches |
| Verifier.Errors | main.cpp:300-331 | definition, no contract of its own: the errors of a whole run, which Verifier.VerifyBdt appends; its properties are Verifier.SplitErrors, CompactVerifies and MismatchesMembers |
| Verifier.Table | main.cpp:286-340 | a run from `length` remaining digits prints 2^length lines |
| Verifier.ReportLines | main.cpp:332 | one line per visited input, in visiting order, each the input, a bar and the answer |
| Verifier.MismatchesMembers | main.cpp:300-331 | an input is recorded as an error exactly when it is visited and the tree's answer differs from its membership in the list |
| Verifier.ReportAppend | main.cpp:335-339 | the lines of two consecutive blocks of inputs are the first block's lines followed by the second's |
| Verifier.MismatchesAppend | main.cpp:335-339 | the errors of two consecutive blocks are those of the first block followed by those of the second |
| Verifier.NoMismatches | main.cpp:300-331 | a tree that agrees with the list on every visited input records no errors |
| Verifier.ReportTruth | main.cpp:332 | a tree that agrees with the list prints the list's own truth table |
| Verifier.CompactAgrees | main.cpp:302 | buildcompactbdt's tree answers "1" on a visited input exactly when the input is listed |
| Verifier.CompactAgreesAll | main.cpp:302 | ... for every input of the strings' length at once |
| Verifier.AgreeingRun | main.cpp:286-340 | for a tree that agrees with the list, a full run records no errors and prints the list's own truth table |
| Verifier.CompactVerifies | main.cpp:286-340 | on buildcompactbdt's tree, a full run from the empty prefix records no errors and prints the list's own truth table |
| Verifier.SplitTable | main.cpp:335-339 | a run's lines are those of the run with digit 0 appended, then those of the run with digit 1 |
| Verifier.SplitErrors | main.cpp:335-339 | a run's errors are those of the run with digit 0 appended, then those of the run with digit 1; appending the two in turn to a given error list is appending the whole run's errors |
| Verifier.Single | main.cpp:300-332 | a run with no digits left visits just its input: one line and at most one error |
| Verifier.ScanTrue | main.cpp:303-315 | when the answer is "1", the input is an error exactly when it is not listed; the erase touches only this call's copy of fvalues |
| Verifier.ScanFalse | main.cpp:316-327 | for any other answer, the input is an error exactly when it is listed |
| Verifier.VerifyInput | main.cpp:300-332 | the error list grows by the input exactly when the answer disagrees with the list, and the printed line is the input, a bar and the answer |
| Verifier.VerifyBdt | main.cpp:286-340 | a null tree prints "NULL Structure" and records nothing. With no digits and an empty prefix the tree is a leaf and the ALL INPUTS line with its answer is printed. Otherwise the printed lines are the truth table over every completion of the prefix, in ascending order, and the errors are exactly the mismatches, in that order, appended to the given list |

## Left out

- `main` is left out: reading the list from the console, the duplicate and length
  re-prompts, the final report and the clock. The list it hands over is modelled only by
  the `WellFormed` precondition (distinct strings of equal length). `main` does not check
  that the strings are binary. The correctness lemmas therefore also require `AllBinary`;
  the builder itself does not.
- Strings are modelled as sequences of characters, not bytes. The source's
  `std::string` lengths and positions count bytes, so the model is exact only for ASCII
  input: for a non-ASCII string such as "é" the source's n is 2 and the model's is 1.
- `printTree` and `depthCount` are left out. They only draw the tree.
- Console output is modelled as data. `VerifyBdt` returns the lines it would print, and it
  takes and returns the error list rather than updating a reference.
- The floating-point `pow(2, n)` in `buildcompactbdt` is the integer `Pow2(n)`.
- The "x{k}" label string is the datatype case `Var(k)`. So the `stoi` parsing in
  `evalcompactbdt`, and the length-1 test in `reducebdt` that tells leaves from tests, are
  case tests on the label.
- Nodes.DeleteBdt: freeing memory (`delete`) has no counterpart. The method clears the
  children of every node it visits and returns null. The `delete tmpbdtA` in `reducebdt`
  likewise has no counterpart: the node simply leaves the tree's footprint.
- Builder.Build: it is stated on the set of listed strings. The shape of the tree depends
  only on that set, not on list order. `Nodes.Partition` ties the source's vectors to
  these sets.
- Nodes.BuildCompact: the partition loop is the method `Partition`, and the choice and
  construction of the children is the method `Children`. `Hang` and `Grow` are small
  helpers. Together these follow the source's branches one for one.
- Nodes.ReduceBdt: the final merge step is the method `Settle`, and the collapse is
  the method `Collapse`.
- Verifier.ScanTrue and Verifier.ScanFalse: the source stops its loops by setting
  `i = numfvalues`; the model uses `break`, which has the same effect.
