// verifybdt: the truth table of a tree over every input of a given length, and the list of
// inputs on which the tree disagrees with the true list.

module Verifier {
  import opened Trees
  import opened Binary
  import opened Builder
  import opened Nodes

  /** The line verifybdt prints for one input. */
  function Line(s: string, t: Tree): string
    requires VarsWithin(t, |s|)
  {
    s + "| " + Bit(Holds(t, s))
  }

  /** The truth-table lines for the given inputs: one line per input, in order. */
  function Report(inputs: seq<string>, n: nat, t: Tree): (r: seq<string>)
    requires SameLength(inputs, n) && VarsWithin(t, n)
  {
    if inputs == [] then [] else [Line(inputs[0], t)] + Report(inputs[1..], n, t)
  }

  /** The inputs, in the order given, on which t answers 1 without the input being listed in
      fvalues, or answers 0 although it is listed. */
  function Mismatches(inputs: seq<string>, n: nat, t: Tree, fvalues: seq<string>): (r: seq<string>)
    requires SameLength(inputs, n) && VarsWithin(t, n)
  {
    if inputs == [] then []
    else Check(inputs[0], t, fvalues) + Mismatches(inputs[1..], n, t, fvalues)
  }

  /** The error verifybdt records for one input: the input itself when the tree's answer
      differs from its membership in fvalues, nothing otherwise. */
  function Check(s: string, t: Tree, fvalues: seq<string>): seq<string>
    requires VarsWithin(t, |s|)
  {
    if Holds(t, s) != (s in fvalues) then [s] else []
  }

  /** The truth table of a whole run of verifybdt from (length, prefix). */
  function Table(length: nat, prefix: string, t: Tree): (r: seq<string>)
    requires VarsWithin(t, |prefix| + length)
    ensures |r| == Pow2(length)
  {
    InputsLength(length, prefix);
    ReportLines(Inputs(length, prefix), |prefix| + length, t);
    Report(Inputs(length, prefix), |prefix| + length, t)
  }

  /** The errors a whole run of verifybdt from (length, prefix) appends. */
  function Errors(length: nat, prefix: string, t: Tree, fvalues: seq<string>): seq<string>
    requires VarsWithin(t, |prefix| + length)
  {
    InputsLength(length, prefix);
    Mismatches(Inputs(length, prefix), |prefix| + length, t, fvalues)
  }

  /** One line per input, each the input's own line. */
  lemma {:induction false} ReportLines(inputs: seq<string>, n: nat, t: Tree)
    requires SameLength(inputs, n) && VarsWithin(t, n)
    ensures |Report(inputs, n, t)| == |inputs|
    ensures forall i :: 0 <= i < |inputs| ==> Report(inputs, n, t)[i] == Line(inputs[i], t)
  {
    if inputs != [] {
      ReportLines(inputs[1..], n, t);
    }
  }

  /** An input is reported as a mismatch exactly when it is one of the inputs and the tree's
      answer on it differs from its membership in fvalues. */
  lemma {:induction false} MismatchesMembers(inputs: seq<string>, n: nat, t: Tree, fvalues: seq<string>, s: string)
    requires SameLength(inputs, n) && VarsWithin(t, n)
    ensures s in Mismatches(inputs, n, t, fvalues) <==> s in inputs && Holds(t, s) != (s in fvalues)
  {
    if inputs != [] {
      MismatchesMembers(inputs[1..], n, t, fvalues, s);
      assert inputs == [inputs[0]] + inputs[1..];
    }
  }

  /** Running over two blocks of inputs one after the other reports the first block, then the second. */
  lemma {:induction false} ReportAppend(a: seq<string>, b: seq<string>, n: nat, t: Tree)
    requires SameLength(a, n) && SameLength(b, n) && VarsWithin(t, n)
    ensures SameLength(a + b, n)
    ensures Report(a + b, n, t) == Report(a, n, t) + Report(b, n, t)
  {
    if a != [] {
      assert (a + b)[1..] == a[1..] + b;
      ReportAppend(a[1..], b, n, t);
    } else {
      assert a + b == b;
    }
  }

  /** Mismatches found in two blocks of inputs are those of the first block, then those of the second. */
  lemma {:induction false} MismatchesAppend(a: seq<string>, b: seq<string>, n: nat, t: Tree, fvalues: seq<string>)
    requires SameLength(a, n) && SameLength(b, n) && VarsWithin(t, n)
    ensures SameLength(a + b, n)
    ensures Mismatches(a + b, n, t, fvalues) == Mismatches(a, n, t, fvalues) + Mismatches(b, n, t, fvalues)
  {
    if a != [] {
      assert (a + b)[1..] == a[1..] + b;
      MismatchesAppend(a[1..], b, n, t, fvalues);
      var c := Check(a[0], t, fvalues);
      assert c + Mismatches(a[1..], n, t, fvalues) + Mismatches(b, n, t, fvalues) ==
             c + (Mismatches(a[1..], n, t, fvalues) + Mismatches(b, n, t, fvalues));
    } else {
      assert a + b == b;
    }
  }

  /** No mismatches are found among inputs on which the tree agrees with fvalues. */
  lemma {:induction false} NoMismatches(inputs: seq<string>, n: nat, t: Tree, fvalues: seq<string>)
    requires SameLength(inputs, n) && VarsWithin(t, n)
    requires forall s :: s in inputs ==> Holds(t, s) == (s in fvalues)
    ensures Mismatches(inputs, n, t, fvalues) == []
  {
    if inputs != [] {
      assert inputs[0] in inputs;
      NoMismatches(inputs[1..], n, t, fvalues);
    }
  }

  /** The truth table of the list itself over the given inputs: each input followed by 1 when
      it is listed in fvalues and by 0 otherwise. */
  function Truth(inputs: seq<string>, fvalues: seq<string>): seq<string>
  {
    if inputs == [] then [] else [inputs[0] + "| " + Bit(inputs[0] in fvalues)] + Truth(inputs[1..], fvalues)
  }

  /** A tree that agrees with fvalues on every input prints the list's own truth table. */
  lemma {:induction false} ReportTruth(inputs: seq<string>, n: nat, t: Tree, fvalues: seq<string>)
    requires SameLength(inputs, n) && VarsWithin(t, n)
    requires forall s :: s in inputs ==> Holds(t, s) == (s in fvalues)
    ensures Report(inputs, n, t) == Truth(inputs, fvalues)
  {
    if inputs != [] {
      assert inputs[0] in inputs;
      ReportTruth(inputs[1..], n, t, fvalues);
    }
  }

  /** The tree buildcompactbdt builds answers 1 on a visited input exactly when it is listed. */
  lemma CompactAgrees(fvalues: seq<string>, s: string)
    requires WellFormed(fvalues) && AllBinary(fvalues) && fvalues != []
    requires s in Inputs(|fvalues[0]|, "")
    ensures Compact(fvalues).Some? && VarsWithin(Compact(fvalues).value, |s|)
    ensures Holds(Compact(fvalues).value, s) == (s in fvalues)
  {
    InputsMembers(|fvalues[0]|, "", s);
    assert s[0..] == s;
    CompactCorrect(fvalues, s);
  }

  /** The tree buildcompactbdt builds agrees with the list on every input of the strings' length. */
  lemma CompactAgreesAll(fvalues: seq<string>)
    requires WellFormed(fvalues) && AllBinary(fvalues) && fvalues != []
    ensures Compact(fvalues).Some? && VarsWithin(Compact(fvalues).value, |fvalues[0]|)
    ensures SameLength(Inputs(|fvalues[0]|, ""), |fvalues[0]|)
    ensures forall s :: s in Inputs(|fvalues[0]|, "") ==> Holds(Compact(fvalues).value, s) == (s in fvalues)
  {
    InputsLength(|fvalues[0]|, "");
    forall s | s in Inputs(|fvalues[0]|, "")
      ensures Holds(Compact(fvalues).value, s) == (s in fvalues)
    {
      CompactAgrees(fvalues, s);
    }
  }

  /** A tree that agrees with fvalues on every input of length n makes a full run of
      verifybdt record no errors and print the list's own truth table. */
  lemma {:induction false} AgreeingRun(n: nat, t: Tree, fvalues: seq<string>)
    requires VarsWithin(t, n) && SameLength(Inputs(n, ""), n)
    requires forall s :: s in Inputs(n, "") ==> Holds(t, s) == (s in fvalues)
    ensures Errors(n, "", t, fvalues) == []
    ensures Table(n, "", t) == Truth(Inputs(n, ""), fvalues)
  {
    NoMismatches(Inputs(n, ""), n, t, fvalues);
    ReportTruth(Inputs(n, ""), n, t, fvalues);
  }

  /** On the tree buildcompactbdt builds from a list of distinct equal-length binary strings,
      a full run of verifybdt records no errors and prints the list's own truth table: every
      input with 1 exactly when it is listed. */
  lemma CompactVerifies(fvalues: seq<string>)
    requires WellFormed(fvalues) && AllBinary(fvalues) && fvalues != []
    ensures Compact(fvalues).Some? && VarsWithin(Compact(fvalues).value, |fvalues[0]|)
    ensures Errors(|fvalues[0]|, "", Compact(fvalues).value, fvalues) == []
    ensures Table(|fvalues[0]|, "", Compact(fvalues).value) == Truth(Inputs(|fvalues[0]|, ""), fvalues)
  {
    CompactAgreesAll(fvalues);
    AgreeingRun(|fvalues[0]|, Compact(fvalues).value, fvalues);
  }

  /** A run from (length, prefix) prints the truth table of the run with prefix+"0", then
      that of the run with prefix+"1". */
  lemma SplitTable(length: nat, prefix: string, t: Tree)
    requires length > 0 && VarsWithin(t, |prefix| + length)
    ensures Table(length, prefix, t) == Table(length - 1, prefix + "0", t) + Table(length - 1, prefix + "1", t)
  {
    var n := |prefix| + length;
    var zeros, ones := Inputs(length - 1, prefix + "0"), Inputs(length - 1, prefix + "1");
    assert Inputs(length, prefix) == zeros + ones;
    InputsLength(length - 1, prefix + "0");
    InputsLength(length - 1, prefix + "1");
    assert |prefix + "0"| + (length - 1) == n && |prefix + "1"| + (length - 1) == n;
    assert Table(length - 1, prefix + "0", t) == Report(zeros, n, t);
    assert Table(length - 1, prefix + "1", t) == Report(ones, n, t);
    assert Table(length, prefix, t) == Report(zeros + ones, n, t);
    ReportAppend(zeros, ones, n, t);
  }

  /** ... and appends the errors of the run with prefix+"0", then those of the run with
      prefix+"1", to whatever list of errors it was given. */
  lemma SplitErrors(length: nat, prefix: string, t: Tree, fvalues: seq<string>, errors: seq<string>)
    requires length > 0 && VarsWithin(t, |prefix| + length)
    ensures Errors(length, prefix, t, fvalues) ==
            Errors(length - 1, prefix + "0", t, fvalues) + Errors(length - 1, prefix + "1", t, fvalues)
    ensures errors + Errors(length - 1, prefix + "0", t, fvalues) + Errors(length - 1, prefix + "1", t, fvalues) ==
            errors + Errors(length, prefix, t, fvalues)
  {
    var n := |prefix| + length;
    var zeros, ones := Inputs(length - 1, prefix + "0"), Inputs(length - 1, prefix + "1");
    assert Inputs(length, prefix) == zeros + ones;
    InputsLength(length - 1, prefix + "0");
    InputsLength(length - 1, prefix + "1");
    assert |prefix + "0"| + (length - 1) == n && |prefix + "1"| + (length - 1) == n;
    assert Errors(length - 1, prefix + "0", t, fvalues) == Mismatches(zeros, n, t, fvalues);
    assert Errors(length - 1, prefix + "1", t, fvalues) == Mismatches(ones, n, t, fvalues);
    assert Errors(length, prefix, t, fvalues) == Mismatches(zeros + ones, n, t, fvalues);
    MismatchesAppend(zeros, ones, n, t, fvalues);
  }

  /** verifybdt's last level as a run of its own: one input, its line and its error if any. */
  lemma Single(inputCase: string, t: Tree, fvalues: seq<string>)
    requires VarsWithin(t, |inputCase|)
    ensures Table(0, inputCase, t) == [Line(inputCase, t)]
    ensures Errors(0, inputCase, t, fvalues) == Check(inputCase, t, fvalues)
  {
    assert Inputs(0, inputCase) == [inputCase];
    assert Report([inputCase], |inputCase|, t) == [Line(inputCase, t)];
    assert Mismatches([inputCase], |inputCase|, t, fvalues) == Check(inputCase, t, fvalues);
  }

  /** The scan verifybdt makes when the tree answers 1: the input is an error unless it is
      found in fvalues, in which case that entry of this call's own copy is erased and the
      scan stops. */
  method ScanTrue(inputCase: string, fvalues: seq<string>) returns (error: bool)
    ensures error <==> inputCase !in fvalues
  {
    var fv := fvalues;
    var numfvalues := |fv|;
    error := true;
    for i := 0 to numfvalues
      invariant fv == fvalues && error && inputCase !in fvalues[..i]
    {
      if inputCase == fv[i] {
        error := false;
        fv := fv[i := []];
        break;
      }
      assert fvalues[..i + 1] == fvalues[..i] + [fvalues[i]];
    }
    if error {
      assert fvalues[..numfvalues] == fvalues;
    }
  }

  /** The scan verifybdt makes for any other answer: the input is an error exactly when it is
      found in fvalues, and the scan stops at the first match. */
  method ScanFalse(inputCase: string, fvalues: seq<string>) returns (error: bool)
    ensures error <==> inputCase in fvalues
  {
    var numfvalues := |fvalues|;
    error := false;
    for i := 0 to numfvalues
      invariant !error && inputCase !in fvalues[..i]
    {
      if inputCase == fvalues[i] {
        error := true;
        break;
      }
      assert fvalues[..i + 1] == fvalues[..i] + [fvalues[i]];
    }
    if !error {
      assert fvalues[..numfvalues] == fvalues;
    }
  }

  /** verifybdt once all digits are chosen: evaluates the tree on inputCase, scans fvalues for
      it, appends it to errors when the answer and the scan disagree, and prints its line. */
  method VerifyInput(inputCase: string, t: BdNode, fvalues: seq<string>, errors: seq<string>)
      returns (errs: seq<string>, out: seq<string>)
    requires t.Valid() && VarsWithin(t.Model, |inputCase|)
    ensures errs == errors + Check(inputCase, t.Model, fvalues)
    ensures out == [Line(inputCase, t.Model)]
  {
    var tmp := EvalCompactBdt(t, inputCase);
    var error;
    if tmp == "1" {
      error := ScanTrue(inputCase, fvalues);
    } else {
      error := ScanFalse(inputCase, fvalues);
    }
    if error {
      errs := errors + [inputCase];
    } else {
      errs := errors;
    }
    out := [inputCase + "| " + tmp];
  }

  /** verifybdt: for a null tree the "NULL Structure" line; with no digits to enumerate and no
      prefix the "ALL INPUTS" line for a tree over no variables (a leaf); otherwise the truth
      table over every input made of inputCase and `length` more digits, 0 before 1, with the
      inputs the tree gets wrong appended to errors in that same order. The console lines
      are returned as out; errors is passed in and the extended list returned as errs. */
  method VerifyBdt(length: nat, inputCase: string, t: BdNode?, fvalues: seq<string>, errors: seq<string>)
      returns (errs: seq<string>, out: seq<string>)
    requires t != null ==> t.Valid() && VarsWithin(t.Model, |inputCase| + length)
    ensures t == null ==> errs == errors && out == ["NULL Structure"]
    ensures t != null && length == 0 && inputCase == [] ==>
              t.Model.Leaf? && errs == errors && out == ["ALL INPUTS| " + Bit(t.Model.value)]
    ensures t != null && (length != 0 || inputCase != []) ==>
              errs == errors + Errors(length, inputCase, t.Model, fvalues) &&
              out == Table(length, inputCase, t.Model)
    decreases length
  {
    if t == null {
      return errors, ["NULL Structure"];
    } else if length == 0 {
      if inputCase == [] {
        VarsWithinMono(t.Model, 0, 1);
        return errors, ["ALL INPUTS| " + EvalCompactBdt(t, "0")];
      } else {
        errs, out := VerifyInput(inputCase, t, fvalues, errors);
        Single(inputCase, t.Model, fvalues);
      }
    } else {
      var errs0, out0 := VerifyBdt(length - 1, inputCase + "0", t, fvalues, errors);
      var errs1, out1 := VerifyBdt(length - 1, inputCase + "1", t, fvalues, errs0);
      errs, out := errs1, out0 + out1;
      SplitTable(length, inputCase, t.Model);
      SplitErrors(length, inputCase, t.Model, fvalues, errors);
    }
  }
}
