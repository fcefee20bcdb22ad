// Binary input strings: the enumeration order of verifybdt and the counting
// fact behind buildcompactbdt's "all 2^n inputs are true" shortcut.

module Binary {

  predicate IsBinary(s: string)
  {
    forall i :: 0 <= i < |s| ==> s[i] == '0' || s[i] == '1'
  }

  predicate AllBinary(xs: seq<string>)
  {
    forall s :: s in xs ==> IsBinary(s)
  }

  /** Every string has length n (the first string's length fixes n). */
  predicate SameLength(xs: seq<string>, n: nat)
  {
    forall i :: 0 <= i < |xs| ==> |xs[i]| == n
  }

  predicate Distinct(xs: seq<string>)
  {
    forall i, j :: 0 <= i < j < |xs| ==> xs[i] != xs[j]
  }

  /** The integer 2^n (the source compares against a floating-point pow). */
  function Pow2(n: nat): (p: nat)
    ensures p >= 1
  {
    if n == 0 then 1 else 2 * Pow2(n - 1)
  }

  /** The inputs verifybdt visits from (length, prefix): the 0 digit is expanded first,
      then the 1 digit, one position at a time from the left. */
  function Inputs(length: nat, prefix: string): (r: seq<string>)
    ensures |r| == Pow2(length)
    decreases length
  {
    if length == 0 then [prefix]
    else Inputs(length - 1, prefix + "0") + Inputs(length - 1, prefix + "1")
  }

  /** Every input visited has the prefix's length plus `length`. */
  lemma {:induction false} InputsLength(length: nat, prefix: string)
    ensures SameLength(Inputs(length, prefix), |prefix| + length)
  {
    forall s | s in Inputs(length, prefix)
      ensures |s| == |prefix| + length
    {
      InputsMembers(length, prefix, s);
    }
  }

  /** The number a binary string denotes, most significant digit first. */
  function Value(s: string): nat
  {
    if s == [] then 0
    else (if s[0] == '0' then 0 else Pow2(|s| - 1)) + Value(s[1..])
  }

  /** s is the prefix followed by `length` binary digits. */
  predicate Extends(s: string, prefix: string, length: nat)
  {
    |s| == |prefix| + length && s[..|prefix|] == prefix && IsBinary(s[|prefix|..])
  }

  /** Extending by length+1 digits is extending by one digit, 0 or 1, and then by length. */
  lemma ExtendsStep(s: string, prefix: string, length: nat)
    ensures Extends(s, prefix, length + 1) <==>
              Extends(s, prefix + "0", length) || Extends(s, prefix + "1", length)
  {
  }

  /** The inputs visited are exactly the strings of the prefix followed by `length` binary digits. */
  lemma {:induction false} InputsMembers(length: nat, prefix: string, s: string)
    ensures s in Inputs(length, prefix) <==> Extends(s, prefix, length)
    decreases length
  {
    if length == 0 {
      if Extends(s, prefix, 0) {
        assert s == s[..|prefix|];
      }
    } else {
      InputsMembers(length - 1, prefix + "0", s);
      InputsMembers(length - 1, prefix + "1", s);
      ExtendsStep(s, prefix, length - 1);
    }
  }

  /** Ascending binary order: the i-th input visited spells i in `length` digits after the prefix. */
  lemma {:induction false} InputsAscending(length: nat, prefix: string, i: nat)
    requires i < Pow2(length)
    ensures |Inputs(length, prefix)[i]| == |prefix| + length
    ensures Value(Inputs(length, prefix)[i][|prefix|..]) == i
    decreases length
  {
    var x := Inputs(length, prefix)[i];
    InputsMembers(length, prefix, x);
    if length > 0 {
      var half := Pow2(length - 1);
      var p := |prefix|;
      var tail := x[p..];
      if i < half {
        InputsAscending(length - 1, prefix + "0", i);
        assert x == Inputs(length - 1, prefix + "0")[i];
        InputsMembers(length - 1, prefix + "0", x);
        assert x[..p + 1] == prefix + "0";
        assert tail[0] == '0';
      } else {
        InputsAscending(length - 1, prefix + "1", i - half);
        assert x == Inputs(length - 1, prefix + "1")[i - half];
        InputsMembers(length - 1, prefix + "1", x);
        assert x[..p + 1] == prefix + "1";
        assert tail[0] == '1';
      }
      assert tail[1..] == x[p + 1..];
    }
  }

  /** A sequence has at most as many distinct elements as entries, exactly as many when distinct. */
  lemma {:induction false} ElementCount(xs: seq<string>)
    ensures |set s | s in xs| <= |xs|
    ensures Distinct(xs) ==> |set s | s in xs| == |xs|
  {
    if xs != [] {
      var init := xs[..|xs| - 1];
      var last := xs[|xs| - 1];
      ElementCount(init);
      assert (set s | s in xs) == (set s | s in init) + {last} by {
        assert xs == init + [last];
      }
      if Distinct(xs) {
        assert Distinct(init);
        assert last !in init by {
          assert forall j :: 0 <= j < |init| ==> init[j] == xs[j];
        }
      }
    }
  }

  /** A duplicate-free list of 2^n binary strings of length n holds every such string. */
  lemma FullSet(xs: seq<string>, n: nat)
    requires Distinct(xs) && AllBinary(xs) && SameLength(xs, n) && |xs| == Pow2(n)
    ensures forall s :: |s| == n && IsBinary(s) ==> s in xs
  {
    var given := set s | s in xs;
    var every := set s | s in Inputs(n, "");
    ElementCount(xs);
    ElementCount(Inputs(n, ""));
    forall s | s in given
      ensures s in every
    {
      InputsMembers(n, "", s);
      assert s[..0] == "" && s[0..] == s;
    }
    assert |every - given| == 0;
    forall s | |s| == n && IsBinary(s)
      ensures s in xs
    {
      InputsMembers(n, "", s);
      assert s[..0] == "" && s[0..] == s;
      assert s in every;
    }
  }

  /** Duplicate-free strings of length 0: there is at most one. */
  lemma EmptyStrings(xs: seq<string>, n: nat)
    requires Distinct(xs) && SameLength(xs, n)
    ensures n == 0 ==> |xs| <= 1
  {
    if n == 0 {
      ElementCount(xs);
      var given := set s | s in xs;
      assert given <= {""};
      assert |{""} - given| + |given| == 1;
    }
  }
}
