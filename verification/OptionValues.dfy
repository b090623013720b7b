/** Choosing among the possible values of an option by a value or an unambiguous abbreviation of one. */
module OptionValues {
  import opened Common

  predicate Abbreviates(val: string, value: string) {
    |val| <= |value| && value[..|val|] == val
  }

  /** The values that `val` abbreviates, among the first `n`. */
  ghost function Matching(val: string, values: seq<string>, n: nat): set<int>
    requires n <= |values|
  {
    set i | 0 <= i < n && Abbreviates(val, values[i])
  }

  lemma MatchingStep(val: string, values: seq<string>, n: nat)
    requires n < |values|
    ensures Matching(val, values, n + 1) == Matching(val, values, n) + (if Abbreviates(val, values[n]) then {n} else {})
  {
  }

  /** What the search answers: the first value that is meant exactly, else the only one abbreviated, else an error that
      tells "none" from "several". */
  ghost predicate Chosen(val: string, values: seq<string>, r: int) {
    var all := Matching(val, values, |values|);
    if val in values
    then 0 <= r < |values| && values[r] == val && forall k | 0 <= k < r :: values[k] != val
    else if |all| == 1 then r in all
    else r == if all == {} then -1 else -2
  }

  /** Without an exact match the number of values abbreviated decides. */
  lemma NoneExact(val: string, values: seq<string>, found: nat, last: int)
    requires found == |Matching(val, values, |values|)| && (found > 0 ==> last in Matching(val, values, |values|))
    requires forall k | 0 <= k < |values| :: values[k] != val
    ensures Chosen(val, values, if found == 1 then last else if found > 0 then -2 else -1)
  {
    assert val !in values;
  }

  lemma FirstExact(val: string, values: seq<string>, i: nat)
    requires i < |values| && values[i] == val && forall k | 0 <= k < i :: values[k] != val
    ensures Chosen(val, values, i)
  {
    assert val in values;
  }

  method CheckPossibleValues(val: Option<string>, values: seq<string>) returns (r: int)
    ensures val.None? ==> r == -1
    ensures val.Some? ==> Chosen(val.value, values, r)
  {
    if val.None? { return -1; }
    var v := val.value;
    var found, last := 0, 0;
    for i := 0 to |values|
      invariant found == |Matching(v, values, i)|
      invariant found > 0 ==> last in Matching(v, values, i)
      invariant forall k | 0 <= k < i :: values[k] != v
    {
      MatchingStep(v, values, i);
      if |v| <= |values[i]| && v == values[i][..|v|] {
        found := found + 1;
        last := i;
        if |values[i]| == |v| {
          assert values[i][..|v|] == values[i];
          FirstExact(v, values, i);
          return i;
        }
      }
    }
    NoneExact(v, values, found, last);
    if found == 1 { return last; }
    return if found > 0 then -2 else -1;
  }

  lemma OneElement(s: set<int>, x: int)
    requires x in s && |s| == 1
    ensures s == {x}
  {
    assert |s - {x}| == 0;
  }

  /** An answer is never ambiguous: it determines the value asked for up to abbreviation, and no error is given for a
      value of the list. */
  lemma ChosenUnique(val: string, values: seq<string>, r: int, q: int)
    requires Chosen(val, values, r) && Chosen(val, values, q)
    ensures r == q
    ensures r >= 0 ==> r < |values| && Abbreviates(val, values[r])
    ensures r == -1 <==> forall i | 0 <= i < |values| :: !Abbreviates(val, values[i])
  {
    var all := Matching(val, values, |values|);
    if val in values {
      assert Abbreviates(val, values[r]);
    } else {
      if |all| == 1 { OneElement(all, r); }
      assert forall i | 0 <= i < |values| :: Abbreviates(val, values[i]) <==> i in all;
      assert all == {} <==> forall i | 0 <= i < |values| :: !Abbreviates(val, values[i]);
    }
  }

  lemma FileModeMatching(val: string)
    ensures Matching(val, ["write", "append"], 2) ==
            if val == "" then {0, 1} else if Abbreviates(val, "write") then {0}
            else if Abbreviates(val, "append") then {1} else {}
    ensures val != "" ==> !Abbreviates(val, "write") || !Abbreviates(val, "append")
  {
    var values := ["write", "append"];
    MatchingStep(val, values, 0);
    MatchingStep(val, values, 1);
    assert val != "" ==> "write"[0] != val[0] || "append"[0] != val[0];
  }

  /** The values of the result file mode: every non-empty abbreviation is accepted, the empty one is ambiguous. */
  lemma FileModes(val: string, r: int)
    requires Chosen(val, ["write", "append"], r)
    ensures r == 0 <==> val != "" && Abbreviates(val, "write")
    ensures r == 1 <==> val != "" && Abbreviates(val, "append")
    ensures r == -2 <==> val == ""
  {
    FileModeMatching(val);
    var values := ["write", "append"];
    assert val in values ==> val == values[0] || val == values[1];
  }
}
