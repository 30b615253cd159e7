/** Sums of sequences. */
module Sums {

  function Total(s: seq<nat>): nat {
    if s == [] then 0 else Total(s[..|s| - 1]) + s[|s| - 1]
  }

  lemma {:induction false} TotalUpdate(s: seq<nat>, i: nat, x: nat)
    requires i < |s|
    ensures Total(s[i := x]) + s[i] == Total(s) + x
  {
    var k := |s| - 1;
    if i == k {
      assert s[i := x][..k] == s[..k];
    } else {
      assert s[i := x][..k] == s[..k][i := x];
      TotalUpdate(s[..k], i, x);
    }
  }

  lemma {:induction false} TotalConst(s: seq<nat>, x: nat)
    requires forall i :: 0 <= i < |s| ==> s[i] == x
    ensures Total(s) == |s| * x
  {
    if s != [] {
      TotalConst(s[..|s| - 1], x);
    }
  }

  lemma {:induction false} TotalBound(s: seq<nat>, x: nat)
    requires forall j :: 0 <= j < |s| ==> s[j] <= x
    ensures Total(s) <= |s| * x
  {
    if s != [] {
      TotalBound(s[..|s| - 1], x);
      assert |s| * x == (|s| - 1) * x + x;
    }
  }

  lemma {:induction false} TotalAtLeast(s: seq<nat>, i: nat)
    requires i < |s|
    ensures Total(s) >= s[i]
  {
    if i < |s| - 1 {
      TotalAtLeast(s[..|s| - 1], i);
    }
  }

  lemma {:induction false} TotalEach(s: seq<nat>, x: nat)
    requires forall i :: 0 <= i < |s| ==> s[i] >= x
    ensures Total(s) >= |s| * x
  {
    if s != [] {
      TotalEach(s[..|s| - 1], x);
      assert |s| * x == (|s| - 1) * x + x;
    }
  }
}
