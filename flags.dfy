/** Counting the `true` cells of a `visited` array, the measure both route
    strategies use to show that every round marks a new point. */
module Flags {

  /** The number of `true` entries of s. */
  function CountTrue(s: seq<bool>): (c: nat)
    ensures c <= |s|
    ensures c == |s| <==> forall k :: 0 <= k < |s| ==> s[k]
    ensures c == 0 <==> forall k :: 0 <= k < |s| ==> !s[k]
  {
    if s == [] then 0
    else CountTrue(s[..|s| - 1]) + (if s[|s| - 1] then 1 else 0)
  }

  /** Marking a cell that was `false` adds one to the count. */
  lemma {:induction false} CountTrueMark(s: seq<bool>, k: nat)
    requires k < |s| && !s[k]
    ensures CountTrue(s[k := true]) == CountTrue(s) + 1
  {
    var last := |s| - 1;
    if k < last {
      assert s[k := true][..last] == s[..last][k := true];
      CountTrueMark(s[..last], k);
    } else {
      assert s[k := true][..last] == s[..last];
    }
  }

  /** Two distinct `false` cells leave the count at least two short of the length. */
  lemma {:induction false} CountTrueTwoUnset(s: seq<bool>, a: nat, b: nat)
    requires a < |s| && b < |s| && a != b && !s[a] && !s[b]
    ensures CountTrue(s) + 2 <= |s|
  {
    var last := |s| - 1;
    var init := s[..last];
    if a < last && b < last {
      CountTrueTwoUnset(init, a, b);
    } else {
      var other := if a < last then a else b;
      assert other < last && !init[other];
    }
  }
}
