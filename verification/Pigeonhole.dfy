/** More numbers than there are values for them cannot all be different. */
module Pigeonhole {
  lemma {:induction false} Repeats(ps: seq<nat>, n: nat) returns (i: nat, j: nat)
    requires |ps| > n && forall k | 0 <= k < |ps| :: ps[k] < n
    ensures i < j < |ps| && ps[i] == ps[j]
    decreases n
  {
    var last := |ps| - 1;
    if k :| 0 <= k < last && ps[k] == ps[last] {
      i, j := k, last;
    } else {
      var top := ps[last];
      var qs := seq(last, k requires 0 <= k < last => if ps[k] == n - 1 then top else ps[k]);
      i, j := Repeats(qs, n - 1);
    }
  }
}
