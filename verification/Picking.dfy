/** The elements of a sequence with a property, by their positions. */
module Picking {

  predicate Increasing(ks: seq<nat>) { forall i, j | 0 <= i < j < |ks| :: ks[i] < ks[j] }

  predicate Below(ks: seq<nat>, n: nat) { forall j | 0 <= j < |ks| :: ks[j] < n }

  /** The positions in `ks`, in order, are exactly those where `p` holds. */
  predicate Positions<T>(ks: seq<nat>, s: seq<T>, p: T -> bool) {
    Increasing(ks) && Below(ks, |s|) && forall k: nat | k < |s| :: k in ks <==> p(s[k])
  }

  /** `r` is what `f` makes of the elements there. */
  predicate Picked<T, U(==)>(r: seq<U>, ks: seq<nat>, s: seq<T>, f: T -> U)
    requires Below(ks, |s|)
  {
    |r| == |ks| && forall j | 0 <= j < |ks| :: r[j] == f(s[ks[j]])
  }

  lemma PositionsNone<T>(p: T -> bool)
    ensures Positions([], [], p)
  {
  }

  lemma PositionsSkip<T>(ks: seq<nat>, s: seq<T>, x: T, p: T -> bool)
    requires Positions(ks, s, p) && !p(x)
    ensures Positions(ks, s + [x], p)
  {
    forall k: nat | k < |s + [x]| ensures k in ks <==> p((s + [x])[k]) {
      if k < |s| { assert (s + [x])[k] == s[k]; }
    }
  }

  lemma PositionsTake<T>(ks: seq<nat>, s: seq<T>, x: T, p: T -> bool)
    requires Positions(ks, s, p) && p(x)
    ensures Positions(ks + [|s|], s + [x], p)
  {
    var all := ks + [|s|];
    forall k: nat | k < |s + [x]| ensures k in all <==> p((s + [x])[k]) {
      if k < |s| { assert (s + [x])[k] == s[k]; }
    }
  }

  lemma PickedSkip<T, U>(r: seq<U>, ks: seq<nat>, s: seq<T>, x: T, f: T -> U)
    requires Below(ks, |s|) && Picked(r, ks, s, f)
    ensures Below(ks, |s + [x]|) && Picked(r, ks, s + [x], f)
  {
  }

  lemma PickedTake<T, U>(r: seq<U>, ks: seq<nat>, s: seq<T>, x: T, f: T -> U)
    requires Below(ks, |s|) && Picked(r, ks, s, f)
    ensures Below(ks + [|s|], |s + [x]|) && Picked(r + [f(x)], ks + [|s|], s + [x], f)
  {
  }
}
