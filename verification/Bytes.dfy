/** Bytes and optional results, shared by the codecs. */
module Bytes {
  type byte = x: int | 0 <= x < 256

  datatype Option<+T> = None | Some(value: T)

  /** `src` holds `bs` at `i`. */
  predicate HoldsAt(src: seq<byte>, i: nat, bs: seq<byte>) {
    i + |bs| <= |src| && src[i..i + |bs|] == bs
  }

  lemma HoldsConcat(src: seq<byte>, i: nat, a: seq<byte>, b: seq<byte>)
    ensures HoldsAt(src, i, a + b) <==> HoldsAt(src, i, a) && HoldsAt(src, i + |a|, b)
  {
    if i + |a + b| <= |src| {
      var x, y := src[i..i + |a|], src[i + |a|..i + |a| + |b|];
      assert src[i..i + |a + b|] == x + y;
      assert (x + y)[..|a|] == x && (x + y)[|a|..] == y && (a + b)[..|a|] == a && (a + b)[|a|..] == b;
    }
  }

  /** What is held in a prefix is held in the whole. */
  lemma HoldsPrefix(src: seq<byte>, p: seq<byte>, i: nat, bs: seq<byte>)
    requires p <= src && HoldsAt(p, i, bs)
    ensures HoldsAt(src, i, bs)
  {
    assert src[i..i + |bs|] == p[i..i + |bs|];
  }

  lemma HoldsBehind(a: seq<byte>, b: seq<byte>, i: nat, bs: seq<byte>)
    requires HoldsAt(b, i, bs)
    ensures HoldsAt(a + b, |a| + i, bs)
  {
    assert (a + b)[|a| + i..|a| + i + |bs|] == b[i..i + |bs|];
  }
}
