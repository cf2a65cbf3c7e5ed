/**
 * What the compressor's search finds, apart from the way it walks: the longest match among the 32 nearest earlier
 * positions with the same hash, and of equally long ones the nearest.
 */
module LzssSearch {
  import opened Bytes
  import opened Lzss

  /** How many positions from `lo` up to, and without, `hi` have hash `h`. */
  function HowMany(hs: seq<nat>, h: nat, lo: nat, hi: nat): (n: nat)
    decreases hi - lo
  {
    if lo >= hi then 0 else (if lo < |hs| && hs[lo] == h then 1 else 0) + HowMany(hs, h, lo + 1, hi)
  }

  /** An earlier position with the hash of `i`, with fewer than 32 of that hash between the two. */
  predicate Candidate(hs: seq<nat>, i: nat, c: nat) {
    c < i < |hs| && hs[c] == hs[i] && HowMany(hs, hs[i], c + 1, i) < 32
  }

  /** The bytes at `c` and `i` agree for `l` bytes, and no longer within 18 bytes and the input. */
  predicate Agree(src: seq<byte>, c: nat, i: nat, l: nat) {
    && c < i && i + l <= |src| && l <= 18 && src[c..c + l] == src[i..i + l]
    && (l == 18 || i + l == |src| || src[c + l] != src[i + l])
  }

  /** A match at `c` of length `l` loses against the one at `best` of length `len`: longer wins, then nearer. */
  predicate Loses(c: nat, l: nat, best: int, len: nat) { l < 3 || l < len || (l == len && c <= best) }

  /** `t` is the best match among the candidates above `lo`, or of length 0 if none has three bytes. */
  ghost predicate BestAbove(src: seq<byte>, hs: seq<nat>, i: nat, lo: int, t: Token) {
    && t.Match?
    && (t.len > 0 ==> t.len >= 3 && t.off <= i && lo < i - t.off && Candidate(hs, i, i - t.off) &&
                      Agree(src, i - t.off, i, t.len))
    && forall c: nat, l: nat | lo < c && Candidate(hs, i, c) && Agree(src, c, i, l) :: Loses(c, l, i - t.off, t.len)
  }

  lemma {:induction false} LastIs(hs: seq<nat>, h: nat, i: nat)
    ensures var p := Last(hs, h, i);
            (p >= 0 ==> hs[p] == h) && forall k: nat | p < k < i && k < |hs| :: hs[k] != h
    decreases i
  {
    if i == 0 {
    } else {
      LastIs(hs, h, i - 1);
    }
  }

  lemma {:induction false} HowManySplit(hs: seq<nat>, h: nat, lo: nat, mid: nat, hi: nat)
    requires lo <= mid <= hi
    ensures HowMany(hs, h, lo, hi) == HowMany(hs, h, lo, mid) + HowMany(hs, h, mid, hi)
    decreases mid - lo
  {
    if lo == mid {
    } else {
      HowManySplit(hs, h, lo + 1, mid, hi);
    }
  }

  lemma {:induction false} NoneBetween(hs: seq<nat>, h: nat, lo: nat, hi: nat)
    requires forall k: nat | lo <= k < hi && k < |hs| :: hs[k] != h
    ensures HowMany(hs, h, lo, hi) == 0
    decreases hi - lo
  {
    if lo >= hi {
    } else {
      NoneBetween(hs, h, lo + 1, hi);
    }
  }

  /** The number of equal bytes as the search counts them. */
  lemma CommonAgrees(src: seq<byte>, c: nat, i: nat, l: nat)
    requires c < i <= |src| && l == Common(src, c, i, 0, MaxLen(src, i))
    ensures Agree(src, c, i, l)
  {
    var a, b := src[c..c + l], src[i..i + l];
    forall k | 0 <= k < l ensures a[k] == b[k] { assert SameAt(src, i - c, i + k); }
  }

  lemma AgreeOnce(src: seq<byte>, c: nat, i: nat, l: nat, m: nat)
    requires Agree(src, c, i, l) && Agree(src, c, i, m)
    ensures l == m
  {
  }

  /** The walk is at `c`, having counted all positions of the hash above it. */
  predicate OnChain(hs: seq<nat>, i: nat, c: int, chain: nat) {
    && -1 <= c < i < |hs| && (c >= 0 ==> hs[c] == hs[i])
    && chain == HowMany(hs, hs[i], c + 1, i)
  }

  /** The next position on the chain has one more above it. */
  lemma ChainOn(hs: seq<nat>, i: nat, c: nat, chain: nat)
    requires OnChain(hs, i, c, chain)
    ensures OnChain(hs, i, Previous(hs, c), chain + 1)
    ensures forall k: nat | Previous(hs, c) < k < c :: !Candidate(hs, i, k)
  {
    var p := Previous(hs, c);
    LastIs(hs, hs[c], c);
    var lo: nat := p + 1;
    NoneBetween(hs, hs[i], lo, c);
    HowManySplit(hs, hs[i], lo, c, i);
    assert HowMany(hs, hs[i], c, i) == 1 + HowMany(hs, hs[i], c + 1, i);
  }

  /** Past 32 positions of the hash there are no more candidates. */
  lemma ChainEnds(hs: seq<nat>, i: nat, c: int, chain: nat, k: nat)
    requires OnChain(hs, i, c, chain) && chain >= 32 && k <= c
    ensures !Candidate(hs, i, k)
  {
    if k < c {
      HowManySplit(hs, hs[i], k + 1, c + 1, i);
    }
  }

  /** The match at `c` is taken into account. */
  lemma BestTaken(src: seq<byte>, hs: seq<nat>, i: nat, c: nat, best: Token, l: nat, best': Token, p: int)
    requires BestAbove(src, hs, i, c, best) && Candidate(hs, i, c) && Agree(src, c, i, l) && -1 <= p < c
    requires best' == if l > best.len && l >= 3 then Match(i - c, l) else best
    requires forall k: nat | p < k < c :: !Candidate(hs, i, k)
    ensures BestAbove(src, hs, i, p, best')
  {
    forall k: nat, m: nat | p < k && Candidate(hs, i, k) && Agree(src, k, i, m)
      ensures Loses(k, m, i - best'.off, best'.len)
    {
      if k == c {
        AgreeOnce(src, c, i, l, m);
      } else {
        assert Loses(k, m, i - best.off, best.len);
      }
    }
  }

  /** A match of 18 bytes cannot be beaten. */
  lemma NoneLonger(src: seq<byte>, hs: seq<nat>, i: nat, p: int, best: Token)
    requires BestAbove(src, hs, i, p, best) && best.len == 18
    ensures BestAbove(src, hs, i, -1, best)
  {
    forall k: nat, m: nat | Candidate(hs, i, k) && Agree(src, k, i, m)
      ensures Loses(k, m, i - best.off, best.len)
    {
      if p < k { assert Loses(k, m, i - best.off, best.len); }
    }
  }

  lemma NoneFurther(src: seq<byte>, hs: seq<nat>, i: nat, c: int, chain: nat, best: Token)
    requires BestAbove(src, hs, i, c, best) && OnChain(hs, i, c, chain) && (c < 0 || chain >= 32)
    ensures BestAbove(src, hs, i, -1, best)
  {
    forall k: nat, m: nat | Candidate(hs, i, k) && Agree(src, k, i, m)
      ensures Loses(k, m, i - best.off, best.len)
    {
      if k <= c {
        ChainEnds(hs, i, c, chain, k);
      } else {
        assert Loses(k, m, i - best.off, best.len);
      }
    }
  }

  lemma {:induction false} SearchBest(src: seq<byte>, hs: seq<nat>, i: nat, c: int, chain: nat, best: Token)
    requires i <= |src| && OnChain(hs, i, c, chain) && Found(src, i, best) && BestAbove(src, hs, i, c, best)
    ensures BestAbove(src, hs, i, -1, Search(src, hs, i, c, chain, best))
    decreases c + 1
  {
    if c < 0 || chain >= 32 {
      NoneFurther(src, hs, i, c, chain, best);
    } else {
      var l := Common(src, c, i, 0, MaxLen(src, i));
      CommonAgrees(src, c, i, l);
      ChainOn(hs, i, c, chain);
      var best' := if l > best.len && l >= 3 then Match(i - c, l) else best;
      BestTaken(src, hs, i, c, best, l, best', Previous(hs, c));
      if l > best.len && l == 18 {
        NoneLonger(src, hs, i, Previous(hs, c), best');
      } else {
        SearchBest(src, hs, i, Previous(hs, c), chain + 1, best');
      }
    }
  }

  /** The token at a position: the best match there, or a literal if no candidate agrees for three bytes. */
  lemma TokenIsBest(src: seq<byte>, hs: seq<nat>, i: nat)
    requires i < |src| && i < |hs|
    ensures match TokenAt(src, hs, i)
            case Match(off, len) => len > 0 && BestAbove(src, hs, i, -1, Match(off, len))
            case Literal(_) => forall c: nat, l: nat | Candidate(hs, i, c) && Agree(src, c, i, l) :: l < 3
  {
    var c := Previous(hs, i);
    LastIs(hs, hs[i], i);
    NoneBetween(hs, hs[i], c + 1, i);
    assert forall k: nat | c < k :: !Candidate(hs, i, k);
    SearchBest(src, hs, i, c, 0, Match(0, 0));
    var best := Search(src, hs, i, c, 0, Match(0, 0));
    if best.len == 0 {
      forall k: nat, l: nat | Candidate(hs, i, k) && Agree(src, k, i, l) ensures l < 3 {
        assert Loses(k, l, i - best.off, best.len);
      }
    }
  }
}
