/**
 * The kernel's open-addressing `u64 -> usize` index: linear probing from a hash,
 * tombstones for removed keys, doubling at three quarters load.
 *
 * The table is read as the finite map `Model`: a stored key stands for the value in
 * the copy nearest to its home slot, which is the copy a probe meets first.
 */
module IdIndex {
  import opened Bits
  import opened Bytes

  const EMPTY: nat := 0
  const TOMBSTONE: nat := 0xFFFF_FFFF_FFFF_FFFF

  predicate Live(k: nat) { k != EMPTY && k != TOMBSTONE }
  predicate NonEmpty(k: nat) { k != EMPTY }

  type Hash = nat -> nat

  /** Fibonacci hashing, the hash the kernel uses. Nothing below depends on it. */
  function FibonacciHash(k: nat): nat {
    (k * 0x9E37_79B9_7F4A_7C15 % 0x1_0000_0000_0000_0000) / 0x1_0000_0000
  }

  lemma HashWraps(k: nat, m: nat, u: nat)
    requires m == 0x9E37_79B9_7F4A_7C15 && u == 0x1_0000_0000_0000_0000
    ensures FibonacciHash(k + u) == FibonacciHash(k)
  {
    var q, r := k * m / u, k * m % u;
    assert (k + u) * m == k * m + u * m;
    assert k * m + u * m == u * (q + m) + r;
    Bits.DivModUnique(k * m + u * m, u, q + m, r);
  }

  /** Its value is the upper half of a 64-bit product; two keys show both halves of the multiplier. */
  lemma HashValues()
    ensures FibonacciHash(1) == 0x9E37_79B9 && FibonacciHash(0x1_0000_0000) == 0x7F4A_7C15
  {
  }

  // ---- Probe geometry --------------------------------------------------------

  function Home(hash: Hash, cap: nat, k: nat): (s: nat)
    requires cap > 0
  {
    hash(k) % cap
  }

  /** The slot `d` steps after `start`, wrapping around. */
  function Slot(cap: nat, start: nat, d: nat): (s: nat)
    requires start < cap && d < cap
    ensures s < cap
  {
    if start + d < cap then start + d else start + d - cap
  }

  /** The number of probe steps from `start` to slot `s`. */
  function Dist(cap: nat, start: nat, s: nat): (d: nat)
    requires start < cap && s < cap
    ensures d < cap && Slot(cap, start, d) == s
    ensures forall e {:trigger Slot(cap, start, e)} :: 0 <= e < cap && Slot(cap, start, e) == s ==> e == d
  {
    if s >= start then s - start else s + cap - start
  }

  function DistOf(hash: Hash, keys: seq<nat>, k: nat, s: nat): (d: nat)
    requires s < |keys|
  {
    Dist(|keys|, Home(hash, |keys|, k), s)
  }

  /** The key met at step `d` of the probe for `k`. */
  function Met(hash: Hash, keys: seq<nat>, k: nat, d: nat): (kk: nat)
    requires d < |keys|
  {
    keys[Slot(|keys|, Home(hash, |keys|, k), d)]
  }

  /** No empty slot lies between the home of the key in slot `s` and `s`. */
  ghost predicate Reached(hash: Hash, keys: seq<nat>, s: nat)
    requires s < |keys|
  {
    forall d | 0 <= d < DistOf(hash, keys, keys[s], s) :: Met(hash, keys, keys[s], d) != EMPTY
  }

  ghost predicate ChainOk(hash: Hash, keys: seq<nat>) {
    forall s | 0 <= s < |keys| && Live(keys[s]) :: Reached(hash, keys, s)
  }

  ghost predicate Unique(keys: seq<nat>) {
    forall s, t | 0 <= s < |keys| && 0 <= t < |keys| && Live(keys[s]) && keys[s] == keys[t] :: s == t
  }

  // ---- The map a table stands for ---------------------------------------------

  /** The first step, from `d` on, at which the probe for `k` meets `k`. */
  ghost function FirstFrom(hash: Hash, keys: seq<nat>, k: nat, d: nat): (e: nat)
    requires d <= |keys|
    ensures d <= e <= |keys|
    ensures e < |keys| ==> Met(hash, keys, k, e) == k
    ensures forall i | d <= i < e :: Met(hash, keys, k, i) != k
    decreases |keys| - d
  {
    if d == |keys| || Met(hash, keys, k, d) == k then d else FirstFrom(hash, keys, k, d + 1)
  }

  ghost function FirstDist(hash: Hash, keys: seq<nat>, k: nat): (d: nat)
    requires k in keys
    ensures d < |keys| && Met(hash, keys, k, d) == k
    ensures forall i | 0 <= i < d :: Met(hash, keys, k, i) != k
  {
    var s :| 0 <= s < |keys| && keys[s] == k;
    assert Met(hash, keys, k, DistOf(hash, keys, k, s)) == k;
    FirstFrom(hash, keys, k, 0)
  }

  ghost function FirstSlot(hash: Hash, keys: seq<nat>, k: nat): (s: nat)
    requires k in keys
    ensures s < |keys| && keys[s] == k
  {
    Slot(|keys|, Home(hash, |keys|, k), FirstDist(hash, keys, k))
  }

  ghost function Model(hash: Hash, keys: seq<nat>, vals: seq<nat>): map<nat, nat>
    requires |keys| == |vals|
  {
    map k | k in keys && Live(k) :: vals[FirstSlot(hash, keys, k)]
  }

  /** A tombstone lies on the probe path before the first copy of `k`. */
  ghost predicate Shadowed(hash: Hash, keys: seq<nat>, k: nat) {
    k in keys && exists d :: 0 <= d < FirstDist(hash, keys, k) && Met(hash, keys, k, d) == TOMBSTONE
  }

  lemma FirstIs(hash: Hash, keys: seq<nat>, k: nat, s: nat)
    requires s < |keys| && keys[s] == k
    requires forall t | 0 <= t < |keys| && keys[t] == k :: DistOf(hash, keys, k, s) <= DistOf(hash, keys, k, t)
    ensures FirstSlot(hash, keys, k) == s
  {
    var d := FirstDist(hash, keys, k);
    var e := DistOf(hash, keys, k, s);
    assert Met(hash, keys, k, e) == k;
    var t := Slot(|keys|, Home(hash, |keys|, k), d);
    assert DistOf(hash, keys, k, t) == d;
  }

  /** Writing `k2` to a slot keeps the nearest copy of every other key. */
  lemma FirstKept(hash: Hash, keys: seq<nat>, s: nat, k2: nat, j: nat)
    requires s < |keys| && keys[s] != j && k2 != j && j in keys
    ensures j in keys[s := k2] && FirstSlot(hash, keys[s := k2], j) == FirstSlot(hash, keys, j)
  {
    var keys' := keys[s := k2];
    var f := FirstSlot(hash, keys, j);
    assert keys'[f] == j;
    forall t | 0 <= t < |keys'| && keys'[t] == j
      ensures DistOf(hash, keys', j, f) <= DistOf(hash, keys', j, t)
    {
      var e := DistOf(hash, keys, j, t);
      assert Met(hash, keys, j, e) == j;
    }
    FirstIs(hash, keys', j, f);
  }

  // ---- Effect of the three writes -----------------------------------------------

  /** A slot where an insertion of `k` stops. */
  predicate Takes(kk: nat, k: nat) { kk == EMPTY || kk == TOMBSTONE || kk == k }

  ghost predicate InsertionPoint(hash: Hash, keys: seq<nat>, k: nat, d: nat) {
    d < |keys| && Takes(Met(hash, keys, k, d), k) &&
    forall e | 0 <= e < d :: !Takes(Met(hash, keys, k, e), k)
  }

  lemma InsertChain(hash: Hash, keys: seq<nat>, k: nat, d: nat)
    requires ChainOk(hash, keys) && Live(k) && InsertionPoint(hash, keys, k, d)
    ensures ChainOk(hash, keys[Slot(|keys|, Home(hash, |keys|, k), d) := k])
  {
    var s := Slot(|keys|, Home(hash, |keys|, k), d);
    var keys' := keys[s := k];
    forall t | 0 <= t < |keys'| && Live(keys'[t])
      ensures Reached(hash, keys', t)
    {
      if t == s {
        assert DistOf(hash, keys, k, s) == d;
        forall e | 0 <= e < DistOf(hash, keys', k, s) ensures Met(hash, keys', k, e) != EMPTY {
          assert !Takes(Met(hash, keys, k, e), k);
        }
      } else {
        assert Reached(hash, keys, t);
        forall e | 0 <= e < DistOf(hash, keys', keys'[t], t) ensures Met(hash, keys', keys'[t], e) != EMPTY {
          assert Met(hash, keys, keys[t], e) != EMPTY;
        }
      }
    }
  }

  lemma InsertModel(hash: Hash, keys: seq<nat>, vals: seq<nat>, k: nat, v: nat, d: nat)
    requires |keys| == |vals| && ChainOk(hash, keys) && Live(k) && InsertionPoint(hash, keys, k, d)
    ensures var s := Slot(|keys|, Home(hash, |keys|, k), d);
            Model(hash, keys[s := k], vals[s := v]) == Model(hash, keys, vals)[k := v]
  {
    var s := Slot(|keys|, Home(hash, |keys|, k), d);
    var keys', vals' := keys[s := k], vals[s := v];
    assert keys'[s] == k;
    forall t | 0 <= t < |keys'| && keys'[t] == k
      ensures DistOf(hash, keys', k, s) <= DistOf(hash, keys', k, t)
    {
      var e := DistOf(hash, keys, k, t);
      assert t == s || Takes(Met(hash, keys, k, e), k);
    }
    FirstIs(hash, keys', k, s);
    var m, m' := Model(hash, keys, vals)[k := v], Model(hash, keys', vals');
    forall j
      ensures j in m <==> j in m'
      ensures j in m ==> m[j] == m'[j]
    {
      if j != k && j in keys && Live(j) {
        FirstKept(hash, keys, s, k, j);
      }
    }
  }

  /** Exactly when an insertion that does not grow leaves the keys distinct. */
  lemma InsertUnique(hash: Hash, keys: seq<nat>, k: nat, d: nat)
    requires ChainOk(hash, keys) && Unique(keys) && Live(k) && InsertionPoint(hash, keys, k, d)
    ensures Unique(keys[Slot(|keys|, Home(hash, |keys|, k), d) := k]) <==> !Shadowed(hash, keys, k)
  {
    var s := Slot(|keys|, Home(hash, |keys|, k), d);
    var keys' := keys[s := k];
    if k in keys {
      var f := FirstDist(hash, keys, k);
      var t := FirstSlot(hash, keys, k);
      assert DistOf(hash, keys, k, t) == f;
      assert Takes(Met(hash, keys, k, f), k);
      if keys[s] == k {
        assert keys' == keys;
      } else {
        assert d < f;
        assert Reached(hash, keys, t);
        assert Met(hash, keys, k, d) == TOMBSTONE;
        assert keys'[t] == k && keys'[s] == k && s != t;
      }
    }
  }

  lemma RemoveChain(hash: Hash, keys: seq<nat>, s: nat)
    requires ChainOk(hash, keys) && s < |keys|
    ensures ChainOk(hash, keys[s := TOMBSTONE])
  {
    var keys' := keys[s := TOMBSTONE];
    forall t | 0 <= t < |keys'| && Live(keys'[t])
      ensures Reached(hash, keys', t)
    {
      assert Reached(hash, keys, t);
      forall e | 0 <= e < DistOf(hash, keys', keys'[t], t) ensures Met(hash, keys', keys'[t], e) != EMPTY {
        assert Met(hash, keys, keys[t], e) != EMPTY;
      }
    }
  }

  /** Burying the first copy of `k` removes `k` exactly when there was no second copy. */
  lemma RemoveModel(hash: Hash, keys: seq<nat>, vals: seq<nat>, k: nat)
    requires |keys| == |vals| && Live(k) && k in keys
    ensures var s := FirstSlot(hash, keys, k);
            var m := Model(hash, keys[s := TOMBSTONE], vals);
            && (k in m <==> exists t :: 0 <= t < |keys| && t != s && keys[t] == k)
            && m - {k} == Model(hash, keys, vals) - {k}
  {
    var s := FirstSlot(hash, keys, k);
    var keys' := keys[s := TOMBSTONE];
    var m, m' := Model(hash, keys, vals), Model(hash, keys', vals);
    forall j | j != k
      ensures j in m <==> j in m'
      ensures j in m ==> m[j] == m'[j]
    {
      if j in keys && Live(j) {
        FirstKept(hash, keys, s, TOMBSTONE, j);
      }
    }
    assert m - {k} == m' - {k};
    forall t | 0 <= t < |keys| && t != s && keys[t] == k ensures k in keys' {
      assert keys'[t] == k;
    }
  }

  // ---- Counting -------------------------------------------------------------------

  function Count(ks: seq<nat>, p: nat -> bool): (c: nat)
    ensures c <= |ks|
  {
    if ks == [] then 0 else Count(ks[..|ks| - 1], p) + (if p(ks[|ks| - 1]) then 1 else 0)
  }

  lemma {:induction false} CountUpdate(ks: seq<nat>, p: nat -> bool, i: nat, x: nat)
    requires i < |ks|
    ensures Count(ks[i := x], p) == Count(ks, p) - (if p(ks[i]) then 1 else 0) + (if p(x) then 1 else 0)
  {
    var n := |ks| - 1;
    if i == n {
      assert ks[i := x][..n] == ks[..n];
    } else {
      assert ks[i := x][..n] == ks[..n][i := x];
      CountUpdate(ks[..n], p, i, x);
    }
  }

  lemma {:induction false} CountNone(ks: seq<nat>, p: nat -> bool)
    requires forall i | 0 <= i < |ks| :: !p(ks[i])
    ensures Count(ks, p) == 0
  {
    if ks == [] {
    } else {
      CountNone(ks[..|ks| - 1], p);
    }
  }

  lemma {:induction false} CountAll(ks: seq<nat>, p: nat -> bool)
    requires forall i | 0 <= i < |ks| :: p(ks[i])
    ensures Count(ks, p) == |ks|
  {
    if ks == [] {
    } else {
      CountAll(ks[..|ks| - 1], p);
    }
  }

  /** Fewer non-empty slots than slots leave an empty one. */
  lemma EmptyExists(ks: seq<nat>)
    requires Count(ks, NonEmpty) < |ks|
    ensures exists s :: 0 <= s < |ks| && ks[s] == EMPTY
  {
    if forall s | 0 <= s < |ks| :: ks[s] != EMPTY {
      CountAll(ks, NonEmpty);
    }
  }

  ghost function LiveKeys(ks: seq<nat>): set<nat> {
    set k | k in ks && Live(k)
  }

  /** The live slots outnumber the live keys unless the keys are distinct. */
  lemma {:induction false} CountLiveKeys(ks: seq<nat>)
    ensures Count(ks, Live) >= |LiveKeys(ks)|
    ensures Count(ks, Live) == |LiveKeys(ks)| <==> Unique(ks)
  {
    if ks == [] {
    } else {
      var n := |ks| - 1;
      var init, x := ks[..n], ks[n];
      CountLiveKeys(init);
      assert ks == init + [x];
      if Live(x) {
        assert LiveKeys(ks) == LiveKeys(init) + {x};
        if x in init {
          assert LiveKeys(ks) == LiveKeys(init);
          var s :| 0 <= s < n && init[s] == x;
          assert ks[s] == ks[n];
        } else {
          UniqueSnoc(init, x);
        }
      } else {
        assert LiveKeys(ks) == LiveKeys(init);
        UniqueSnoc(init, x);
      }
    }
  }

  lemma UniqueSnoc(init: seq<nat>, x: nat)
    requires !Live(x) || x !in init
    ensures Unique(init + [x]) <==> Unique(init)
  {
    var ks := init + [x];
    if Unique(ks) {
      forall s, t | 0 <= s < |init| && 0 <= t < |init| && Live(init[s]) && init[s] == init[t] ensures s == t {
        assert ks[s] == ks[t];
      }
    }
    if Unique(init) {
      forall s, t | 0 <= s < |ks| && 0 <= t < |ks| && Live(ks[s]) && ks[s] == ks[t] ensures s == t {
        if s < |init| && t < |init| {
          assert init[s] == init[t];
        }
      }
    }
  }

  /** The entry count equals the size of the map exactly when no key is stored twice. */
  lemma LenIsSize(hash: Hash, keys: seq<nat>, vals: seq<nat>)
    requires |keys| == |vals|
    ensures Count(keys, Live) == |Model(hash, keys, vals)| <==> Unique(keys)
  {
    CountLiveKeys(keys);
    assert Model(hash, keys, vals).Keys == LiveKeys(keys);
  }

  // ---- Rehashing --------------------------------------------------------------------

  /** Inserting the live entries in slot order: a later slot overrides an earlier one. */
  ghost function Replay(ks: seq<nat>, vs: seq<nat>): map<nat, nat>
    requires |ks| == |vs|
  {
    if ks == [] then map[]
    else
      var n := |ks| - 1;
      var m := Replay(ks[..n], vs[..n]);
      if Live(ks[n]) then m[ks[n] := vs[n]] else m
  }

  lemma {:induction false} ReplayUnique(ks: seq<nat>, vs: seq<nat>)
    requires |ks| == |vs| && Unique(ks)
    ensures forall k :: k in Replay(ks, vs) <==> k in LiveKeys(ks)
    ensures forall s | 0 <= s < |ks| && Live(ks[s]) :: ks[s] in Replay(ks, vs) && Replay(ks, vs)[ks[s]] == vs[s]
  {
    if ks == [] {
    } else {
      var n := |ks| - 1;
      forall s, t | 0 <= s < n && 0 <= t < n && Live(ks[..n][s]) && ks[..n][s] == ks[..n][t] ensures s == t {
        assert ks[s] == ks[t];
      }
      ReplayUnique(ks[..n], vs[..n]);
      forall s | 0 <= s < |ks| && Live(ks[s])
        ensures ks[s] in Replay(ks, vs) && Replay(ks, vs)[ks[s]] == vs[s]
      {
        if s < n {
          assert ks[..n][s] == ks[s] && vs[..n][s] == vs[s];
        }
      }
      assert ks == ks[..n] + [ks[n]];
      assert LiveKeys(ks) == LiveKeys(ks[..n]) + (if Live(ks[n]) then {ks[n]} else {});
    }
  }

  /** Rehashing distinct keys changes no lookup. */
  lemma ReplayIsModel(hash: Hash, ks: seq<nat>, vs: seq<nat>)
    requires |ks| == |vs| && Unique(ks)
    ensures Replay(ks, vs) == Model(hash, ks, vs)
  {
    ReplayUnique(ks, vs);
    var m := Model(hash, ks, vs);
    forall k | k in m ensures k in Replay(ks, vs) && Replay(ks, vs)[k] == m[k] {
      var s := FirstSlot(hash, ks, k);
      assert ks[s] == k;
    }
  }

  // ---- The index ----------------------------------------------------------------------

  /** `& mask` brings a hash to its home slot. */
  lemma HomeMask(hash: Hash, cap: nat, bits: nat, k: nat)
    requires cap == Pow2(bits)
    ensures And(hash(k), cap - 1) == Home(hash, cap, k)
  {
    AndMask(hash(k), bits);
  }

  /** `& mask` wraps a step past the last slot to slot 0. */
  lemma NextSlot(cap: nat, bits: nat, start: nat, d: nat)
    requires cap == Pow2(bits) && start < cap && d + 1 < cap
    ensures And(Slot(cap, start, d) + 1, cap - 1) == Slot(cap, start, d + 1)
  {
    var x := Slot(cap, start, d) + 1;
    AndMask(x, bits);
    if x < cap {
      DivModUnique(x, cap, 0, x);
    } else {
      DivModUnique(x, cap, 1, 0);
    }
  }

  /** A probe that has met no empty slot has not yet gone all the way round. */
  lemma ProbeGoesOn(hash: Hash, keys: seq<nat>, k: nat, d: nat)
    requires Count(keys, NonEmpty) < |keys| && d < |keys|
    requires forall e | 0 <= e <= d :: Met(hash, keys, k, e) != EMPTY
    ensures d + 1 < |keys|
  {
    EmptyExists(keys);
    var s :| 0 <= s < |keys| && keys[s] == EMPTY;
    assert Met(hash, keys, k, DistOf(hash, keys, k, s)) == EMPTY;
  }

  /** A probe that has met neither `k` nor, before its end, an empty slot finds `k` nowhere. */
  lemma ProbeMisses(hash: Hash, keys: seq<nat>, k: nat, d: nat)
    requires ChainOk(hash, keys) && d < |keys| && k != TOMBSTONE && Met(hash, keys, k, d) == EMPTY
    requires forall e | 0 <= e < d :: Met(hash, keys, k, e) != k
    ensures Live(k) ==> k !in keys
  {
    forall s | 0 <= s < |keys| && Live(keys[s]) ensures keys[s] != k {
      assert Reached(hash, keys, s);
      var e := DistOf(hash, keys, k, s);
      assert e < d ==> Met(hash, keys, k, e) != k;
    }
  }

  // ---- The table as a value -------------------------------------------------------------------

  /** The slots; the two counters are determined by them. */
  datatype Table = Table(keys: seq<nat>, vals: seq<nat>)

  function Entries(t: Table): nat { Count(t.keys, Live) }
  function Load(t: Table): nat { Count(t.keys, NonEmpty) }

  /** The table as a finite map. */
  ghost function MapOf(hash: Hash, t: Table): map<nat, nat>
    requires |t.keys| == |t.vals|
  {
    Model(hash, t.keys, t.vals)
  }

  ghost predicate TableOk(hash: Hash, t: Table) { |t.keys| == |t.vals| && ChainOk(hash, t.keys) }

  /** What every operation keeps: probe chains, the load bound, the least capacity. */
  ghost predicate Good(hash: Hash, t: Table) { TableOk(hash, t) && |t.keys| >= 16 && 4 * Load(t) < 3 * |t.keys| }

  /** One more entry would reach three quarters. */
  predicate IsFull(t: Table) { 4 * (Load(t) + 1) >= 3 * |t.keys| }

  function BlankTable(cap: nat): (t: Table)
    ensures |t.keys| == |t.vals| == cap
  {
    Table(seq(cap, _ => EMPTY), seq(cap, _ => 0))
  }

  /** The first step, from `d` on, at which an insertion of `k` stops. */
  ghost function FreeFrom(hash: Hash, keys: seq<nat>, k: nat, d: nat): (e: nat)
    requires d <= |keys|
    ensures d <= e <= |keys|
    ensures e < |keys| ==> Takes(Met(hash, keys, k, e), k)
    ensures forall i | d <= i < e :: !Takes(Met(hash, keys, k, i), k)
    decreases |keys| - d
  {
    if d == |keys| || Takes(Met(hash, keys, k, d), k) then d else FreeFrom(hash, keys, k, d + 1)
  }

  /** Writing `k` where its insertion stops. */
  ghost function Put(hash: Hash, t: Table, k: nat, v: nat): (t': Table)
    requires |t.keys| == |t.vals|
    ensures |t'.keys| == |t'.vals| == |t.keys|
  {
    var d := FreeFrom(hash, t.keys, k, 0);
    if d == |t.keys| then t
    else
      var s := Slot(|t.keys|, Home(hash, |t.keys|, k), d);
      Table(t.keys[s := k], t.vals[s := v])
  }

  /** A blank table of `cap` slots into which the live entries of the old slots are put, in slot order. */
  ghost function Refilled(hash: Hash, cap: nat, ks: seq<nat>, vs: seq<nat>): (t: Table)
    requires |ks| == |vs|
    ensures |t.keys| == |t.vals| == cap
  {
    if ks == [] then BlankTable(cap)
    else
      var n := |ks| - 1;
      var t := Refilled(hash, cap, ks[..n], vs[..n]);
      if Live(ks[n]) then Put(hash, t, ks[n], vs[n]) else t
  }

  ghost function Grown(hash: Hash, t: Table): (t': Table)
    requires |t.keys| == |t.vals|
    ensures |t'.keys| == |t'.vals| == 2 * |t.keys|
  {
    Refilled(hash, 2 * |t.keys|, t.keys, t.vals)
  }

  /** The slots after removing `k`: a tombstone over its first copy. */
  ghost function Buried(hash: Hash, keys: seq<nat>, k: nat): (r: seq<nat>)
    requires Live(k) || k == EMPTY
    ensures |r| == |keys|
  {
    if Live(k) && k in keys then keys[FirstSlot(hash, keys, k) := TOMBSTONE] else keys
  }

  // ---- What the three changes of a table do ------------------------------------------------------

  /** Fewer non-empty slots than slots let every insertion stop. */
  lemma FreeExists(hash: Hash, keys: seq<nat>, k: nat)
    requires Count(keys, NonEmpty) < |keys|
    ensures InsertionPoint(hash, keys, k, FreeFrom(hash, keys, k, 0))
  {
    EmptyExists(keys);
    var s :| 0 <= s < |keys| && keys[s] == EMPTY;
    assert Takes(Met(hash, keys, k, DistOf(hash, keys, k, s)), k);
  }

  lemma FreeIs(hash: Hash, keys: seq<nat>, k: nat, d: nat)
    requires InsertionPoint(hash, keys, k, d)
    ensures FreeFrom(hash, keys, k, 0) == d
  {
  }

  /** Putting a key changes the map there only, and keeps keys distinct exactly unless it lies behind a tombstone. */
  lemma PutOk(hash: Hash, t: Table, k: nat, v: nat)
    requires TableOk(hash, t) && Load(t) < |t.keys| && Live(k)
    ensures var t' := Put(hash, t, k, v);
            && TableOk(hash, t') && MapOf(hash, t') == MapOf(hash, t)[k := v]
            && (Unique(t.keys) ==> (Unique(t'.keys) <==> !Shadowed(hash, t.keys, k)))
            && (TOMBSTONE !in t.keys ==> TOMBSTONE !in t'.keys)
  {
    FreeExists(hash, t.keys, k);
    var d := FreeFrom(hash, t.keys, k, 0);
    InsertChain(hash, t.keys, k, d);
    InsertModel(hash, t.keys, t.vals, k, v, d);
    if Unique(t.keys) { InsertUnique(hash, t.keys, k, d); }
  }

  /** The counters after putting a key, by what the slot held before. */
  lemma PutCounts(hash: Hash, t: Table, k: nat, v: nat, s: nat)
    requires |t.keys| == |t.vals| && Live(k) && FreeFrom(hash, t.keys, k, 0) < |t.keys|
    requires s == Slot(|t.keys|, Home(hash, |t.keys|, k), FreeFrom(hash, t.keys, k, 0))
    ensures Entries(Put(hash, t, k, v)) == if t.keys[s] == k then Entries(t) else Entries(t) + 1
    ensures Load(Put(hash, t, k, v)) == if t.keys[s] == EMPTY then Load(t) + 1 else Load(t)
  {
    CountUpdate(t.keys, Live, s, k);
    CountUpdate(t.keys, NonEmpty, s, k);
  }

  lemma PutLoad(hash: Hash, t: Table, k: nat, v: nat)
    requires |t.keys| == |t.vals| && Load(t) < |t.keys| && Live(k)
    ensures Load(Put(hash, t, k, v)) <= Load(t) + 1
  {
    FreeExists(hash, t.keys, k);
    PutCounts(hash, t, k, v, Slot(|t.keys|, Home(hash, |t.keys|, k), FreeFrom(hash, t.keys, k, 0)));
  }

  /** A table of empty slots stands for the empty map. */
  lemma Blank(hash: Hash, t: Table)
    requires |t.keys| == |t.vals| && forall s | 0 <= s < |t.keys| :: t.keys[s] == EMPTY
    ensures TableOk(hash, t) && Entries(t) == Load(t) == 0 && MapOf(hash, t) == map[]
    ensures Unique(t.keys) && TOMBSTONE !in t.keys
  {
    CountNone(t.keys, Live);
    CountNone(t.keys, NonEmpty);
  }

  lemma NotShadowed(hash: Hash, keys: seq<nat>, k: nat)
    requires TOMBSTONE !in keys
    ensures !Shadowed(hash, keys, k)
  {
  }

  /** Rehashing leaves distinct keys, no tombstone, and the entries replayed. */
  lemma {:induction false} RefilledOk(hash: Hash, cap: nat, ks: seq<nat>, vs: seq<nat>)
    requires |ks| == |vs| < cap
    ensures var t := Refilled(hash, cap, ks, vs);
            && TableOk(hash, t) && Load(t) <= |ks| && MapOf(hash, t) == Replay(ks, vs)
            && Unique(t.keys) && TOMBSTONE !in t.keys
    decreases |ks|
  {
    if ks == [] {
      Blank(hash, BlankTable(cap));
    } else {
      var n := |ks| - 1;
      RefilledOk(hash, cap, ks[..n], vs[..n]);
      var t := Refilled(hash, cap, ks[..n], vs[..n]);
      if Live(ks[n]) {
        NotShadowed(hash, t.keys, ks[n]);
        PutOk(hash, t, ks[n], vs[n]);
        PutLoad(hash, t, ks[n], vs[n]);
      }
    }
  }

  lemma GrownOk(hash: Hash, t: Table)
    requires Good(hash, t)
    ensures var t' := Grown(hash, t);
            && Good(hash, t') && !IsFull(t') && MapOf(hash, t') == Replay(t.keys, t.vals)
            && Unique(t'.keys) && TOMBSTONE !in t'.keys
  {
    RefilledOk(hash, 2 * |t.keys|, t.keys, t.vals);
  }

  ghost predicate Doubled(keys: seq<nat>, k: nat) {
    exists s, t :: 0 <= s < t < |keys| && keys[s] == k && keys[t] == k
  }

  /** Burying a key keeps all other bindings; the key is gone exactly when it was not stored twice. */
  lemma BuryOk(hash: Hash, t: Table, k: nat)
    requires TableOk(hash, t) && k != TOMBSTONE
    ensures var gone := Live(k) && k in t.keys;
            var t' := t.(keys := Buried(hash, t.keys, k));
            && TableOk(hash, t') && Load(t') == Load(t) && (gone ==> Entries(t) > 0)
            && Entries(t') == (if gone then Entries(t) - 1 else Entries(t))
            && MapOf(hash, t') - {k} == MapOf(hash, t) - {k}
            && (k in MapOf(hash, t') <==> Live(k) && Doubled(t.keys, k))
            && (Unique(t.keys) ==> Unique(t'.keys) && MapOf(hash, t') == MapOf(hash, t) - {k})
  {
    if Live(k) && k in t.keys {
      var i := FirstSlot(hash, t.keys, k);
      RemoveChain(hash, t.keys, i);
      RemoveModel(hash, t.keys, t.vals, k);
      CountUpdate(t.keys, Live, i, TOMBSTONE);
      CountUpdate(t.keys, NonEmpty, i, TOMBSTONE);
    }
    var m := Model(hash, Buried(hash, t.keys, k), t.vals);
    assert k !in m ==> m - {k} == m;
  }

  // ---- Operations and runs -------------------------------------------------------------------------

  datatype Op = Insert(k: nat, v: nat) | Remove(k: nat) | Lookup(k: nat)

  predicate Legal(op: Op) { op.k != TOMBSTONE && (op.Insert? ==> Live(op.k)) }
  predicate LegalOps(ops: seq<Op>) { forall i | 0 <= i < |ops| :: Legal(ops[i]) }

  /** Keys that can be stored, and operations that are asked of the table: 0 and 2^64 - 1 have other uses. */
  lemma LegalIff(op: Op)
    ensures Live(op.k) <==> op.k !in {0, 0xFFFF_FFFF_FFFF_FFFF}
    ensures Legal(op) <==> op.k != 0xFFFF_FFFF_FFFF_FFFF && (op.Insert? ==> op.k != 0)
  {
  }

  /** What an operation does to the table, for any hash function. */
  ghost function Next(hash: Hash, t: Table, op: Op): (t': Table)
    requires |t.keys| == |t.vals| && Legal(op)
    ensures |t'.keys| == |t'.vals|
  {
    match op
    case Insert(k, v) => Put(hash, if IsFull(t) then Grown(hash, t) else t, k, v)
    case Remove(k) => t.(keys := Buried(hash, t.keys, k))
    case Lookup(_) => t
  }

  /** The table after a run from a new one. */
  ghost function TableAfter(hash: Hash, ops: seq<Op>): (t: Table)
    requires LegalOps(ops)
    ensures |t.keys| == |t.vals|
  {
    if ops == [] then BlankTable(16) else Next(hash, TableAfter(hash, ops[..|ops| - 1]), ops[|ops| - 1])
  }

  /** What a caller sees of one operation: its reply and the counters after it. */
  datatype Observation = Observation(reply: Option<nat>, len: nat, used: nat, capacity: nat)

  function MapReply(m: map<nat, nat>, op: Op): Option<nat> {
    if op.Lookup? && op.k in m then Some(m[op.k]) else None
  }

  ghost function Shown(hash: Hash, t: Table, op: Op): (o: Observation)
    requires |t.keys| == |t.vals| && Legal(op)
  {
    var t' := Next(hash, t, op);
    Observation(MapReply(MapOf(hash, t), op), Entries(t'), Load(t'), |t'.keys|)
  }

  /** What the caller sees of operation `i` of a run. */
  ghost function ShownAt(hash: Hash, ops: seq<Op>, i: nat): (o: Observation)
    requires LegalOps(ops) && i < |ops|
  {
    Shown(hash, TableAfter(hash, ops[..i]), ops[i])
  }

  ghost function Observations(hash: Hash, ops: seq<Op>): (obs: seq<Observation>)
    requires LegalOps(ops)
    ensures |obs| == |ops|
  {
    if ops == [] then [] else Observations(hash, ops[..|ops| - 1]) + [ShownAt(hash, ops, |ops| - 1)]
  }

  /** The reference: a finite map updated by the operations. */
  function Apply(m: map<nat, nat>, op: Op): map<nat, nat> {
    match op
    case Insert(k, v) => m[k := v]
    case Remove(k) => m - {k}
    case Lookup(_) => m
  }

  function MapAfter(ops: seq<Op>): map<nat, nat> {
    if ops == [] then map[] else Apply(MapAfter(ops[..|ops| - 1]), ops[|ops| - 1])
  }

  /** Operation `i` answers as the finite map does, and leaves the count of the map. */
  predicate ActsAt(ops: seq<Op>, obs: seq<Observation>, i: nat)
    requires i < |ops| == |obs|
  {
    obs[i].reply == MapReply(MapAfter(ops[..i]), ops[i]) && obs[i].len == |MapAfter(ops[..i + 1])|
  }

  /** A run that is indistinguishable from the finite map. */
  predicate ActsAsMap(ops: seq<Op>, obs: seq<Observation>)
    requires |obs| == |ops|
  {
    forall i | 0 <= i < |ops| :: ActsAt(ops, obs, i)
  }

  /** Operation `i` updates a key behind a tombstone, in a table that does not grow. */
  ghost predicate Misplaces(hash: Hash, ops: seq<Op>, i: nat)
    requires LegalOps(ops) && i < |ops|
  {
    var t := TableAfter(hash, ops[..i]);
    ops[i].Insert? && !IsFull(t) && Shadowed(hash, t.keys, ops[i].k)
  }

  lemma AfterStep(hash: Hash, ops: seq<Op>, i: nat)
    requires LegalOps(ops) && i < |ops|
    ensures TableAfter(hash, ops[..i + 1]) == Next(hash, TableAfter(hash, ops[..i]), ops[i])
    ensures MapAfter(ops[..i + 1]) == Apply(MapAfter(ops[..i]), ops[i])
  {
    assert ops[..i + 1][..i] == ops[..i];
  }

  lemma ShownEarlier(hash: Hash, ops: seq<Op>, n: nat, i: nat)
    requires LegalOps(ops) && i < n <= |ops|
    ensures ShownAt(hash, ops[..n], i) == ShownAt(hash, ops, i)
  {
    assert ops[..n][..i] == ops[..i];
  }

  lemma {:induction false} ObservationAt(hash: Hash, ops: seq<Op>, i: nat)
    requires LegalOps(ops) && i < |ops|
    ensures Observations(hash, ops)[i] == ShownAt(hash, ops, i)
    decreases |ops|
  {
    var n := |ops| - 1;
    if i == n {
    } else {
      ObservationAt(hash, ops[..n], i);
      ShownEarlier(hash, ops, n, i);
    }
  }

  // ---- What holds in every run -----------------------------------------------------------------------

  lemma NextGood(hash: Hash, t: Table, op: Op)
    requires Good(hash, t) && Legal(op)
    ensures Good(hash, Next(hash, t, op))
  {
    match op
    case Insert(k, v) =>
      if IsFull(t) { GrownOk(hash, t); }
      var t1 := if IsFull(t) then Grown(hash, t) else t;
      PutOk(hash, t1, k, v);
      PutLoad(hash, t1, k, v);
    case Remove(k) => BuryOk(hash, t, k);
    case Lookup(_) =>
  }

  lemma {:induction false} AlwaysGood(hash: Hash, ops: seq<Op>)
    requires LegalOps(ops)
    ensures Good(hash, TableAfter(hash, ops))
    decreases |ops|
  {
    if ops == [] {
      Blank(hash, BlankTable(16));
    } else {
      AlwaysGood(hash, ops[..|ops| - 1]);
      NextGood(hash, TableAfter(hash, ops[..|ops| - 1]), ops[|ops| - 1]);
    }
  }

  /** In every run the non-empty slots stay under three quarters, so an empty slot exists and every probe ends. */
  lemma LoadBound(hash: Hash, ops: seq<Op>)
    requires LegalOps(ops)
    ensures var t := TableAfter(hash, ops);
            Entries(t) <= Load(t) && 4 * Load(t) < 3 * |t.keys| && exists s :: 0 <= s < |t.keys| && t.keys[s] == EMPTY
  {
    AlwaysGood(hash, ops);
    LiveAreNonEmpty(TableAfter(hash, ops).keys);
    EmptyExists(TableAfter(hash, ops).keys);
  }

  lemma InsertFinds(hash: Hash, t: Table, k: nat, v: nat)
    requires Good(hash, t) && Live(k)
    ensures var m := MapOf(hash, Next(hash, t, Insert(k, v))); k in m && m[k] == v
  {
    if IsFull(t) { GrownOk(hash, t); }
    PutOk(hash, if IsFull(t) then Grown(hash, t) else t, k, v);
  }

  /** In every run, even with updates past tombstones, a lookup right after an insertion of its key finds the value. */
  lemma InsertThenGet(hash: Hash, ops: seq<Op>, i: nat)
    requires LegalOps(ops) && i + 1 < |ops| && ops[i].Insert? && ops[i + 1] == Lookup(ops[i].k)
    ensures Observations(hash, ops)[i + 1].reply == Some(ops[i].v)
  {
    AlwaysGood(hash, ops[..i]);
    InsertFinds(hash, TableAfter(hash, ops[..i]), ops[i].k, ops[i].v);
    AfterStep(hash, ops, i);
    ObservationAt(hash, ops, i + 1);
  }

  /**
   * In every run the capacity starts with 16, and doubles exactly on an insertion that finds the non-empty slots, with
   * one more, at three quarters or above.
   */
  lemma GrowsIff(hash: Hash, ops: seq<Op>, i: nat)
    requires LegalOps(ops) && i < |ops|
    ensures |TableAfter(hash, []).keys| == 16
    ensures var t := TableAfter(hash, ops[..i]);
            Observations(hash, ops)[i].capacity ==
            if ops[i].Insert? && 4 * (Load(t) + 1) >= 3 * |t.keys| then 2 * |t.keys| else |t.keys|
  {
    ObservationAt(hash, ops, i);
  }

  // ---- Exactly when a run acts as a map ----------------------------------------------------------------

  /** On distinct keys an operation acts as on the map; it leaves them distinct exactly unless it misplaces its key. */
  lemma NextMap(hash: Hash, t: Table, op: Op)
    requires Good(hash, t) && Legal(op) && Unique(t.keys)
    ensures var t' := Next(hash, t, op);
            && MapOf(hash, t') == Apply(MapOf(hash, t), op)
            && (Unique(t'.keys) <==> !(op.Insert? && !IsFull(t) && Shadowed(hash, t.keys, op.k)))
  {
    match op
    case Insert(k, v) =>
      if IsFull(t) {
        GrownOk(hash, t);
        ReplayIsModel(hash, t.keys, t.vals);
        NotShadowed(hash, Grown(hash, t).keys, k);
        PutOk(hash, Grown(hash, t), k, v);
      } else {
        PutOk(hash, t, k, v);
      }
    case Remove(k) => BuryOk(hash, t, k);
    case Lookup(_) =>
  }

  /** As long as nothing was misplaced, the keys are distinct and the table is the map. */
  lemma {:induction false} CleanPrefix(hash: Hash, ops: seq<Op>, i: nat)
    requires LegalOps(ops) && i <= |ops| && forall j | 0 <= j < i :: !Misplaces(hash, ops, j)
    ensures Unique(TableAfter(hash, ops[..i]).keys) && MapOf(hash, TableAfter(hash, ops[..i])) == MapAfter(ops[..i])
    decreases i
  {
    if i == 0 {
      Blank(hash, BlankTable(16));
    } else {
      CleanPrefix(hash, ops, i - 1);
      AlwaysGood(hash, ops[..i - 1]);
      NextMap(hash, TableAfter(hash, ops[..i - 1]), ops[i - 1]);
      AfterStep(hash, ops, i - 1);
      assert !Misplaces(hash, ops, i - 1);
    }
  }

  /** If nothing was misplaced before, operation `i` acts as on the map exactly when it misplaces nothing. */
  lemma CountTells(hash: Hash, ops: seq<Op>, i: nat)
    requires LegalOps(ops) && i < |ops| && forall j | 0 <= j < i :: !Misplaces(hash, ops, j)
    ensures ActsAt(ops, Observations(hash, ops), i) <==> !Misplaces(hash, ops, i)
  {
    CleanPrefix(hash, ops, i);
    AlwaysGood(hash, ops[..i]);
    NextMap(hash, TableAfter(hash, ops[..i]), ops[i]);
    AfterStep(hash, ops, i);
    ObservationAt(hash, ops, i);
    var t := TableAfter(hash, ops[..i + 1]);
    LenIsSize(hash, t.keys, t.vals);
  }

  lemma {:induction false} FirstMisplaced(hash: Hash, ops: seq<Op>, i: nat) returns (k: nat)
    requires LegalOps(ops) && i < |ops| && Misplaces(hash, ops, i)
    ensures k <= i && Misplaces(hash, ops, k) && forall j | 0 <= j < k :: !Misplaces(hash, ops, j)
    decreases i
  {
    if j :| 0 <= j < i && Misplaces(hash, ops, j) {
      k := FirstMisplaced(hash, ops, j);
    } else {
      k := i;
    }
  }

  /**
   * A run of legal operations is indistinguishable from a finite map exactly when none of them updates a key that
   * lies behind a tombstone, in a table that does not grow. For any hash function.
   */
  lemma ActsAsMapIff(hash: Hash, ops: seq<Op>)
    requires LegalOps(ops)
    ensures ActsAsMap(ops, Observations(hash, ops)) <==> forall i | 0 <= i < |ops| :: !Misplaces(hash, ops, i)
  {
    if i :| 0 <= i < |ops| && Misplaces(hash, ops, i) {
      var k := FirstMisplaced(hash, ops, i);
      CountTells(hash, ops, k);
    } else {
      forall i | 0 <= i < |ops| ensures ActsAt(ops, Observations(hash, ops), i) { CountTells(hash, ops, i); }
    }
  }

  /** A key inserted by operation `i` is absent from the map, or the table has no tombstone then. */
  ghost predicate FreshAt(hash: Hash, ops: seq<Op>, i: nat)
    requires LegalOps(ops) && i < |ops|
  {
    ops[i].Insert? ==> ops[i].k !in MapAfter(ops[..i]) || TOMBSTONE !in TableAfter(hash, ops[..i]).keys
  }

  ghost predicate FreshOrUnburied(hash: Hash, ops: seq<Op>)
    requires LegalOps(ops)
  {
    forall i | 0 <= i < |ops| :: FreshAt(hash, ops, i)
  }

  lemma FreshStep(hash: Hash, ops: seq<Op>, i: nat)
    requires LegalOps(ops) && i < |ops| && FreshAt(hash, ops, i)
    requires forall j | 0 <= j < i :: !Misplaces(hash, ops, j)
    ensures !Misplaces(hash, ops, i)
  {
    CleanPrefix(hash, ops, i);
  }

  lemma {:induction false} FreshIsClean(hash: Hash, ops: seq<Op>, i: nat)
    requires LegalOps(ops) && FreshOrUnburied(hash, ops) && i <= |ops|
    ensures forall j | 0 <= j < i :: !Misplaces(hash, ops, j)
    decreases i
  {
    if i == 0 {
    } else {
      FreshIsClean(hash, ops, i - 1);
      FreshStep(hash, ops, i - 1);
    }
  }

  /** So every such run acts as a map. */
  lemma FreshActsAsMap(hash: Hash, ops: seq<Op>)
    requires LegalOps(ops) && FreshOrUnburied(hash, ops)
    ensures ActsAsMap(ops, Observations(hash, ops))
  {
    FreshIsClean(hash, ops, |ops|);
    ActsAsMapIff(hash, ops);
  }

  lemma {:induction false} LiveAreNonEmpty(ks: seq<nat>)
    ensures Count(ks, Live) <= Count(ks, NonEmpty)
  {
    if ks == [] {
    } else {
      LiveAreNonEmpty(ks[..|ks| - 1]);
    }
  }

  // ---- The code ---------------------------------------------------------------------------------------

  class Index {
    const hash: Hash
    var keys: seq<nat>
    var vals: seq<nat>
    var len: nat
    var used: nat
    var mask: nat
    ghost var bits: nat

    ghost function Now(): (t: Table)
      reads this
    {
      Table(keys, vals)
    }

    /** Everything but the load bound. */
    ghost predicate Shape()
      reads this
    {
      && |keys| == |vals| == Pow2(bits) >= 16
      && mask == |keys| - 1
      && TableOk(hash, Now()) && len == Entries(Now()) && used == Load(Now())
    }

    ghost predicate Valid()
      reads this
    {
      Shape() && 4 * used < 3 * |keys|
    }

    ghost function View(): map<nat, nat>
      reads this
      requires |keys| == |vals|
    {
      MapOf(hash, Now())
    }

    constructor (h: Hash)
      ensures Valid() && hash == h && Now() == BlankTable(16) && View() == map[] && len == used == 0
    {
      hash := h;
      keys, vals := seq(16, _ => EMPTY), seq(16, _ => 0);
      len, used, mask := 0, 0, 15;
      bits := 4;
      new;
      Blank(hash, Now());
      assert Pow2(4) == 16;
    }

    /** Where a probe for `k` starts. */
    method Start(k: nat) returns (i: nat)
      requires Shape()
      ensures i == Home(hash, |keys|, k)
    {
      HomeMask(hash, |keys|, bits, k);
      i := And(hash(k), mask);
    }

    /** One probe step. */
    method Advance(i: nat, ghost start: nat, ghost d: nat) returns (j: nat)
      requires Shape() && start < |keys| && d + 1 < |keys| && i == Slot(|keys|, start, d)
      ensures j == Slot(|keys|, start, d + 1)
    {
      NextSlot(|keys|, bits, start, d);
      j := And(i + 1, mask);
    }

    /** The probe of `get` and `remove`: it stops at an empty slot or at the first copy of `k`. */
    method Seek(k: nat) returns (i: nat)
      requires Valid() && k != TOMBSTONE
      ensures i < |keys|
      ensures if keys[i] == EMPTY then k !in View() else keys[i] == k && Live(k) && FirstSlot(hash, keys, k) == i
    {
      i := Start(k);
      ghost var start, d := i, 0;
      while keys[i] != EMPTY && keys[i] != k
        invariant d < |keys| && i == Slot(|keys|, start, d)
        invariant forall e | 0 <= e < d :: Met(hash, keys, k, e) != EMPTY && Met(hash, keys, k, e) != k
        decreases |keys| - d
      {
        assert keys[i] == Met(hash, keys, k, d);
        ProbeGoesOn(hash, keys, k, d);
        i := Advance(i, start, d);
        d := d + 1;
      }
      assert keys[i] == Met(hash, keys, k, d);
      if keys[i] == EMPTY {
        ProbeMisses(hash, keys, k, d);
      } else {
        assert FirstDist(hash, keys, k) == d;
      }
    }

    /** The probe of an insertion: it stops at the first slot that is empty, a tombstone or `k`. */
    method SeekFree(k: nat) returns (i: nat)
      requires Shape() && Live(k) && used < |keys|
      ensures FreeFrom(hash, keys, k, 0) < |keys|
      ensures i == Slot(|keys|, Home(hash, |keys|, k), FreeFrom(hash, keys, k, 0))
    {
      i := Start(k);
      ghost var start, d := i, 0;
      while !Takes(keys[i], k)
        invariant d < |keys| && i == Slot(|keys|, start, d)
        invariant forall e | 0 <= e < d :: !Takes(Met(hash, keys, k, e), k)
        decreases |keys| - d
      {
        assert keys[i] == Met(hash, keys, k, d);
        ProbeGoesOn(hash, keys, k, d);
        i := Advance(i, start, d);
        d := d + 1;
      }
      assert keys[i] == Met(hash, keys, k, d);
      FreeIs(hash, keys, k, d);
    }

    method Get(k: nat) returns (r: Option<nat>)
      requires Valid() && k != TOMBSTONE
      ensures r == if k in View() then Some(View()[k]) else None
    {
      var i := Seek(k);
      r := if keys[i] == EMPTY then None else Some(vals[i]);
    }

    method Insert(k: nat, v: nat)
      requires Valid() && Live(k)
      modifies this
      ensures Valid() && Now() == Next(hash, old(Now()), Op.Insert(k, v))
      ensures k in View() && View()[k] == v
      ensures old(Unique(keys)) ==> View() == old(View())[k := v]
      ensures old(Unique(keys)) ==> (Unique(keys) <==> old(IsFull(Now()) || !Shadowed(hash, keys, k)))
    {
      ghost var t := Now();
      NextGood(hash, t, Op.Insert(k, v));
      InsertFinds(hash, t, k, v);
      if Unique(keys) { NextMap(hash, t, Op.Insert(k, v)); }
      if 4 * (used + 1) >= 3 * |keys| {
        Grow();
      }
      InsertNoGrow(k, v);
    }

    method InsertNoGrow(k: nat, v: nat)
      requires Shape() && Live(k) && used < |keys|
      modifies this
      ensures Shape() && bits == old(bits) && Now() == Put(hash, old(Now()), k, v)
      ensures View() == old(View())[k := v]
      ensures old(Unique(keys)) ==> (Unique(keys) <==> !old(Shadowed(hash, keys, k)))
    {
      var i := SeekFree(k);
      PutOk(hash, Now(), k, v);
      PutCounts(hash, Now(), k, v, i);
      var kk := keys[i];
      if kk == EMPTY || kk == TOMBSTONE {
        keys := keys[i := k];
        vals := vals[i := v];
        len := len + 1;
        if kk == EMPTY { used := used + 1; }
      } else {
        assert keys[i := k] == keys;
        vals := vals[i := v];
      }
    }

    method Remove(k: nat)
      requires Valid() && k != TOMBSTONE
      modifies this
      ensures Valid() && Now() == Next(hash, old(Now()), Op.Remove(k)) && used == old(used)
      ensures View() - {k} == old(View()) - {k}
      ensures k in View() <==> Live(k) && Doubled(old(keys), k)
      ensures old(Unique(keys)) ==> Unique(keys) && View() == old(View()) - {k}
    {
      BuryOk(hash, Now(), k);
      var i := Seek(k);
      if keys[i] != EMPTY {
        keys := keys[i := TOMBSTONE];
        len := len - 1;
      }
    }

    method Grow()
      requires Valid()
      modifies this
      ensures Valid() && !IsFull(Now()) && bits == old(bits) + 1 && Now() == Grown(hash, old(Now()))
      ensures View() == Replay(old(keys), old(vals)) && Unique(keys) && TOMBSTONE !in keys
    {
      GrownOk(hash, Now());
      var newCap := 2 * |keys|;
      var oldKeys, oldVals := keys, vals;
      keys, vals := seq(newCap, _ => EMPTY), seq(newCap, _ => 0);
      mask := newCap - 1;
      len, used := 0, 0;
      bits := bits + 1;
      Blank(hash, Now());
      Refill(oldKeys, oldVals);
    }

    /** The second half of `grow`: insert the live entries of the old slots into a blank table. */
    method Refill(ks: seq<nat>, vs: seq<nat>)
      requires Shape() && Now() == BlankTable(|keys|) && |ks| == |vs| < |keys|
      modifies this
      ensures Shape() && bits == old(bits) && Now() == Refilled(hash, old(|keys|), ks, vs)
    {
      ghost var cap := |keys|;
      assert ks[..0] == [] && vs[..0] == [];
      for i := 0 to |ks|
        invariant Shape() && bits == old(bits) && Now() == Refilled(hash, cap, ks[..i], vs[..i])
      {
        assert ks[..i + 1][..i] == ks[..i] && vs[..i + 1][..i] == vs[..i];
        RefilledOk(hash, cap, ks[..i], vs[..i]);
        if Live(ks[i]) {
          InsertNoGrow(ks[i], vs[i]);
        }
      }
      assert ks[..|ks|] == ks && vs[..|ks|] == vs;
    }

    /** One operation of a run. */
    method Do(op: Op) returns (o: Observation)
      requires Valid() && Legal(op)
      modifies this
      ensures Valid() && Now() == Next(hash, old(Now()), op) && o == Shown(hash, old(Now()), op)
    {
      var r := None;
      match op {
        case Insert(k, v) => Insert(k, v);
        case Remove(k) => Remove(k);
        case Lookup(k) => r := Get(k);
      }
      o := Observation(r, len, used, |keys|);
    }
  }

  /** Any run of legal operations on a new table shows what the table as a value shows. */
  method Run(h: Hash, ops: seq<Op>) returns (obs: seq<Observation>)
    requires LegalOps(ops)
    ensures obs == Observations(h, ops)
  {
    var t := new Index(h);
    obs := [];
    assert ops[..0] == [];
    for i := 0 to |ops|
      invariant t.Valid() && fresh(t) && t.hash == h && t.Now() == TableAfter(h, ops[..i])
      invariant obs == Observations(h, ops[..i])
    {
      assert ops[..i + 1][..i] == ops[..i];
      var o := t.Do(ops[i]);
      obs := obs + [o];
    }
    assert ops[..|ops|] == ops;
  }

  // ---- A run that does not -----------------------------------------------------------------------------------

  /** Two keys with one home slot; the first is removed, the second updated and removed, then looked up. */
  function StaleRun(j: nat, k: nat, a: nat, b: nat, c: nat): seq<Op> {
    [Insert(j, a), Insert(k, b), Remove(j), Insert(k, c), Remove(k), Lookup(k)]
  }

  /** Putting a key at step `d` of its probe. */
  lemma PutAt(hash: Hash, t: Table, k: nat, v: nat, d: nat)
    requires |t.keys| == |t.vals| && InsertionPoint(hash, t.keys, k, d)
    ensures var s := Slot(|t.keys|, Home(hash, |t.keys|, k), d);
            Put(hash, t, k, v) == Table(t.keys[s := k], t.vals[s := v])
  {
    FreeIs(hash, t.keys, k, d);
  }

  /** The two keys lie in their home slot and the next. */
  lemma Collide(hash: Hash, t: Table, j: nat, k: nat, a: nat, b: nat, home: nat, next: nat)
    requires t == BlankTable(16) && Live(j) && Live(k) && j != k && Home(hash, 16, j) == Home(hash, 16, k) == home
    requires next == Slot(16, home, 1)
    ensures Put(hash, Put(hash, t, j, a), k, b) ==
            Table(t.keys[home := j][next := k], t.vals[home := a][next := b])
  {
    PutAt(hash, t, j, a, 0);
    var t1 := Put(hash, t, j, a);
    assert Met(hash, t1.keys, k, 0) == j && Met(hash, t1.keys, k, 1) == EMPTY;
    PutAt(hash, t1, k, b, 1);
  }

  /** A key behind a tombstone is updated into it and removed: its old copy is found again. */
  lemma Resurfaces(hash: Hash, t: Table, k: nat, c: nat, home: nat, next: nat)
    requires |t.keys| == |t.vals| >= 2 && Live(k) && home == Home(hash, |t.keys|, k) && next == Slot(|t.keys|, home, 1)
    requires t.keys[home] == TOMBSTONE && t.keys[next] == k
    ensures var t1 := Put(hash, t, k, c);
            var m := Model(hash, Buried(hash, t1.keys, k), t1.vals);
            k in m && m[k] == t.vals[next]
  {
    assert Met(hash, t.keys, k, 0) == TOMBSTONE;
    PutAt(hash, t, k, c, 0);
    var keys1 := t.keys[home := k];
    assert DistOf(hash, keys1, k, home) == 0;
    FirstIs(hash, keys1, k, home);
    var keys2 := keys1[home := TOMBSTONE];
    assert keys2[next] == k && DistOf(hash, keys2, k, next) == 1 && DistOf(hash, keys2, k, home) == 0;
    FirstIs(hash, keys2, k, next);
  }

  /** The table after the first three operations: a tombstone at home, the second key behind it. */
  lemma StaleTable(hash: Hash, t: Table, j: nat, k: nat, a: nat, b: nat, home: nat, next: nat)
    requires t == BlankTable(16) && Live(j) && Live(k) && j != k && Home(hash, 16, j) == Home(hash, 16, k) == home
    requires next == Slot(16, home, 1)
    ensures var t3 := Next(hash, Next(hash, Next(hash, t, Insert(j, a)), Insert(k, b)), Remove(j));
            && |t3.keys| == 16 && !IsFull(t3) && t3.keys[home] == TOMBSTONE && t3.keys[next] == k && t3.vals[next] == b
  {
    Blank(hash, t);
    var t1 := Put(hash, t, j, a);
    PutLoad(hash, t, j, a);
    assert Next(hash, t, Insert(j, a)) == t1;
    var t2 := Put(hash, t1, k, b);
    PutLoad(hash, t1, k, b);
    assert Next(hash, t1, Insert(k, b)) == t2;
    Collide(hash, t, j, k, a, b, home, next);
    assert t2.keys[home] == j && DistOf(hash, t2.keys, j, home) == 0;
    FirstIs(hash, t2.keys, j, home);
    CountUpdate(t2.keys, NonEmpty, home, TOMBSTONE);
  }

  lemma StaleStart(hash: Hash, ops: seq<Op>, j: nat, k: nat, a: nat, b: nat, c: nat)
    requires LegalOps(ops) && ops == StaleRun(j, k, a, b, c)
    ensures TableAfter(hash, ops[..3]) == Next(hash, Next(hash, Next(hash, BlankTable(16), ops[0]), ops[1]), ops[2])
  {
    assert ops[..0] == [];
    AfterStep(hash, ops, 0);
    AfterStep(hash, ops, 1);
    AfterStep(hash, ops, 2);
  }

  lemma StaleEnd(hash: Hash, ops: seq<Op>, t: Table, j: nat, k: nat, a: nat, b: nat, c: nat, home: nat, next: nat)
    requires LegalOps(ops) && ops == StaleRun(j, k, a, b, c) && t == TableAfter(hash, ops[..3])
    requires |t.keys| == 16 && !IsFull(t) && home == Home(hash, 16, k) && next == Slot(16, home, 1)
    requires t.keys[home] == TOMBSTONE && t.keys[next] == k && t.vals[next] == b
    ensures MapReply(MapOf(hash, TableAfter(hash, ops[..5])), Lookup(k)) == Some(b)
  {
    AfterStep(hash, ops, 3);
    AfterStep(hash, ops, 4);
    StaleLast(hash, t, k, b, c, home, next);
  }

  lemma StaleLast(hash: Hash, t: Table, k: nat, b: nat, c: nat, home: nat, next: nat)
    requires |t.keys| == |t.vals| == 16 && Live(k) && !IsFull(t)
    requires home == Home(hash, 16, k) && next == Slot(16, home, 1)
    requires t.keys[home] == TOMBSTONE && t.keys[next] == k && t.vals[next] == b
    ensures MapReply(MapOf(hash, Next(hash, Next(hash, t, Insert(k, c)), Remove(k))), Lookup(k)) == Some(b)
  {
    Resurfaces(hash, t, k, c, home, next);
  }

  lemma RemovedFromMap(ops: seq<Op>, i: nat)
    requires i < |ops| && ops[i].Remove?
    ensures ops[i].k !in MapAfter(ops[..i + 1])
  {
    assert ops[..i + 1][..i] == ops[..i];
  }

  /** That run ends with the lookup of a removed key finding its value from before the update. */
  lemma StaleCopy(hash: Hash, ops: seq<Op>, j: nat, k: nat, a: nat, b: nat, c: nat)
    requires Live(j) && Live(k) && j != k && Home(hash, 16, j) == Home(hash, 16, k) && ops == StaleRun(j, k, a, b, c)
    ensures LegalOps(ops) && k !in MapAfter(ops[..5])
    ensures Observations(hash, ops)[5].reply == Some(b) && !ActsAsMap(ops, Observations(hash, ops))
  {
    var home := Home(hash, 16, k);
    var next := Slot(16, home, 1);
    StaleStart(hash, ops, j, k, a, b, c);
    StaleTable(hash, BlankTable(16), j, k, a, b, home, next);
    StaleEnd(hash, ops, TableAfter(hash, ops[..3]), j, k, a, b, c, home, next);
    RemovedFromMap(ops, 4);
    ObservationAt(hash, ops, 5);
    assert !ActsAt(ops, Observations(hash, ops), 5);
  }

  lemma KernelCollision(h: Hash)
    requires h == FibonacciHash
    ensures Home(h, 16, 2) == Home(h, 16, 7)
  {
    assert h(2) == 0x3C6E_F372 && h(7) == 0x5384_5412;
    assert Home(h, 16, 2) == 2 && Home(h, 16, 7) == 2;
  }

  /** So it does with the kernel's own hash, which sends the keys 2 and 7 to one slot of a new table. */
  lemma StaleCopyInKernel(h: Hash, ops: seq<Op>, a: nat, b: nat, c: nat)
    requires h == FibonacciHash && ops == StaleRun(2, 7, a, b, c)
    ensures LegalOps(ops) && 7 !in MapAfter(ops[..5])
    ensures Observations(h, ops)[5].reply == Some(b) && !ActsAsMap(ops, Observations(h, ops))
  {
    KernelCollision(h);
    StaleCopy(h, ops, 2, 7, a, b, c);
  }
}
