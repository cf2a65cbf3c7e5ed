/**
 * Choosing the addresses of a reply: those of the name asked for, or else of the first name along its chain of
 * aliases that has any (section 3.6.2 of RFC 1034).
 */
module DnsAnswers {
  import opened Bytes
  import Picking

  const DNS_MAX_CNAME_HOPS: nat := 10
  const TTL_MAX: nat := 0xFFFF_FFFF

  type Name = seq<byte>

  /** An address record and an alias record of the answer section, in packet order. */
  datatype Address = Address(owner: Name, addr: seq<byte>, ttl: nat)
  datatype Alias = Alias(owner: Name, target: Name)

  datatype Answer = Answer(addresses: seq<seq<byte>>, ttl: nat)

  // ---- What is asked for ------------------------------------------------------------------

  predicate Owns(rs: seq<Address>, name: Name) { exists i | 0 <= i < |rs| :: rs[i].owner == name }

  /** The addresses of a name, in packet order. */
  function AddressesOf(rs: seq<Address>, name: Name): (r: seq<seq<byte>>) {
    if rs == [] then []
    else
      var last := rs[|rs| - 1];
      AddressesOf(rs[..|rs| - 1], name) + if last.owner == name then [last.addr] else []
  }

  /** The smallest time to live of a name's addresses, or `TTL_MAX` if none is smaller. */
  function MinTtl(rs: seq<Address>, name: Name): (m: nat)
    ensures m <= TTL_MAX && forall i | 0 <= i < |rs| && rs[i].owner == name :: m <= rs[i].ttl
    ensures m < TTL_MAX ==> exists i | 0 <= i < |rs| :: rs[i].owner == name && rs[i].ttl == m
  {
    if rs == [] then TTL_MAX
    else
      var last, m := rs[|rs| - 1], MinTtl(rs[..|rs| - 1], name);
      if last.owner == name && last.ttl < m then last.ttl else m
  }

  /** The target of the first alias record of a name. */
  function First(cs: seq<Alias>, name: Name): (r: Option<Name>)
    ensures r.Some? ==> exists i | 0 <= i < |cs| ::
                          cs[i] == Alias(name, r.value) && forall k | 0 <= k < i :: cs[k].owner != name
    ensures r.None? ==> forall i | 0 <= i < |cs| :: cs[i].owner != name
  {
    if cs == [] then None
    else
      var r := First(cs[..|cs| - 1], name);
      if r.Some? then r else if cs[|cs| - 1].owner == name then Some(cs[|cs| - 1].target) else None
  }

  /** The `n`th name of the chain that starts with `name`. */
  function Chain(cs: seq<Alias>, name: Name, n: nat): (r: Option<Name>)
    decreases n
  {
    if n == 0 then Some(name)
    else match First(cs, name) case None => None case Some(t) => Chain(cs, t, n - 1)
  }

  predicate OwnsAt(rs: seq<Address>, cs: seq<Alias>, name: Name, n: nat) {
    Chain(cs, name, n).Some? && Owns(rs, Chain(cs, name, n).value)
  }

  /** The first name that owns an address among the first `hops` of the chain. */
  function Chosen(rs: seq<Address>, cs: seq<Alias>, name: Name, hops: nat): (r: Option<Name>)
    decreases hops
  {
    if hops == 0 then None
    else if Owns(rs, name) then Some(name)
    else match First(cs, name) case None => None case Some(t) => Chosen(rs, cs, t, hops - 1)
  }

  function Reply(rs: seq<Address>, name: Name): Answer {
    Answer(AddressesOf(rs, name), if MinTtl(rs, name) == TTL_MAX then 0 else MinTtl(rs, name))
  }

  /** The answer, without any memory of the names already met. */
  function Selected(rs: seq<Address>, cs: seq<Alias>, qname: Name): (r: Option<Answer>) {
    match Chosen(rs, cs, qname, DNS_MAX_CNAME_HOPS) case None => None case Some(name) => Some(Reply(rs, name))
  }

  /** What the choice means: the chain's first owner of an address, if there is one in time. */
  lemma {:induction false} ChosenIsFirst(rs: seq<Address>, cs: seq<Alias>, name: Name, hops: nat) returns (k: nat)
    ensures Chosen(rs, cs, name, hops).Some? ==>
              && k < hops && OwnsAt(rs, cs, name, k) && Chain(cs, name, k) == Chosen(rs, cs, name, hops)
              && forall n: nat | n < k :: !OwnsAt(rs, cs, name, n)
    ensures Chosen(rs, cs, name, hops).None? ==> forall n: nat | n < hops :: !OwnsAt(rs, cs, name, n)
    decreases hops
  {
    k := 0;
    if hops == 0 || Owns(rs, name) {
    } else {
      var t := First(cs, name);
      if t.Some? {
        var j := ChosenIsFirst(rs, cs, t.value, hops - 1);
        k := j + 1;
        forall n: nat | 0 < n < hops ensures OwnsAt(rs, cs, name, n) == OwnsAt(rs, cs, t.value, n - 1) {
        }
      }
    }
  }

  lemma {:induction false} AddressesOwned(rs: seq<Address>, name: Name)
    ensures AddressesOf(rs, name) != [] <==> Owns(rs, name)
    decreases |rs|
  {
    if rs == [] {
    } else {
      var n := |rs| - 1;
      AddressesOwned(rs[..n], name);
      if Owns(rs[..n], name) {
        var i :| 0 <= i < n && rs[..n][i].owner == name;
        assert rs[i].owner == name;
      }
      if Owns(rs, name) && rs[n].owner != name {
        var i :| 0 <= i < |rs| && rs[i].owner == name;
        assert rs[..n][i].owner == name;
      }
    }
  }

  function OwnedBy(name: Name): Address -> bool { (r: Address) => r.owner == name }

  function AddressIn(): Address -> seq<byte> { (r: Address) => r.addr }

  /** The addresses of a name are those of the records it owns, all of them, in packet order, and no others. */
  lemma {:induction false} AddressesAre(rs: seq<Address>, name: Name) returns (ks: seq<nat>)
    ensures Picking.Positions(ks, rs, OwnedBy(name)) && Picking.Picked(AddressesOf(rs, name), ks, rs, AddressIn())
    decreases |rs|
  {
    if rs == [] {
      ks := [];
      Picking.PositionsNone(OwnedBy(name));
    } else {
      var front, r := rs[..|rs| - 1], rs[|rs| - 1];
      ks := AddressesAre(front, name);
      assert rs == front + [r];
      if r.owner == name {
        Picking.PositionsTake(ks, front, r, OwnedBy(name));
        Picking.PickedTake(AddressesOf(front, name), ks, front, r, AddressIn());
        ks := ks + [|front|];
      } else {
        Picking.PositionsSkip(ks, front, r, OwnedBy(name));
        Picking.PickedSkip(AddressesOf(front, name), ks, front, r, AddressIn());
      }
    }
  }

  // ---- Walking in circles -------------------------------------------------------------------------

  /** The names met so far: each the target of the one before, none with an address. */
  ghost predicate Walked(rs: seq<Address>, cs: seq<Alias>, path: seq<Name>) {
    && (forall i | 0 <= i < |path| - 1 :: First(cs, path[i]) == Some(path[i + 1]))
    && (forall i | 0 <= i < |path| :: !Owns(rs, path[i]))
  }

  lemma WalkedOn(rs: seq<Address>, cs: seq<Alias>, seen: seq<Name>, current: Name)
    requires Walked(rs, cs, seen) && !Owns(rs, current)
    requires seen != [] ==> First(cs, seen[|seen| - 1]) == Some(current)
    ensures Walked(rs, cs, seen + [current])
  {
  }

  /** Once the chain comes back to a name met before, nothing new will be found. */
  lemma {:induction false} NothingNew(rs: seq<Address>, cs: seq<Alias>, path: seq<Name>, i: nat, hops: nat)
    requires Walked(rs, cs, path) && i < |path|
    requires First(cs, path[|path| - 1]).Some? && First(cs, path[|path| - 1]).value in path
    ensures Chosen(rs, cs, path[i], hops) == None
    decreases hops
  {
    if hops == 0 {
    } else {
      if i + 1 < |path| {
        NothingNew(rs, cs, path, i + 1, hops - 1);
      } else {
        var j :| 0 <= j < |path| && path[j] == First(cs, path[i]).value;
        NothingNew(rs, cs, path, j, hops - 1);
      }
    }
  }

  // ---- The code ---------------------------------------------------------------------------------------

  /** The addresses of one name and the smallest time to live, added to what there is. */
  method Gather(rs: seq<Address>, name: Name) returns (addresses: seq<seq<byte>>, minTtl: nat, sawA: bool)
    ensures addresses == AddressesOf(rs, name) && minTtl == MinTtl(rs, name) && sawA == Owns(rs, name)
  {
    addresses, minTtl, sawA := [], TTL_MAX, false;
    for i := 0 to |rs|
      invariant addresses == AddressesOf(rs[..i], name) && minTtl == MinTtl(rs[..i], name)
      invariant sawA <==> exists k | 0 <= k < i :: rs[k].owner == name
    {
      assert rs[..i + 1][..i] == rs[..i];
      if rs[i].owner == name {
        addresses := addresses + [rs[i].addr];
        sawA := true;
        if rs[i].ttl < minTtl { minTtl := rs[i].ttl; }
      }
    }
    assert rs[..|rs|] == rs;
  }

  method FindAlias(cs: seq<Alias>, name: Name) returns (r: Option<Name>)
    ensures r == First(cs, name)
  {
    for i := 0 to |cs|
      invariant First(cs[..i], name) == None
    {
      assert cs[..i + 1][..i] == cs[..i];
      if cs[i].owner == name {
        FirstStays(cs, i + 1, name);
        return Some(cs[i].target);
      }
    }
    assert cs[..|cs|] == cs;
    return None;
  }

  lemma {:induction false} FirstStays(cs: seq<Alias>, n: nat, name: Name)
    requires n <= |cs| && First(cs[..n], name).Some?
    ensures First(cs, name) == First(cs[..n], name)
    decreases |cs|
  {
    if n < |cs| {
      assert cs[..|cs| - 1][..n] == cs[..n];
      FirstStays(cs[..|cs| - 1], n, name);
    } else {
      assert cs[..n] == cs;
    }
  }

  /** The selection as it is coded, with the list of names seen; that list never makes a difference. */
  method SelectAnswer(rs: seq<Address>, cs: seq<Alias>, qname: Name) returns (r: Option<Answer>)
    ensures r == Selected(rs, cs, qname)
  {
    var current, seen: seq<Name> := qname, [];
    for hop := 0 to DNS_MAX_CNAME_HOPS
      invariant Walked(rs, cs, seen) && (seen != [] ==> First(cs, seen[|seen| - 1]) == Some(current))
      invariant Chosen(rs, cs, qname, DNS_MAX_CNAME_HOPS) == Chosen(rs, cs, current, DNS_MAX_CNAME_HOPS - hop)
    {
      var addresses, minTtl, sawA := Gather(rs, current);
      if sawA {
        return Some(Answer(addresses, if minTtl == TTL_MAX then 0 else minTtl));
      }
      ghost var path := seen + [current];
      WalkedOn(rs, cs, seen, current);
      var next := FindAlias(cs, current);
      if next.None? { return None; }
      if next.value in seen {
        assert next.value in path;
        NothingNew(rs, cs, path, |seen|, DNS_MAX_CNAME_HOPS - hop);
        return None;
      }
      seen, current := seen + [current], next.value;
    }
    return None;
  }
}
