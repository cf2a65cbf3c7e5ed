/**
 * Which addresses a reply gives, said of its answer records alone, with mixed owners and aliases among them: follow
 * the first alias record of a name until a name owns addresses, ten names at most, and take those.
 */
module DnsSelection {
  import opened Bytes
  import opened DnsAnswers
  import opened DnsReply
  import opened DnsTypes
  import DnsName
  import Picking

  type Name = seq<byte>

  predicate Addresses(r: Record, name: Name) { r.AddressRecord? && r.address.owner == name }

  predicate Aliases(r: Record, name: Name) { r.AliasRecord? && r.alias.owner == name }

  predicate HasAddress(rs: seq<Record>, name: Name) { exists i | 0 <= i < |rs| :: Addresses(rs[i], name) }

  /** Record `i` is the first alias record of `a`, and leads to `b`. */
  predicate LeadsAt(rs: seq<Record>, a: Name, b: Name, i: nat) {
    i < |rs| && rs[i] == AliasRecord(Alias(a, b)) && forall k | 0 <= k < i :: !Aliases(rs[k], a)
  }

  predicate Leads(rs: seq<Record>, a: Name, b: Name) { exists i | 0 <= i < |rs| :: LeadsAt(rs, a, b, i) }

  /** The names from the first to one that owns addresses, each led to by the one before, none of which does. */
  predicate Path(rs: seq<Record>, p: seq<Name>) {
    && p != [] && HasAddress(rs, p[|p| - 1])
    && forall i | 0 <= i < |p| - 1 :: !HasAddress(rs, p[i]) && Leads(rs, p[i], p[i + 1])
  }

  /** A path from the name asked for, of at most ten names. */
  predicate AnswerPath(rs: seq<Record>, qname: Name, p: seq<Name>) { Path(rs, p) && p[0] == qname && |p| <= 10 }

  function Owned(name: Name): Record -> bool { (r: Record) => Addresses(r, name) }

  function AddrOf(): Record -> seq<byte> { (r: Record) => if r.AddressRecord? then r.address.addr else [] }

  /** All addresses of the name's records, in packet order, and no others; `ks` are their positions. */
  predicate AddressesAt(ks: seq<nat>, rs: seq<Record>, name: Name, addresses: seq<seq<byte>>) {
    Picking.Positions(ks, rs, Owned(name)) && Picking.Picked(addresses, ks, rs, AddrOf())
  }

  /** The smallest time to live of the name's records, but 0 for 2^32 - 1. */
  predicate TtlIs(rs: seq<Record>, name: Name, ttl: nat) {
    if exists i | 0 <= i < |rs| :: Addresses(rs[i], name) && rs[i].address.ttl < 0xFFFF_FFFF then
      && (exists i | 0 <= i < |rs| :: Addresses(rs[i], name) && rs[i].address.ttl == ttl)
      && forall i | 0 <= i < |rs| :: Addresses(rs[i], name) ==> ttl <= rs[i].address.ttl
    else ttl == 0
  }

  ghost predicate AnswerIs(rs: seq<Record>, name: Name, a: Answer) {
    (exists ks :: AddressesAt(ks, rs, name, a.addresses)) && TtlIs(rs, name, a.ttl)
  }

  // ---- Records, addresses and aliases -----------------------------------------------------------

  lemma AddressesStep(ks: seq<nat>, rs: seq<Record>, r: Record, name: Name, as_: seq<seq<byte>>) returns (ls: seq<nat>)
    requires AddressesAt(ks, rs, name, as_)
    ensures AddressesAt(ls, rs + [r], name, as_ + if Addresses(r, name) then [r.address.addr] else [])
  {
    if Addresses(r, name) {
      ls := ks + [|rs|];
      Picking.PositionsTake(ks, rs, r, Owned(name));
      Picking.PickedTake(as_, ks, rs, r, AddrOf());
    } else {
      ls := ks;
      Picking.PositionsSkip(ks, rs, r, Owned(name));
      Picking.PickedSkip(as_, ks, rs, r, AddrOf());
      assert as_ + [] == as_;
    }
  }

  /** One more record: what it adds to the addresses of a name and to their smallest time to live. */
  lemma OneMore(rs: seq<Record>, r: Record, name: Name)
    ensures AddressesOf(AddressesIn(rs + [r]), name) ==
            AddressesOf(AddressesIn(rs), name) + if Addresses(r, name) then [r.address.addr] else []
    ensures var m := MinTtl(AddressesIn(rs), name);
            MinTtl(AddressesIn(rs + [r]), name) ==
            if Addresses(r, name) && r.address.ttl < m then r.address.ttl else m
  {
    InSnoc(rs, r);
    if r.AddressRecord? {
      AddressesSnoc(AddressesIn(rs), r.address, name);
    } else {
      assert AddressesIn(rs) + [] == AddressesIn(rs);
    }
  }

  lemma {:induction false} AddressesPicked(rs: seq<Record>, name: Name) returns (ks: seq<nat>)
    ensures AddressesAt(ks, rs, name, AddressesOf(AddressesIn(rs), name))
    decreases |rs|
  {
    if rs == [] {
      ks := [];
      Picking.PositionsNone(Owned(name));
    } else {
      var front, r := rs[..|rs| - 1], rs[|rs| - 1];
      assert rs == front + [r];
      OneMore(front, r, name);
      var ls := AddressesPicked(front, name);
      ks := AddressesStep(ls, front, r, name, AddressesOf(AddressesIn(front), name));
    }
  }

  /** `m` bounds the times to live of the name's records, and is one of them if it is not the largest. */
  predicate Smallest(rs: seq<Record>, name: Name, m: nat) {
    && m <= 0xFFFF_FFFF && (forall i | 0 <= i < |rs| :: Addresses(rs[i], name) ==> m <= rs[i].address.ttl)
    && (m < 0xFFFF_FFFF ==> exists i | 0 <= i < |rs| :: Addresses(rs[i], name) && rs[i].address.ttl == m)
  }

  lemma SmallestStep(rs: seq<Record>, r: Record, name: Name, m: nat)
    requires Smallest(rs, name, m)
    ensures Smallest(rs + [r], name, if Addresses(r, name) && r.address.ttl < m then r.address.ttl else m)
  {
    var all := rs + [r];
    assert all[|rs|] == r;
    if m < 0xFFFF_FFFF {
      var i :| 0 <= i < |rs| && Addresses(rs[i], name) && rs[i].address.ttl == m;
      assert all[i] == rs[i];
    }
    assert forall i | 0 <= i < |rs| :: all[i] == rs[i];
  }

  lemma {:induction false} TtlSmallest(rs: seq<Record>, name: Name)
    ensures Smallest(rs, name, MinTtl(AddressesIn(rs), name))
    decreases |rs|
  {
    if rs == [] {
    } else {
      var front, r := rs[..|rs| - 1], rs[|rs| - 1];
      assert rs == front + [r];
      OneMore(front, r, name);
      TtlSmallest(front, name);
      SmallestStep(front, r, name, MinTtl(AddressesIn(front), name));
    }
  }

  /** What the code answers for a name is what the records say of it. */
  lemma ReplyIs(rs: seq<Record>, name: Name)
    ensures AnswerIs(rs, name, Reply(AddressesIn(rs), name))
  {
    var ks := AddressesPicked(rs, name);
    TtlSmallest(rs, name);
  }

  lemma AddressesSnoc(rs: seq<Address>, r: Address, name: Name)
    ensures AddressesOf(rs + [r], name) == AddressesOf(rs, name) + if r.owner == name then [r.addr] else []
    ensures MinTtl(rs + [r], name) == if r.owner == name && r.ttl < MinTtl(rs, name) then r.ttl else MinTtl(rs, name)
  {
    assert (rs + [r])[..|rs|] == rs;
  }

  lemma {:induction false} OwnsIff(rs: seq<Record>, name: Name)
    ensures Owns(AddressesIn(rs), name) <==> HasAddress(rs, name)
    decreases |rs|
  {
    if rs == [] {
    } else {
      var front, r := rs[..|rs| - 1], rs[|rs| - 1];
      OwnsIff(front, name);
      assert rs == front + [r];
      InSnoc(front, r);
      OwnsMore(AddressesIn(front), if r.AddressRecord? then [r.address] else [], name);
      HasMore(front, r, name);
    }
  }

  lemma OwnsMore(rs: seq<Address>, more: seq<Address>, name: Name)
    requires |more| <= 1
    ensures Owns(rs + more, name) <==> Owns(rs, name) || (more != [] && more[0].owner == name)
  {
    if Owns(rs, name) {
      var i :| 0 <= i < |rs| && rs[i].owner == name;
      assert (rs + more)[i].owner == name;
    }
    if more != [] { assert (rs + more)[|rs|] == more[0]; }
  }

  lemma HasMore(rs: seq<Record>, r: Record, name: Name)
    ensures HasAddress(rs + [r], name) <==> HasAddress(rs, name) || Addresses(r, name)
  {
    if HasAddress(rs, name) {
      var i :| 0 <= i < |rs| && Addresses(rs[i], name);
      assert Addresses((rs + [r])[i], name);
    }
    assert (rs + [r])[|rs|] == r;
  }

  // ---- The chain of names -------------------------------------------------------------------------

  /** The first alias of a name is the record that leads on; without one, none does. */
  ghost predicate FirstIs(rs: seq<Record>, a: Name, r: Option<Name>) {
    match r
    case Some(b) => Leads(rs, a, b)
    case None => forall k | 0 <= k < |rs| :: !Aliases(rs[k], a)
  }

  lemma LeadsMore(rs: seq<Record>, r: Record, a: Name, b: Name)
    requires Leads(rs, a, b)
    ensures Leads(rs + [r], a, b)
  {
    var i :| 0 <= i < |rs| && LeadsAt(rs, a, b, i);
    assert LeadsAt(rs + [r], a, b, i);
  }

  lemma FirstSnoc(cs: seq<Alias>, c: Alias, a: Name)
    ensures First(cs + [c], a) ==
            if First(cs, a).Some? then First(cs, a) else if c.owner == a then Some(c.target) else None
  {
    assert (cs + [c])[..|cs|] == cs;
  }

  lemma FirstStep(rs: seq<Record>, r: Record, a: Name)
    requires FirstIs(rs, a, First(AliasesIn(rs), a))
    ensures FirstIs(rs + [r], a, First(AliasesIn(rs + [r]), a))
  {
    var f := First(AliasesIn(rs), a);
    InSnoc(rs, r);
    if r.AliasRecord? {
      FirstSnoc(AliasesIn(rs), r.alias, a);
    } else {
      assert AliasesIn(rs) + [] == AliasesIn(rs);
    }
    if f.Some? {
      LeadsMore(rs, r, a, f.value);
    } else if Aliases(r, a) {
      assert LeadsAt(rs + [r], a, r.alias.target, |rs|);
    }
  }

  lemma {:induction false} FirstInRecords(rs: seq<Record>, a: Name)
    ensures FirstIs(rs, a, First(AliasesIn(rs), a))
    decreases |rs|
  {
    if rs == [] {
    } else {
      var front, r := rs[..|rs| - 1], rs[|rs| - 1];
      FirstInRecords(front, a);
      FirstStep(front, r, a);
      assert rs == front + [r];
    }
  }

  /** A name leads to one name only. */
  lemma LeadsOnce(rs: seq<Record>, a: Name, b: Name)
    requires Leads(rs, a, b)
    ensures First(AliasesIn(rs), a) == Some(b)
  {
    FirstInRecords(rs, a);
    var i :| 0 <= i < |rs| && LeadsAt(rs, a, b, i);
    assert Aliases(rs[i], a);
    var c := First(AliasesIn(rs), a).value;
    var j :| 0 <= j < |rs| && LeadsAt(rs, a, c, j);
    assert Aliases(rs[j], a);
  }

  lemma PathRest(rs: seq<Record>, p: seq<Name>)
    requires Path(rs, p) && |p| > 1
    ensures Path(rs, p[1..]) && !HasAddress(rs, p[0]) && Leads(rs, p[0], p[1])
  {
    forall i | 0 <= i < |p[1..]| - 1 ensures !HasAddress(rs, p[1..][i]) && Leads(rs, p[1..][i], p[1..][i + 1]) {
      assert p[1..][i] == p[i + 1] && p[1..][i + 1] == p[i + 2];
    }
  }

  lemma {:induction false} ChosenAlong(rs: seq<Record>, p: seq<Name>, hops: nat)
    requires Path(rs, p) && |p| <= hops
    ensures Chosen(AddressesIn(rs), AliasesIn(rs), p[0], hops) == Some(p[|p| - 1])
    decreases hops
  {
    OwnsIff(rs, p[0]);
    if |p| == 1 {
    } else {
      PathRest(rs, p);
      LeadsOnce(rs, p[0], p[1]);
      ChosenAlong(rs, p[1..], hops - 1);
    }
  }

  lemma PathCons(rs: seq<Record>, a: Name, p: seq<Name>)
    requires Path(rs, p) && !HasAddress(rs, a) && Leads(rs, a, p[0])
    ensures Path(rs, [a] + p)
  {
    var all := [a] + p;
    forall i | 0 <= i < |all| - 1 ensures !HasAddress(rs, all[i]) && Leads(rs, all[i], all[i + 1]) {
      if i > 0 { assert all[i] == p[i - 1] && all[i + 1] == p[i]; }
    }
  }

  lemma {:induction false} ChosenHasPath(rs: seq<Record>, a: Name, hops: nat) returns (p: seq<Name>)
    requires Chosen(AddressesIn(rs), AliasesIn(rs), a, hops).Some?
    ensures Path(rs, p) && p[0] == a && |p| <= hops
    decreases hops
  {
    OwnsIff(rs, a);
    if HasAddress(rs, a) {
      p := [a];
    } else {
      FirstInRecords(rs, a);
      var t := First(AliasesIn(rs), a).value;
      var rest := ChosenHasPath(rs, t, hops - 1);
      PathCons(rs, a, rest);
      p := [a] + rest;
    }
  }

  // ---- What a reply gives -------------------------------------------------------------------------

  /** Where a path leads to addresses, the answer is exactly those addresses and their smallest time to live. */
  lemma AnswersAlong(rs: seq<Record>, qname: Name, p: seq<Name>)
    requires AnswerPath(rs, qname, p)
    ensures Answers(rs, qname).Ok? && AnswerIs(rs, p[|p| - 1], Answers(rs, qname).answer)
  {
    ChosenAlong(rs, p, DNS_MAX_CNAME_HOPS);
    AnswersReply(rs, qname, p[|p| - 1]);
    ReplyIs(rs, p[|p| - 1]);
  }

  lemma AnswersReply(rs: seq<Record>, qname: Name, name: Name)
    requires Chosen(AddressesIn(rs), AliasesIn(rs), qname, DNS_MAX_CNAME_HOPS) == Some(name)
    ensures Answers(rs, qname) == Ok(Reply(AddressesIn(rs), name))
  {
  }

  /** Where none does, there is no answer. */
  lemma NoAnswer(rs: seq<Record>, qname: Name)
    ensures Answers(rs, qname) == Err(NoARecord) <==> !exists p :: AnswerPath(rs, qname, p)
  {
    if p :| AnswerPath(rs, qname, p) {
      AnswersAlong(rs, qname, p);
    } else if Chosen(AddressesIn(rs), AliasesIn(rs), qname, DNS_MAX_CNAME_HOPS).Some? {
      var p := ChosenHasPath(rs, qname, DNS_MAX_CNAME_HOPS);
      assert AnswerPath(rs, qname, p);
    }
  }

  /**
   * From the packet to the addresses, for any records: what a written reply gives is what its answer records say of
   * the name that the alias chain of its question leads to.
   */
  lemma ReplyGives(data: seq<byte>, id: nat, flags: nat, ns: nat, ar: nat, question: seq<DnsName.Label>,
                   rest: seq<byte>, es: seq<Entry>, tail: seq<byte>, rs: seq<Record>, owners: seq<seq<byte>>,
                   text: DnsName.Label -> bool, p: seq<Name>)
    requires id < 0x1_0000 && GoodFlags(flags) && |es| < 0x1_0000 && DnsName.Proper(question, text) && |rest| == 4
    requires AllWellFormed(es) && AllStand(data, es, rs, owners, text)
    requires data == ReplyPacket(id, flags, ns, ar, question, rest, es, tail)
    requires AnswerPath(rs, DnsName.Join(question), p)
    ensures Parsed(data, id, text).Ok? && AnswerIs(rs, p[|p| - 1], Parsed(data, id, text).answer)
  {
    ReplyRead(data, id, flags, ns, ar, question, rest, es, tail, rs, owners, text);
    AnswersAlong(rs, DnsName.Join(question), p);
  }
}
