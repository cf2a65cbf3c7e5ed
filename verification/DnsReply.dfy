/** Reading a reply packet: header, question, answer records, and the answer they give (section 4.1 of RFC 1035). */
module DnsReply {
  import opened Bytes
  import opened DnsAnswers
  import opened DnsName
  import opened DnsTypes

  const DNS_TYPE_A: nat := 1
  const DNS_TYPE_CNAME: nat := 5
  const DNS_CLASS_IN: nat := 1

  function Be16(x: nat): (bs: seq<byte>)
    ensures |bs| == 2
  {
    [x / 256 % 256, x % 256]
  }

  function Be32(x: nat): (bs: seq<byte>)
    ensures |bs| == 4
  {
    Be16(x / 0x1_0000) + Be16(x)
  }

  function Word16(data: seq<byte>, off: nat): (x: nat)
    requires off + 2 <= |data|
  {
    256 * data[off] as int + data[off + 1] as int
  }

  function Word32(data: seq<byte>, off: nat): (x: nat)
    requires off + 4 <= |data|
  {
    0x1_0000 * Word16(data, off) + Word16(data, off + 2)
  }

  lemma ReadBe16(data: seq<byte>, off: nat, x: nat)
    requires HoldsAt(data, off, Be16(x))
    ensures Word16(data, off) == x % 0x1_0000
  {
    var w := data[off..off + 2];
    assert data[off] == w[0] && data[off + 1] == w[1];
    assert x % 0x1_0000 == 256 * (x / 256 % 256) + x % 256;
  }

  lemma ReadBe32(data: seq<byte>, off: nat, x: nat)
    requires HoldsAt(data, off, Be32(x)) && x < 0x1_0000_0000
    ensures Word32(data, off) == x
  {
    HoldsConcat(data, off, Be16(x / 0x1_0000), Be16(x));
    ReadBe16(data, off, x / 0x1_0000);
    ReadBe16(data, off + 2, x);
  }

  // ---- Records -----------------------------------------------------------------------------

  datatype Record = AddressRecord(address: Address) | AliasRecord(alias: Alias) | OtherRecord

  /** What is read somewhere, and where it ends. */
  datatype Read<T> = Read(value: T, next: nat)

  /** The data of a record of a type at `at`; only aliases can be malformed. */
  function DataAt(data: seq<byte>, owner: seq<byte>, rtype: nat, ttl: nat, at: nat, len: nat, text: Label -> bool)
    : Option<Record>
    requires at + len <= |data|
  {
    if rtype == DNS_TYPE_A && len == 4 then Some(AddressRecord(Address(owner, data[at..at + 4], ttl)))
    else if rtype == DNS_TYPE_CNAME then
      match Decoded(data, at, text) case None => None case Some(t) => Some(AliasRecord(Alias(owner, t.name)))
    else Some(OtherRecord)
  }

  /** The ten bytes behind the owner and the data behind them. */
  function FieldsAt(data: seq<byte>, owner: seq<byte>, at: nat, text: Label -> bool): Option<Read<Record>> {
    if at + 10 > |data| then None
    else
      var len := Word16(data, at + 8);
      if at + 10 + len > |data| then None
      else
        match DataAt(data, owner, Word16(data, at), Word32(data, at + 4), at + 10, len, text)
        case None => None
        case Some(r) => Some(Read(r, at + 10 + len))
  }

  function RecordAt(data: seq<byte>, off: nat, text: Label -> bool): (r: Option<Read<Record>>) {
    match Decoded(data, off, text)
    case None => None
    case Some(n) => FieldsAt(data, n.name, n.end, text)
  }

  function Records(data: seq<byte>, off: nat, n: nat, text: Label -> bool): (r: Option<seq<Record>>)
    decreases n
  {
    if n == 0 then Some([])
    else
      match RecordAt(data, off, text)
      case None => None
      case Some(r) => Prepend([r.value], Records(data, r.next, n - 1, text))
  }

  function Prepend(rs: seq<Record>, r: Option<seq<Record>>): Option<seq<Record>> {
    if r.Some? then Some(rs + r.value) else None
  }

  function AddressesIn(rs: seq<Record>): (r: seq<Address>) {
    if rs == [] then []
    else
      var last := rs[|rs| - 1];
      AddressesIn(rs[..|rs| - 1]) + if last.AddressRecord? then [last.address] else []
  }

  function AliasesIn(rs: seq<Record>): (r: seq<Alias>) {
    if rs == [] then []
    else
      var last := rs[|rs| - 1];
      AliasesIn(rs[..|rs| - 1]) + if last.AliasRecord? then [last.alias] else []
  }

  // ---- The packet -----------------------------------------------------------------------------

  /** Where the answers start, behind `n` questions. */
  function Questions(data: seq<byte>, off: nat, n: nat, text: Label -> bool): (r: Option<nat>)
    decreases n
  {
    if n == 0 then Some(off)
    else
      match Decoded(data, off, text)
      case None => None
      case Some(q) => if q.end + 4 > |data| then None else Questions(data, q.end + 4, n - 1, text)
  }

  /** The first question's name, or the empty name. */
  function QName(data: seq<byte>, n: nat, text: Label -> bool): seq<byte> {
    if n == 0 || Decoded(data, 12, text).None? then [] else Decoded(data, 12, text).value.name
  }

  /** What the header alone decides. */
  function HeaderError(data: seq<byte>, id: nat): (e: Option<DnsError>)
    ensures |data| < 12 ==> e.Some?
  {
    if |data| < 12 || Word16(data, 0) != id then Some(MalformedResponse)
    else
      var flags := Word16(data, 2);
      if flags / 0x8000 % 2 == 0 then Some(MalformedResponse)
      else if flags / 0x200 % 2 == 1 then Some(Truncated)
      else if flags % 16 == 3 then Some(NxDomain)
      else if flags % 16 != 0 then Some(ServerFailure)
      else None
  }

  function Answers(rs: seq<Record>, qname: seq<byte>): Outcome {
    match Selected(AddressesIn(rs), AliasesIn(rs), qname) case None => Err(NoARecord) case Some(a) => Ok(a)
  }

  function Response(data: seq<byte>, id: nat, text: Label -> bool): (o: Outcome) {
    if HeaderError(data, id).Some? then Err(HeaderError(data, id).value)
    else
      var qd, an := Word16(data, 4), Word16(data, 6);
      match Questions(data, 12, qd, text)
      case None => Err(MalformedResponse)
      case Some(off) =>
        match Records(data, off, an, text)
        case None => Err(MalformedResponse)
        case Some(rs) => Answers(rs, QName(data, qd, text))
  }

  // ---- Where the parser ends ----------------------------------------------------------------------

  /** The names the parser gets to, in a record, in the questions, in the answers, all end. */
  ghost predicate RecordEnds(data: seq<byte>, off: nat, text: Label -> bool) {
    && Halts(data, off, text)
    && match Decoded(data, off, text)
       case None => true
       case Some(n) =>
         n.end + 10 <= |data| && n.end + 10 + Word16(data, n.end + 8) <= |data| ==>
           Word16(data, n.end) == DNS_TYPE_CNAME ==> Halts(data, n.end + 10, text)
  }

  ghost predicate RecordsEnd(data: seq<byte>, off: nat, n: nat, text: Label -> bool)
    decreases n
  {
    n == 0 ||
    (RecordEnds(data, off, text) &&
     match RecordAt(data, off, text) case None => true case Some(r) => RecordsEnd(data, r.next, n - 1, text))
  }

  ghost predicate QuestionsEnd(data: seq<byte>, off: nat, n: nat, text: Label -> bool)
    decreases n
  {
    n == 0 ||
    (Halts(data, off, text) &&
     match Decoded(data, off, text)
     case None => true
     case Some(q) => q.end + 4 <= |data| ==> QuestionsEnd(data, q.end + 4, n - 1, text))
  }

  ghost predicate Ends(data: seq<byte>, id: nat, text: Label -> bool) {
    HeaderError(data, id).None? ==>
      && QuestionsEnd(data, 12, Word16(data, 4), text)
      && match Questions(data, 12, Word16(data, 4), text)
         case None => true
         case Some(off) => RecordsEnd(data, off, Word16(data, 6), text)
  }

  /** What reading a reply comes to. */
  ghost function Parsed(data: seq<byte>, id: nat, text: Label -> bool): (o: Outcome) {
    if Ends(data, id, text) then Response(data, id, text) else Stuck
  }

  // ---- Queries ------------------------------------------------------------------------------------

  function QueryHeader(id: nat): (bs: seq<byte>)
    ensures |bs| == 12
  {
    Be16(id) + Be16(0x0100) + Be16(1) + Be16(0) + Be16(0) + Be16(0)
  }

  /** A query: header and one question. */
  function QueryBytes(name: seq<byte>, id: nat): (bs: seq<byte>) {
    QueryHeader(id) + Encoded(name) + Be16(DNS_TYPE_A) + Be16(DNS_CLASS_IN)
  }

  lemma QueryHeaderRead(data: seq<byte>, id: nat)
    requires HoldsAt(data, 0, QueryHeader(id)) && id < 0x1_0000
    ensures Word16(data, 0) == id && Word16(data, 2) == 0x0100 && Word16(data, 4) == 1
  {
    var a, b, c, d := Be16(id), Be16(0x0100), Be16(1), Be16(0);
    HoldsConcat(data, 0, a + b + c + d + d, d);
    HoldsConcat(data, 0, a + b + c + d, d);
    HoldsConcat(data, 0, a + b + c, d);
    HoldsConcat(data, 0, a + b, c);
    HoldsConcat(data, 0, a, b);
    ReadBe16(data, 0, id);
    ReadBe16(data, 2, 0x0100);
    ReadBe16(data, 4, 1);
  }

  /**
   * Read as a packet, the query for a host name has its number, asks one question, for addresses of that name, and
   * holds nothing else; it is no reply, not even to itself.
   */
  lemma QueryRead(name: seq<byte>, id: nat, text: Label -> bool)
    requires HostName(name) && TakesAscii(text) && id < 0x1_0000
    ensures var q := QueryBytes(name, id);
            && |q| == 12 + |Encoded(name)| + 4 && Word16(q, 0) == id && Word16(q, 4) == 1
            && Questions(q, 12, 1, text) == Some(|q|) && QName(q, 1, text) == Trimmed(name)
            && Word16(q, |q| - 4) == DNS_TYPE_A && Word16(q, |q| - 2) == DNS_CLASS_IN
            && Parsed(q, id, text) == Err(MalformedResponse)
  {
    var q, h, e, t, c := QueryBytes(name, id), QueryHeader(id), Encoded(name), Be16(DNS_TYPE_A), Be16(DNS_CLASS_IN);
    QueryHeld(h, e, t, c, q);
    QueryHeaderRead(q, id);
    HostNameRoundTrip(name, q, 12, text);
    ReadBe16(q, 12 + |e|, DNS_TYPE_A);
    ReadBe16(q, 14 + |e|, DNS_CLASS_IN);
    OneQuestion(q, Trimmed(name), 12 + |e|, |q|, text);
  }

  lemma QueryHeld(h: seq<byte>, e: seq<byte>, t: seq<byte>, c: seq<byte>, q: seq<byte>)
    requires q == h + e + t + c
    ensures HoldsAt(q, 0, h) && HoldsAt(q, |h|, e) && HoldsAt(q, |h| + |e|, t) && HoldsAt(q, |h| + |e| + |t|, c)
  {
  }

  lemma GoodHeader(data: seq<byte>, id: nat)
    requires HeaderError(data, id).None?
    ensures |data| >= 12 && Word16(data, 0) == id && Word16(data, 2) >= 0x8000
  {
  }

  /** A reply that gives an answer carries the number it is read for. */
  lemma AnswerHasId(data: seq<byte>, id: nat, text: Label -> bool)
    requires Parsed(data, id, text).Ok?
    ensures |data| >= 12 && Word16(data, 0) == id && Word16(data, 2) >= 0x8000
  {
    if HeaderError(data, id).None? { GoodHeader(data, id); }
  }

  // ---- Replies as a server writes them ------------------------------------------------------------

  /** A name spelled out, or continued by a pointer. */
  datatype NameForm = Plain(ls: seq<Label>) | Compressed(ls: seq<Label>, to: nat)

  function NameBytes(n: NameForm): seq<byte>
    requires n.Compressed? ==> n.to < 0x4000
  {
    match n case Plain(ls) => Wire(ls, [0]) case Compressed(ls, to) => Wire(ls, PointerBytes(to))
  }

  /** In the packet, `n` stands for `name`: its labels, and those of the name it points at. */
  ghost predicate Means(data: seq<byte>, n: NameForm, name: seq<byte>, text: Label -> bool) {
    && Proper(n.ls, text)
    && match n
       case Plain(ls) => name == Join(ls)
       case Compressed(ls, to) =>
         && to < 0x4000 && Collect(data, to, text, |data| + 1).Labels?
         && name == Join(ls + Collect(data, to, text, |data| + 1).ls)
  }

  lemma NameRead(data: seq<byte>, off: nat, n: NameForm, name: seq<byte>, end: nat, text: Label -> bool)
    requires Means(data, n, name, text) && HoldsAt(data, off, NameBytes(n)) && end == off + |NameBytes(n)|
    ensures Halts(data, off, text) && Decoded(data, off, text) == Some(Name(name, end))
  {
    match n
    case Plain(ls) => DecodesLabels(data, off, text, ls, NameBytes(n), name);
    case Compressed(ls, to) =>
      DecodesPointer(data, off, text, ls, to);
      EndlessLoop(data, to, text);
  }

  /** A record's data: an address, an alias, or anything of another type. */
  datatype Body = AddressBody(addr: seq<byte>) | AliasBody(target: NameForm) | OtherBody(rtype: nat, bytes: seq<byte>)

  datatype Entry = Entry(owner: NameForm, class_: nat, ttl: nat, body: Body)

  function TypeOf(b: Body): nat {
    match b case AddressBody(_) => DNS_TYPE_A case AliasBody(_) => DNS_TYPE_CNAME case OtherBody(t, _) => t
  }

  predicate WellFormed(e: Entry) {
    && (e.owner.Compressed? ==> e.owner.to < 0x4000) && e.ttl < 0x1_0000_0000
    && match e.body
       case AddressBody(addr) => |addr| == 4
       case AliasBody(target) => (target.Compressed? ==> target.to < 0x4000) && |NameBytes(target)| < 0x1_0000
       case OtherBody(t, bytes) =>
         t < 0x1_0000 && t != DNS_TYPE_CNAME && !(t == DNS_TYPE_A && |bytes| == 4) && |bytes| < 0x1_0000
  }

  function BodyBytes(e: Entry): (bs: seq<byte>)
    requires WellFormed(e)
    ensures |bs| < 0x1_0000
  {
    match e.body
    case AddressBody(addr) => addr
    case AliasBody(target) => NameBytes(target)
    case OtherBody(_, bytes) => bytes
  }

  /** Type, class, time to live and length, then the data. */
  function FieldBytes(rtype: nat, class_: nat, ttl: nat, body: seq<byte>): (bs: seq<byte>)
    ensures |bs| == 10 + |body|
  {
    Be16(rtype) + Be16(class_) + Be32(ttl) + Be16(|body|) + body
  }

  function EntryBytes(e: Entry): seq<byte>
    requires WellFormed(e)
  {
    NameBytes(e.owner) + FieldBytes(TypeOf(e.body), e.class_, e.ttl, BodyBytes(e))
  }

  /** In the packet, the entry stands for the record. */
  ghost predicate Stands(data: seq<byte>, e: Entry, r: Record, owner: seq<byte>, text: Label -> bool) {
    && WellFormed(e) && Means(data, e.owner, owner, text)
    && match e.body
       case AddressBody(addr) => r == AddressRecord(Address(owner, addr, e.ttl))
       case AliasBody(target) => r.AliasRecord? && r.alias.owner == owner && Means(data, target, r.alias.target, text)
       case OtherBody(_, _) => r == OtherRecord
  }

  lemma FieldsHeld(data: seq<byte>, at: nat, rtype: nat, class_: nat, ttl: nat, body: seq<byte>)
    requires HoldsAt(data, at, FieldBytes(rtype, class_, ttl, body))
    requires rtype < 0x1_0000 && ttl < 0x1_0000_0000 && |body| < 0x1_0000
    ensures at + 10 + |body| <= |data| && Word16(data, at) == rtype && Word32(data, at + 4) == ttl
    ensures Word16(data, at + 8) == |body| && HoldsAt(data, at + 10, body)
  {
    var a, b, c, d := Be16(rtype), Be16(class_), Be32(ttl), Be16(|body|);
    HoldsConcat(data, at, a + b + c + d, body);
    HoldsConcat(data, at, a + b + c, d);
    HoldsConcat(data, at, a + b, c);
    HoldsConcat(data, at, a, b);
    ReadBe16(data, at, rtype);
    ReadBe32(data, at + 4, ttl);
    ReadBe16(data, at + 8, |body|);
  }

  lemma DataRead(data: seq<byte>, e: Entry, r: Record, owner: seq<byte>, at: nat, bs: seq<byte>, text: Label -> bool)
    requires Stands(data, e, r, owner, text) && bs == BodyBytes(e) && HoldsAt(data, at, bs)
    ensures DataAt(data, owner, TypeOf(e.body), e.ttl, at, |bs|, text) == Some(r)
    ensures TypeOf(e.body) == DNS_TYPE_CNAME ==> Halts(data, at, text)
  {
    match e.body
    case AddressBody(addr) =>
    case AliasBody(target) => NameRead(data, at, target, r.alias.target, at + |bs|, text);
    case OtherBody(_, _) =>
  }

  lemma FieldsRead(data: seq<byte>, e: Entry, r: Record, owner: seq<byte>, at: nat, body: seq<byte>, next: nat,
                   text: Label -> bool)
    requires Stands(data, e, r, owner, text) && body == BodyBytes(e) && next == at + 10 + |body|
    requires HoldsAt(data, at, FieldBytes(TypeOf(e.body), e.class_, e.ttl, body))
    ensures FieldsAt(data, owner, at, text) == Some(Read(r, next))
    ensures Word16(data, at) == DNS_TYPE_CNAME ==> Halts(data, at + 10, text)
  {
    var t := TypeOf(e.body);
    FieldsHeld(data, at, t, e.class_, e.ttl, body);
    DataRead(data, e, r, owner, at + 10, body, text);
  }

  lemma EntrySplit(data: seq<byte>, off: nat, e: Entry, at: nat, body: seq<byte>, next: nat)
    requires WellFormed(e) && HoldsAt(data, off, EntryBytes(e)) && body == BodyBytes(e)
    requires at == off + |NameBytes(e.owner)| && next == off + |EntryBytes(e)|
    ensures HoldsAt(data, off, NameBytes(e.owner)) && next == at + 10 + |body|
    ensures HoldsAt(data, at, FieldBytes(TypeOf(e.body), e.class_, e.ttl, body))
  {
    HoldsConcat(data, off, NameBytes(e.owner), FieldBytes(TypeOf(e.body), e.class_, e.ttl, body));
  }

  lemma RecordOf(data: seq<byte>, off: nat, name: seq<byte>, end: nat, x: Read<Record>, text: Label -> bool)
    requires Decoded(data, off, text) == Some(Name(name, end)) && FieldsAt(data, name, end, text) == Some(x)
    requires Halts(data, off, text) && (Word16(data, end) == DNS_TYPE_CNAME ==> Halts(data, end + 10, text))
    ensures RecordAt(data, off, text) == Some(x) && RecordEnds(data, off, text)
  {
  }

  /** One record is read as it was written, wherever it stands. */
  lemma RecordRead(data: seq<byte>, off: nat, e: Entry, r: Record, owner: seq<byte>, next: nat, text: Label -> bool)
    requires Stands(data, e, r, owner, text) && HoldsAt(data, off, EntryBytes(e)) && next == off + |EntryBytes(e)|
    ensures RecordEnds(data, off, text) && RecordAt(data, off, text) == Some(Read(r, next))
  {
    var at, body := off + |NameBytes(e.owner)|, BodyBytes(e);
    EntrySplit(data, off, e, at, body, next);
    NameRead(data, off, e.owner, owner, at, text);
    FieldsRead(data, e, r, owner, at, body, next, text);
    RecordOf(data, off, owner, at, Read(r, next), text);
  }

  predicate AllWellFormed(es: seq<Entry>) { es == [] || (WellFormed(es[0]) && AllWellFormed(es[1..])) }

  /** An answer section as written. */
  function Section(es: seq<Entry>): (bs: seq<byte>)
    requires AllWellFormed(es)
  {
    if es == [] then [] else EntryBytes(es[0]) + Section(es[1..])
  }

  /** In the packet, the entries stand for the records, one for one; `owners` are the names they are about. */
  ghost predicate AllStand(data: seq<byte>, es: seq<Entry>, rs: seq<Record>, owners: seq<seq<byte>>,
                           text: Label -> bool)
  {
    if es == [] then rs == []
    else
      && rs != [] && owners != [] && Stands(data, es[0], rs[0], owners[0], text)
      && AllStand(data, es[1..], rs[1..], owners[1..], text)
  }

  lemma RecordsStep(data: seq<byte>, off: nat, n: nat, r: Record, next: nat, rest: seq<Record>, text: Label -> bool)
    requires n > 0 && RecordAt(data, off, text) == Some(Read(r, next)) && Records(data, next, n - 1, text) == Some(rest)
    ensures Records(data, off, n, text) == Some([r] + rest)
  {
  }

  lemma SectionSplit(data: seq<byte>, off: nat, es: seq<Entry>, next: nat)
    requires es != [] && AllWellFormed(es) && HoldsAt(data, off, Section(es)) && next == off + |EntryBytes(es[0])|
    ensures HoldsAt(data, off, EntryBytes(es[0])) && HoldsAt(data, next, Section(es[1..]))
  {
    HoldsConcat(data, off, EntryBytes(es[0]), Section(es[1..]));
  }

  /** The first entry of a section is read, and the others stand behind it. */
  lemma HeadRead(data: seq<byte>, off: nat, es: seq<Entry>, rs: seq<Record>, owners: seq<seq<byte>>,
                 text: Label -> bool) returns (next: nat)
    requires es != [] && AllStand(data, es, rs, owners, text) && AllWellFormed(es) && HoldsAt(data, off, Section(es))
    ensures RecordAt(data, off, text) == Some(Read(rs[0], next)) && RecordEnds(data, off, text)
    ensures HoldsAt(data, next, Section(es[1..]))
  {
    next := off + |EntryBytes(es[0])|;
    SectionSplit(data, off, es, next);
    RecordRead(data, off, es[0], rs[0], owners[0], next, text);
  }

  lemma {:induction false} SectionRead(data: seq<byte>, off: nat, es: seq<Entry>, rs: seq<Record>,
                                       owners: seq<seq<byte>>, n: nat, text: Label -> bool)
    requires AllStand(data, es, rs, owners, text) && AllWellFormed(es) && HoldsAt(data, off, Section(es)) && n == |es|
    ensures Records(data, off, n, text) == Some(rs)
    decreases n
  {
    if es == [] {
    } else {
      var next := HeadRead(data, off, es, rs, owners, text);
      SectionRead(data, next, es[1..], rs[1..], owners[1..], n - 1, text);
      RecordsStep(data, off, n, rs[0], next, rs[1..], text);
      assert [rs[0]] + rs[1..] == rs;
    }
  }

  /** From one record, which ends, to the next. */
  ghost predicate Hop(data: seq<byte>, p: nat, q: nat, text: Label -> bool) {
    RecordEnds(data, p, text) && RecordAt(data, p, text).Some? && RecordAt(data, p, text).value.next == q
  }

  /** The places of the records of a section, and of its end. */
  lemma {:induction false} SectionHops(data: seq<byte>, off: nat, es: seq<Entry>, rs: seq<Record>,
                                       owners: seq<seq<byte>>, text: Label -> bool) returns (ps: seq<nat>)
    requires AllStand(data, es, rs, owners, text) && AllWellFormed(es) && HoldsAt(data, off, Section(es))
    ensures |ps| == |es| + 1 && ps[0] == off && forall i | 0 <= i < |es| :: Hop(data, ps[i], ps[i + 1], text)
    decreases |es|
  {
    if es == [] {
      ps := [off];
    } else {
      var next := HeadRead(data, off, es, rs, owners, text);
      assert Hop(data, off, next, text);
      var qs := SectionHops(data, next, es[1..], rs[1..], owners[1..], text);
      ps := [off] + qs;
      forall i | 0 <= i < |es| ensures Hop(data, ps[i], ps[i + 1], text) {
        if i > 0 { assert Hop(data, qs[i - 1], qs[i], text); }
      }
    }
  }

  lemma {:induction false} HopsEnd(data: seq<byte>, ps: seq<nat>, n: nat, text: Label -> bool)
    requires |ps| == n + 1 && forall i | 0 <= i < n :: Hop(data, ps[i], ps[i + 1], text)
    ensures RecordsEnd(data, ps[0], n, text)
    decreases n
  {
    if n == 0 {
    } else {
      assert Hop(data, ps[0], ps[1], text);
      HopsEnd(data, ps[1..], n - 1, text);
    }
  }

  /** The header of a good reply to query `id`, with one question and `n` answers; the other flags are free. */
  function ReplyHeader(id: nat, flags: nat, n: nat, ns: nat, ar: nat): (bs: seq<byte>)
    ensures |bs| == 12
  {
    Be16(id) + Be16(flags) + Be16(1) + Be16(n) + Be16(ns) + Be16(ar)
  }

  predicate GoodFlags(flags: nat) { 0x8000 <= flags < 0x1_0000 && flags / 0x200 % 2 == 0 && flags % 16 == 0 }

  /** A reply: header, the question, the answers, and anything behind them. */
  function ReplyPacket(id: nat, flags: nat, ns: nat, ar: nat, question: seq<Label>, rest: seq<byte>, es: seq<Entry>,
                       tail: seq<byte>): seq<byte>
    requires AllWellFormed(es)
  {
    ReplyHeader(id, flags, |es|, ns, ar) + Wire(question, [0]) + rest + Section(es) + tail
  }

  lemma HeaderRead(data: seq<byte>, id: nat, flags: nat, n: nat, ns: nat, ar: nat)
    requires HoldsAt(data, 0, ReplyHeader(id, flags, n, ns, ar)) && id < 0x1_0000 && GoodFlags(flags) && n < 0x1_0000
    ensures HeaderError(data, id) == None && Word16(data, 4) == 1 && Word16(data, 6) == n
  {
    var a, b, c, d, e, f := Be16(id), Be16(flags), Be16(1), Be16(n), Be16(ns), Be16(ar);
    HoldsConcat(data, 0, a + b + c + d + e, f);
    HoldsConcat(data, 0, a + b + c + d, e);
    HoldsConcat(data, 0, a + b + c, d);
    HoldsConcat(data, 0, a + b, c);
    HoldsConcat(data, 0, a, b);
    ReadBe16(data, 0, id);
    ReadBe16(data, 2, flags);
    ReadBe16(data, 4, 1);
    ReadBe16(data, 6, n);
  }

  function If(b: bool, x: nat): nat { if b then x else 0 }

  /** The flags of a packet field by field, from the top bit down (section 4.1.1 of RFC 1035). */
  function FlagWord(response: bool, opcode: nat, authoritative: bool, truncated: bool, desired: bool, available: bool,
                    reserved: nat, rcode: nat): nat
  {
    If(response, 0x8000) + 0x800 * opcode + If(authoritative, 0x400) + If(truncated, 0x200) + If(desired, 0x100) +
    If(available, 0x80) + 0x10 * reserved + rcode
  }

  lemma FlagFields(response: bool, opcode: nat, authoritative: bool, truncated: bool, desired: bool, available: bool,
                   reserved: nat, rcode: nat, flags: nat)
    requires opcode < 16 && reserved < 8 && rcode < 16
    requires flags == FlagWord(response, opcode, authoritative, truncated, desired, available, reserved, rcode)
    ensures flags < 0x1_0000 && (flags / 0x8000 % 2 == 1 <==> response) && (flags / 0x200 % 2 == 1 <==> truncated)
    ensures flags % 16 == rcode && (GoodFlags(flags) <==> response && !truncated && rcode == 0)
  {
    var low := If(desired, 0x100) + If(available, 0x80) + 0x10 * reserved + rcode;
    var high := 2 * opcode + If(authoritative, 1);
    assert low < 0x200 && flags == If(response, 0x8000) + 0x400 * high + If(truncated, 0x200) + low;
    assert flags / 0x200 == If(response, 64) + 2 * high + If(truncated, 1);
    assert flags == 16 * (flags / 16) + rcode;
  }

  lemma ErrorHeader(data: seq<byte>, id: nat, sent: nat, flags: nat, n: nat, ns: nat, ar: nat)
    requires HoldsAt(data, 0, ReplyHeader(sent, flags, n, ns, ar)) && sent < 0x1_0000 && flags < 0x1_0000
    ensures |data| >= 12 && Word16(data, 0) == sent && Word16(data, 2) == flags
  {
    var a, b, c, d, e, f := Be16(sent), Be16(flags), Be16(1), Be16(n), Be16(ns), Be16(ar);
    HoldsConcat(data, 0, a + b + c + d + e, f);
    HoldsConcat(data, 0, a + b + c + d, e);
    HoldsConcat(data, 0, a + b + c, d);
    HoldsConcat(data, 0, a + b, c);
    HoldsConcat(data, 0, a, b);
    ReadBe16(data, 0, sent);
    ReadBe16(data, 2, flags);
  }

  /** What a packet that is not a good reply gives, by the fields of its header. */
  function Refusal(expected: bool, response: bool, truncated: bool, rcode: nat): (e: Option<DnsError>) {
    if !expected || !response then Some(MalformedResponse)
    else if truncated then Some(Truncated)
    else if rcode == 0 then None
    else if rcode == 3 then Some(NxDomain)
    else Some(ServerFailure)
  }

  /**
   * A packet with another number or that is no response is malformed; of the responses a truncated one is refused as
   * such, response code 3 says that the name does not exist, and every other code but 0 is a server failure.
   */
  lemma RefusalsRead(data: seq<byte>, id: nat, sent: nat, response: bool, opcode: nat, authoritative: bool,
                     truncated: bool, desired: bool, available: bool, reserved: nat, rcode: nat, n: nat, ns: nat,
                     ar: nat, text: Label -> bool)
    requires sent < 0x1_0000 && opcode < 16 && reserved < 8 && rcode < 16
    requires var flags := FlagWord(response, opcode, authoritative, truncated, desired, available, reserved, rcode);
             HoldsAt(data, 0, ReplyHeader(sent, flags, n, ns, ar))
    ensures HeaderError(data, id) == Refusal(sent == id, response, truncated, rcode)
    ensures HeaderError(data, id).Some? ==> Parsed(data, id, text) == Err(HeaderError(data, id).value)
  {
    var flags := FlagWord(response, opcode, authoritative, truncated, desired, available, reserved, rcode);
    FlagFields(response, opcode, authoritative, truncated, desired, available, reserved, rcode, flags);
    ErrorHeader(data, id, sent, flags, n, ns, ar);
  }

  lemma ReplyHeld(h: seq<byte>, q: seq<byte>, rest: seq<byte>, s: seq<byte>, tail: seq<byte>, data: seq<byte>)
    requires data == h + q + rest + s + tail
    ensures HoldsAt(data, 0, h) && HoldsAt(data, |h|, q) && HoldsAt(data, |h| + |q| + |rest|, s)
  {
  }

  lemma OneQuestion(data: seq<byte>, name: seq<byte>, end: nat, off: nat, text: Label -> bool)
    requires Halts(data, 12, text) && Decoded(data, 12, text) == Some(Name(name, end)) && off == end + 4 <= |data|
    ensures Questions(data, 12, 1, text) == Some(off) && QName(data, 1, text) == name && QuestionsEnd(data, 12, 1, text)
  {
  }

  lemma ResponseOf(data: seq<byte>, id: nat, off: nat, rs: seq<Record>, name: seq<byte>, text: Label -> bool)
    requires HeaderError(data, id) == None && Word16(data, 4) == 1
    requires Questions(data, 12, 1, text) == Some(off) && QName(data, 1, text) == name
    requires Records(data, off, Word16(data, 6), text) == Some(rs)
    requires QuestionsEnd(data, 12, 1, text) && RecordsEnd(data, off, Word16(data, 6), text)
    ensures Ends(data, id, text) && Response(data, id, text) == Answers(rs, name)
  {
  }

  /**
   * From the wire to the answer: a reply whose answer section holds any records, with names spelled out or
   * compressed in any way that decodes, is parsed to the end and gives exactly the addresses that the alias chain of
   * its question selects.
   */
  lemma ReplyRead(data: seq<byte>, id: nat, flags: nat, ns: nat, ar: nat, question: seq<Label>, rest: seq<byte>,
                  es: seq<Entry>, tail: seq<byte>, rs: seq<Record>, owners: seq<seq<byte>>, text: Label -> bool)
    requires id < 0x1_0000 && GoodFlags(flags) && |es| < 0x1_0000 && Proper(question, text) && |rest| == 4
    requires AllWellFormed(es) && AllStand(data, es, rs, owners, text)
    requires data == ReplyPacket(id, flags, ns, ar, question, rest, es, tail)
    ensures Ends(data, id, text) && Response(data, id, text) == Answers(rs, Join(question))
  {
    var h, q, s := ReplyHeader(id, flags, |es|, ns, ar), Wire(question, [0]), Section(es);
    var end := 12 + |q|;
    var off := end + 4;
    ReplyHeld(h, q, rest, s, tail, data);
    HeaderRead(data, id, flags, |es|, ns, ar);
    NameRead(data, 12, Plain(question), Join(question), end, text);
    OneQuestion(data, Join(question), end, off, text);
    SectionRead(data, off, es, rs, owners, |es|, text);
    var ps := SectionHops(data, off, es, rs, owners, text);
    HopsEnd(data, ps, |es|, text);
    ResponseOf(data, id, off, rs, Join(question), text);
  }

  // ---- The usual reply ------------------------------------------------------------------------------------

  /** Addresses with their times to live, each owned by the name asked for, written as a pointer to the question. */
  datatype Host = Host(addr: seq<byte>, ttl: nat)

  predicate Hosts(hs: seq<Host>) { forall i | 0 <= i < |hs| :: |hs[i].addr| == 4 && hs[i].ttl < 0x1_0000_0000 }

  function EntriesOf(hs: seq<Host>): (es: seq<Entry>)
    ensures |es| == |hs|
  {
    if hs == [] then [] else [Entry(Compressed([], 12), 1, hs[0].ttl, AddressBody(hs[0].addr))] + EntriesOf(hs[1..])
  }

  function RecordsOf(hs: seq<Host>, name: seq<byte>): (rs: seq<Record>) {
    if hs == [] then [] else [AddressRecord(Address(name, hs[0].addr, hs[0].ttl))] + RecordsOf(hs[1..], name)
  }

  function OwnersOf(hs: seq<Host>, name: seq<byte>): seq<seq<byte>> {
    if hs == [] then [] else [name] + OwnersOf(hs[1..], name)
  }

  function OwnedBy(hs: seq<Host>, name: seq<byte>): (rs: seq<Address>) {
    if hs == [] then [] else OwnedBy(hs[..|hs| - 1], name) + [Address(name, hs[|hs| - 1].addr, hs[|hs| - 1].ttl)]
  }

  function AddrsOf(hs: seq<Host>): seq<seq<byte>> {
    if hs == [] then [] else AddrsOf(hs[..|hs| - 1]) + [hs[|hs| - 1].addr]
  }

  lemma {:induction false} EntriesWell(hs: seq<Host>)
    requires Hosts(hs)
    ensures AllWellFormed(EntriesOf(hs))
    decreases |hs|
  {
    if hs == [] {
    } else {
      EntriesWell(hs[1..]);
      assert EntriesOf(hs)[1..] == EntriesOf(hs[1..]);
    }
  }

  lemma {:induction false} EntriesStand(data: seq<byte>, hs: seq<Host>, ls: seq<Label>, text: Label -> bool)
    requires Hosts(hs) && Collect(data, 12, text, |data| + 1) == Labels(ls)
    ensures AllStand(data, EntriesOf(hs), RecordsOf(hs, Join(ls)), OwnersOf(hs, Join(ls)), text)
    decreases |hs|
  {
    if hs == [] {
    } else {
      EntriesStand(data, hs[1..], ls, text);
      assert [] + ls == ls;
      assert EntriesOf(hs)[1..] == EntriesOf(hs[1..]);
      assert RecordsOf(hs, Join(ls))[1..] == RecordsOf(hs[1..], Join(ls));
      assert OwnersOf(hs, Join(ls))[1..] == OwnersOf(hs[1..], Join(ls));
    }
  }

  lemma {:induction false} RecordsSnoc(hs: seq<Host>, h: Host, name: seq<byte>)
    ensures RecordsOf(hs + [h], name) == RecordsOf(hs, name) + [AddressRecord(Address(name, h.addr, h.ttl))]
    decreases |hs|
  {
    if hs == [] {
      assert hs + [h] == [h] && [h][1..] == [];
    } else {
      RecordsSnoc(hs[1..], h, name);
      assert (hs + [h])[1..] == hs[1..] + [h];
    }
  }

  lemma {:induction false} OwnedRecords(hs: seq<Host>, name: seq<byte>)
    ensures AddressesIn(RecordsOf(hs, name)) == OwnedBy(hs, name) && AliasesIn(RecordsOf(hs, name)) == []
    ensures AddressesOf(OwnedBy(hs, name), name) == AddrsOf(hs)
    decreases |hs|
  {
    if hs == [] {
    } else {
      var n := |hs| - 1;
      OwnedRecords(hs[..n], name);
      RecordsSnoc(hs[..n], hs[n], name);
      assert hs == hs[..n] + [hs[n]];
      InSnoc(RecordsOf(hs[..n], name), AddressRecord(Address(name, hs[n].addr, hs[n].ttl)));
      assert OwnedBy(hs, name)[..|OwnedBy(hs, name)| - 1] == OwnedBy(hs[..n], name);
    }
  }

  lemma OwnedAnswers(hs: seq<Host>, name: seq<byte>)
    requires hs != []
    ensures Answers(RecordsOf(hs, name), name) == Ok(Reply(OwnedBy(hs, name), name))
  {
    OwnedRecords(hs, name);
    var as_ := OwnedBy(hs, name);
    assert as_[|as_| - 1].owner == name && Owns(as_, name);
  }

  /** A reply that lists addresses for the name asked for gives exactly those addresses, in order. */
  lemma UsualReply(id: nat, flags: nat, ns: nat, ar: nat, question: seq<Label>, rest: seq<byte>, hs: seq<Host>,
                   tail: seq<byte>, text: Label -> bool)
    requires id < 0x1_0000 && GoodFlags(flags) && 0 < |hs| < 0x1_0000 && Hosts(hs)
    requires Proper(question, text) && |rest| == 4
    ensures AllWellFormed(EntriesOf(hs))
    ensures var data := ReplyPacket(id, flags, ns, ar, question, rest, EntriesOf(hs), tail);
            && Parsed(data, id, text) == Ok(Reply(OwnedBy(hs, Join(question)), Join(question)))
            && Parsed(data, id, text).answer.addresses == AddrsOf(hs)
  {
    EntriesWell(hs);
    var es, name := EntriesOf(hs), Join(question);
    var data := ReplyPacket(id, flags, ns, ar, question, rest, es, tail);
    ReplyHeld(ReplyHeader(id, flags, |es|, ns, ar), Wire(question, [0]), rest, Section(es), tail, data);
    DecodesLabels(data, 12, text, question, Wire(question, [0]), name);
    EntriesStand(data, hs, question, text);
    ReplyRead(data, id, flags, ns, ar, question, rest, es, tail, RecordsOf(hs, name), OwnersOf(hs, name), text);
    OwnedAnswers(hs, name);
    OwnedRecords(hs, name);
  }

  // ---- The code ---------------------------------------------------------------------------------------

  method BuildQuery(name: seq<byte>, id: nat) returns (pkt: seq<byte>)
    ensures pkt == QueryBytes(name, id)
  {
    var encoded := EncodeName(name);
    pkt := Be16(id) + Be16(0x0100) + Be16(1) + Be16(0) + Be16(0) + Be16(0);
    pkt := pkt + encoded;
    pkt := pkt + Be16(DNS_TYPE_A);
    pkt := pkt + Be16(DNS_CLASS_IN);
  }

  method ReadQuestions(data: seq<byte>, n: nat, text: Label -> bool) returns (qname: seq<byte>, r: Ending<Option<nat>>)
    ensures r == if QuestionsEnd(data, 12, n, text) then Done(Questions(data, 12, n, text)) else Never
    ensures r.Done? && r.value.Some? ==> qname == QName(data, n, text)
  {
    var offset: nat := 12;
    qname := [];
    ghost var goal, ends := Questions(data, offset, n, text), QuestionsEnd(data, offset, n, text);
    for q := 0 to n
      invariant ends == QuestionsEnd(data, offset, n - q, text) && goal == Questions(data, offset, n - q, text)
      invariant if q == 0 then offset == 12 && qname == [] else qname == QName(data, n, text)
    {
      var name := DecodeName(data, offset, text);
      if name.Never? { return qname, Never; }
      if name.value.None? { return qname, Done(None); }
      if q == 0 { qname := name.value.value.name; }
      offset := name.value.value.end + 4;
      if offset > |data| { return qname, Done(None); }
    }
    return qname, Done(Some(offset));
  }

  method ReadRecord(data: seq<byte>, offset: nat, text: Label -> bool) returns (r: Ending<Option<Read<Record>>>)
    ensures r == if RecordEnds(data, offset, text) then Done(RecordAt(data, offset, text)) else Never
  {
    var owner := DecodeName(data, offset, text);
    if owner.Never? { return Never; }
    if owner.value.None? { return Done(None); }
    var name, at := owner.value.value.name, owner.value.value.end;
    if at + 10 > |data| { return Done(None); }
    var rtype, ttl, len := Word16(data, at), Word32(data, at + 4), Word16(data, at + 8);
    at := at + 10;
    if at + len > |data| { return Done(None); }
    var value := OtherRecord;
    if rtype == DNS_TYPE_A && len == 4 {
      value := AddressRecord(Address(name, data[at..at + 4], ttl));
    } else if rtype == DNS_TYPE_CNAME {
      var target := DecodeName(data, at, text);
      if target.Never? { return Never; }
      if target.value.None? { return Done(None); }
      value := AliasRecord(Alias(name, target.value.value.name));
    }
    return Done(Some(Read(value, at + len)));
  }

  lemma PrependSnoc(rs: seq<Record>, r: Record, rest: Option<seq<Record>>)
    ensures Prepend(rs, Prepend([r], rest)) == Prepend(rs + [r], rest)
  {
    if rest.Some? { assert rs + ([r] + rest.value) == (rs + [r]) + rest.value; }
  }

  lemma InSnoc(rs: seq<Record>, r: Record)
    ensures AddressesIn(rs + [r]) == AddressesIn(rs) + if r.AddressRecord? then [r.address] else []
    ensures AliasesIn(rs + [r]) == AliasesIn(rs) + if r.AliasRecord? then [r.alias] else []
  {
    assert (rs + [r])[..|rs|] == rs;
  }

  lemma PrependAll(rs: seq<Record>)
    ensures Prepend(rs, Some([])) == Some(rs)
  {
    assert rs + [] == rs;
  }

  /** The three ways the answer section can come out. */
  datatype Collected = Unending | Garbled | Collected(addresses: seq<Address>, aliases: seq<Alias>)

  ghost function Gathered(data: seq<byte>, start: nat, n: nat, text: Label -> bool): Collected {
    if !RecordsEnd(data, start, n, text) then Unending
    else
      match Records(data, start, n, text)
      case None => Garbled
      case Some(rs) => Collected(AddressesIn(rs), AliasesIn(rs))
  }

  method ReadRecords(data: seq<byte>, start: nat, n: nat, text: Label -> bool) returns (c: Collected)
    ensures c == Gathered(data, start, n, text)
  {
    var addresses: seq<Address>, aliases: seq<Alias>, offset := [], [], start;
    ghost var done: seq<Record> := [];
    ghost var all, ends := Records(data, start, n, text), RecordsEnd(data, start, n, text);
    assert Prepend([], all) == all by { if all.Some? { assert [] + all.value == all.value; } }
    for i := 0 to n
      invariant ends == RecordsEnd(data, offset, n - i, text)
      invariant Prepend(done, Records(data, offset, n - i, text)) == all
      invariant addresses == AddressesIn(done) && aliases == AliasesIn(done)
    {
      var r := ReadRecord(data, offset, text);
      if r.Never? { return Unending; }
      if r.value.None? { return Garbled; }
      var value, next := r.value.value.value, r.value.value.next;
      PrependSnoc(done, value, Records(data, next, n - i - 1, text));
      InSnoc(done, value);
      if value.AddressRecord? {
        addresses := addresses + [value.address];
      } else if value.AliasRecord? {
        aliases := aliases + [value.alias];
      }
      done := done + [value];
      offset := next;
    }
    PrependAll(done);
    c := Collected(addresses, aliases);
  }

  /** The parser; it is stuck exactly where a name it gets to has no end. */
  method ParseResponse(data: seq<byte>, id: nat, text: Label -> bool) returns (o: Outcome)
    ensures o == Parsed(data, id, text)
  {
    var e := HeaderError(data, id);
    if e.Some? { return Err(e.value); }
    var qname, off := ReadQuestions(data, Word16(data, 4), text);
    if off.Never? { return Stuck; }
    if off.value.None? { return Err(MalformedResponse); }
    var c := ReadRecords(data, off.value.value, Word16(data, 6), text);
    if c.Unending? { return Stuck; }
    if c.Garbled? { return Err(MalformedResponse); }
    var a := SelectAnswer(c.addresses, c.aliases, qname);
    return if a.None? then Err(NoARecord) else Ok(a.value);
  }
}
