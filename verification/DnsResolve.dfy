/** Asking the servers: which queries are sent, to whom, what comes back, and when the search ends. */
module DnsResolve {
  import opened Bytes
  import opened DnsTypes
  import DnsAnswers
  import DnsName
  import DnsReply

  type Server = seq<byte>

  /** A reply as received, in a buffer of 512 bytes. */
  type Datagram = d: seq<byte> | |d| <= 512

  /** What the transport makes of a query. */
  datatype Delivery = Replied(reply: Datagram) | Lost(error: DnsError)

  datatype Exchange = Exchange(server: Server, id: nat, query: seq<byte>, delivery: Delivery, outcome: Outcome)

  /** A transport, whatever it does: what it delivers may depend on all the exchanges before. */
  type Transport = (seq<Exchange>, Server, seq<byte>) -> Delivery

  /** What is being resolved, over what. */
  datatype Job = Job(hostname: seq<byte>, transport: Transport, text: DnsName.Label -> bool)

  /** The exchanges so far and the 16-bit query counter. */
  datatype World = World(log: seq<Exchange>, counter: nat)

  datatype Result = Found(answer: DnsAnswers.Answer, server: Server) | Failed(error: DnsError) | Hung

  predicate Unspecified(server: Server) { server == [0, 0, 0, 0] }

  predicate Transient(o: Outcome) { o == Err(Timeout) || o == Err(ServerUnreachable) }

  /** An outcome that ends the search. */
  predicate Final(o: Outcome) { o.Ok? || o == Err(NxDomain) || o == Stuck }

  // ---- The search as a function -------------------------------------------------------------

  /** The next query number: the counter, but never 0. */
  function NextId(counter: nat): (r: (nat, nat))
    ensures counter < 0x1_0000 ==> 0 < r.0 < 0x1_0000 && r.1 < 0x1_0000
  {
    if counter == 0 then (1, 2) else (counter, (counter + 1) % 0x1_0000)
  }

  /** What a query numbered `id` comes to. */
  ghost function Judged(d: Delivery, id: nat, text: DnsName.Label -> bool): Outcome {
    match d case Replied(reply) => DnsReply.Parsed(reply, id, text) case Lost(e) => Err(e)
  }

  /** One query for the host name, with the next number. */
  ghost function Query(job: Job, w: World, server: Server): (w': World)
    ensures |w'.log| == |w.log| + 1 && w.log <= w'.log
  {
    var (id, counter) := NextId(w.counter);
    var query := DnsReply.QueryBytes(job.hostname, id);
    var d := job.transport(w.log, server, query);
    World(w.log + [Exchange(server, id, query, d, Judged(d, id, job.text))], counter)
  }

  function Last(w: World): Outcome
    requires w.log != []
  {
    w.log[|w.log| - 1].outcome
  }

  /** One server: again after a transient failure, `tries` queries at most. */
  ghost function Attempt(job: Job, w: World, server: Server, tries: nat): (w': World)
    requires tries > 0
    ensures |w'.log| > |w.log|
    decreases tries
  {
    var w1 := Query(job, w, server);
    if Transient(Last(w1)) && tries > 1 then Attempt(job, w1, server, tries - 1) else w1
  }

  ghost function Search(job: Job, w: World, servers: seq<Server>, retries: nat, last: DnsError): (r: (World, Result))
    decreases |servers|
  {
    if servers == [] then (w, Failed(last))
    else if Unspecified(servers[0]) then Search(job, w, servers[1..], retries, last)
    else
      var w1 := Attempt(job, w, servers[0], retries + 1);
      match Last(w1)
      case Ok(answer) => (w1, Found(answer, servers[0]))
      case Err(e) => if e == NxDomain then (w1, Failed(e)) else Search(job, w1, servers[1..], retries, e)
      case Stuck => (w1, Hung)
  }

  ghost function Resolve(job: Job, w: World, servers: seq<Server>, retries: nat): (r: (World, Result)) {
    if DnsName.HostName(job.hostname) then Search(job, w, servers, retries, NoServer) else (w, Failed(InvalidHostname))
  }

  // ---- What the exchanges look like ---------------------------------------------------------------

  /** The exchanges with one server: again only after a timeout or while unreachable, and then as long as allowed. */
  predicate Attempts(xs: seq<Exchange>, server: Server, tries: nat) {
    && 0 < |xs| <= tries && (forall i | 0 <= i < |xs| :: xs[i].server == server)
    && (forall i | 0 <= i < |xs| - 1 :: xs[i].outcome == Err(Timeout) || xs[i].outcome == Err(ServerUnreachable))
    && (xs[|xs| - 1].outcome == Err(Timeout) || xs[|xs| - 1].outcome == Err(ServerUnreachable) ==> |xs| == tries)
  }

  lemma {:induction false} AttemptTrace(job: Job, w: World, server: Server, tries: nat) returns (xs: seq<Exchange>)
    requires tries > 0
    ensures Attempt(job, w, server, tries).log == w.log + xs && Attempts(xs, server, tries)
    decreases tries
  {
    var w1 := Query(job, w, server);
    xs := [w1.log[|w.log|]];
    if !Transient(Last(w1)) || tries == 1 {
    } else {
      var ys := AttemptTrace(job, w1, server, tries - 1);
      assert w1.log + ys == w.log + (xs + ys);
      xs := xs + ys;
    }
  }

  /** The servers that may be asked, in list order. */
  function Askable(servers: seq<Server>): (r: seq<Server>)
    ensures forall s | s in r :: s in servers && !Unspecified(s)
  {
    if servers == [] then []
    else if Unspecified(servers[0]) then Askable(servers[1..])
    else [servers[0]] + Askable(servers[1..])
  }

  function Concat(xss: seq<seq<Exchange>>): (xs: seq<Exchange>) {
    if xss == [] then [] else xss[0] + Concat(xss[1..])
  }

  predicate Visit(xs: seq<Exchange>, server: Server, tries: nat, more: bool) {
    Attempts(xs, server, tries) && (more ==> !Final(xs[|xs| - 1].outcome))
  }

  /**
   * The visits of a search: one block of exchanges for each askable server in turn, as far as the search goes;
   * every block but the last ends in a failure that is not the last word, and the search stops short only for one
   * that is.
   */
  ghost predicate Visits(xss: seq<seq<Exchange>>, askable: seq<Server>, tries: nat) {
    && |xss| <= |askable| && (forall i | 0 <= i < |xss| :: Visit(xss[i], askable[i], tries, i + 1 < |xss|))
    && (|xss| < |askable| ==> xss != [] && Final(LastOf(xss[|xss| - 1])))
  }

  function LastOf(xs: seq<Exchange>): Outcome { if xs == [] then Err(NoServer) else xs[|xs| - 1].outcome }

  /** The result is that of the last exchange; without any exchange it is the error there was before. */
  function ResultOf(xss: seq<seq<Exchange>>, askable: seq<Server>, last: DnsError): Result
    requires |xss| <= |askable|
  {
    if xss == [] then Failed(last)
    else
      match LastOf(xss[|xss| - 1])
      case Ok(answer) => Found(answer, askable[|xss| - 1])
      case Err(e) => Failed(e)
      case Stuck => Hung
  }

  lemma VisitsCons(xs: seq<Exchange>, xss: seq<seq<Exchange>>, server: Server, askable: seq<Server>, tries: nat)
    requires Attempts(xs, server, tries) && !Final(LastOf(xs)) && Visits(xss, askable, tries)
    ensures Visits([xs] + xss, [server] + askable, tries)
  {
    var all, servers := [xs] + xss, [server] + askable;
    forall i | 0 <= i < |all| ensures Visit(all[i], servers[i], tries, i + 1 < |all|) {
      if i > 0 { assert Visit(xss[i - 1], askable[i - 1], tries, i < |xss|); }
    }
    if xss != [] { assert all[|all| - 1] == xss[|xss| - 1]; }
  }

  lemma ConcatCons(log: seq<Exchange>, xs: seq<Exchange>, xss: seq<seq<Exchange>>)
    ensures Concat([xs] + xss) == xs + Concat(xss) && (log + xs) + Concat(xss) == log + Concat([xs] + xss)
  {
    assert ([xs] + xss)[1..] == xss;
  }

  lemma ResultCons(xs: seq<Exchange>, xss: seq<seq<Exchange>>, server: Server, askable: seq<Server>, last: DnsError)
    requires |xss| <= |askable| && LastOf(xs).Err?
    ensures ResultOf([xs] + xss, [server] + askable, last) == ResultOf(xss, askable, LastOf(xs).error)
  {
    var all, servers := [xs] + xss, [server] + askable;
    if xss != [] { assert all[|all| - 1] == xss[|xss| - 1] && servers[|all| - 1] == askable[|xss| - 1]; }
  }

  lemma VisitsOne(xs: seq<Exchange>, server: Server, askable: seq<Server>, tries: nat, last: DnsError)
    requires Attempts(xs, server, tries) && Final(LastOf(xs))
    ensures Visits([xs], [server] + askable, tries) && Concat([xs]) == xs
    ensures ResultOf([xs], [server] + askable, last) ==
            match LastOf(xs) case Ok(answer) => Found(answer, server) case Err(_) => Failed(NxDomain) case Stuck => Hung
  {
    assert [xs][1..] == [];
    assert Visit([xs][0], server, tries, false);
  }

  /** The search from `w` on made the exchanges `xss` and gave their result. */
  ghost predicate Traced(job: Job, w: World, servers: seq<Server>, retries: nat, last: DnsError,
                         xss: seq<seq<Exchange>>)
  {
    && Visits(xss, Askable(servers), retries + 1)
    && Search(job, w, servers, retries, last).0.log == w.log + Concat(xss)
    && Search(job, w, servers, retries, last).1 == ResultOf(xss, Askable(servers), last)
  }

  /** The first server asked has the last word. */
  lemma TracedOne(job: Job, w: World, servers: seq<Server>, retries: nat, last: DnsError, xs: seq<Exchange>)
    requires servers != [] && !Unspecified(servers[0]) && Attempts(xs, servers[0], retries + 1) && Final(LastOf(xs))
    requires Attempt(job, w, servers[0], retries + 1).log == w.log + xs
    ensures Traced(job, w, servers, retries, last, [xs])
  {
    VisitsOne(xs, servers[0], Askable(servers[1..]), retries + 1, last);
    assert Last(Attempt(job, w, servers[0], retries + 1)) == LastOf(xs);
  }

  /** The first server asked has not. */
  lemma TracedMore(job: Job, w: World, servers: seq<Server>, retries: nat, last: DnsError, xs: seq<Exchange>, w1: World,
                   yss: seq<seq<Exchange>>)
    requires servers != [] && !Unspecified(servers[0]) && Attempts(xs, servers[0], retries + 1) && !Final(LastOf(xs))
    requires w1 == Attempt(job, w, servers[0], retries + 1) && w1.log == w.log + xs
    requires Traced(job, w1, servers[1..], retries, LastOf(xs).error, yss)
    ensures Traced(job, w, servers, retries, last, [xs] + yss)
  {
    var rest := Askable(servers[1..]);
    assert Last(w1) == LastOf(xs);
    VisitsCons(xs, yss, servers[0], rest, retries + 1);
    ConcatCons(w.log, xs, yss);
    ResultCons(xs, yss, servers[0], rest, last);
  }

  /** In every run, whatever the transport does, the exchanges are such visits, and the result is theirs. */
  lemma {:induction false} SearchTrace(job: Job, w: World, servers: seq<Server>, retries: nat, last: DnsError)
    returns (xss: seq<seq<Exchange>>)
    ensures Traced(job, w, servers, retries, last, xss)
    decreases |servers|
  {
    if servers == [] {
      xss := [];
    } else if Unspecified(servers[0]) {
      xss := SearchTrace(job, w, servers[1..], retries, last);
    } else {
      var w1 := Attempt(job, w, servers[0], retries + 1);
      var xs := AttemptTrace(job, w, servers[0], retries + 1);
      if Final(LastOf(xs)) {
        xss := [xs];
        TracedOne(job, w, servers, retries, last, xs);
      } else {
        var yss := SearchTrace(job, w1, servers[1..], retries, LastOf(xs).error);
        xss := [xs] + yss;
        TracedMore(job, w, servers, retries, last, xs, w1, yss);
      }
    }
  }

  lemma {:induction false} ConcatAt(xss: seq<seq<Exchange>>, i: nat) returns (j: nat, k: nat)
    requires i < |Concat(xss)|
    ensures j < |xss| && k < |xss[j]| && Concat(xss)[i] == xss[j][k]
    ensures i < |Concat(xss)| - 1 ==> j + 1 < |xss| || k + 1 < |xss[j]|
    decreases |xss|
  {
    if i < |xss[0]| {
      j, k := 0, i;
      if |xss| == 1 { assert Concat(xss[1..]) == []; }
    } else {
      j, k := ConcatAt(xss[1..], i - |xss[0]|);
      j := j + 1;
    }
  }

  lemma {:induction false} ConcatLength(xss: seq<seq<Exchange>>, most: nat)
    requires forall i | 0 <= i < |xss| :: |xss[i]| <= most
    ensures |Concat(xss)| <= most * |xss|
    decreases |xss|
  {
    if xss == [] {
    } else {
      ConcatLength(xss[1..], most);
      assert most * |xss| == most * (|xss| - 1) + most;
    }
  }

  lemma Product(a: nat, b: nat, c: nat)
    requires b <= c
    ensures a * b <= a * c
  {
  }

  predicate ExchangeOk(x: Exchange, servers: seq<Server>, isLast: bool) {
    x.server in servers && !Unspecified(x.server) && (Final(x.outcome) ==> isLast)
  }

  lemma VisitAt(xs: seq<Exchange>, server: Server, tries: nat, more: bool, k: nat)
    requires Visit(xs, server, tries, more) && k < |xs|
    ensures xs[k].server == server && (Final(xs[k].outcome) ==> !more && k + 1 == |xs|)
  {
  }

  lemma AskableAt(servers: seq<Server>, j: nat)
    requires j < |Askable(servers)|
    ensures Askable(servers)[j] in servers && !Unspecified(Askable(servers)[j])
  {
    assert Askable(servers)[j] in Askable(servers);
  }

  lemma VisitExchange(xss: seq<seq<Exchange>>, servers: seq<Server>, tries: nat, i: nat)
    requires Visits(xss, Askable(servers), tries) && i < |Concat(xss)|
    ensures ExchangeOk(Concat(xss)[i], servers, i == |Concat(xss)| - 1)
  {
    var j, k := ConcatAt(xss, i);
    AskableAt(servers, j);
    VisitAt(xss[j], Askable(servers)[j], tries, j + 1 < |xss|, k);
  }

  lemma VisitsBounded(xss: seq<seq<Exchange>>, askable: seq<Server>, tries: nat)
    requires Visits(xss, askable, tries)
    ensures |Concat(xss)| <= tries * |askable|
  {
    assert forall j | 0 <= j < |xss| :: |xss[j]| <= tries by {
      forall j | 0 <= j < |xss| ensures |xss[j]| <= tries { assert Visit(xss[j], askable[j], tries, j + 1 < |xss|); }
    }
    ConcatLength(xss, tries);
    Product(tries, |xss|, |askable|);
  }

  /**
   * Exchange by exchange: only listed servers other than 0.0.0.0 are asked, a success, the answer that the name does
   * not exist and a reply that cannot be read to its end come last if at all, and there are at most retries + 1
   * exchanges for each askable entry.
   */
  lemma ExchangesBounded(job: Job, w: World, servers: seq<Server>, retries: nat)
    returns (xs: seq<Exchange>)
    ensures Resolve(job, w, servers, retries).0.log == w.log + xs
    ensures |xs| <= (retries + 1) * |Askable(servers)|
    ensures forall i | 0 <= i < |xs| :: ExchangeOk(xs[i], servers, i == |xs| - 1)
  {
    if DnsName.HostName(job.hostname) {
      var xss := SearchTrace(job, w, servers, retries, NoServer);
      xs := Concat(xss);
      VisitsBounded(xss, Askable(servers), retries + 1);
      forall i | 0 <= i < |xs| ensures ExchangeOk(xs[i], servers, i == |xs| - 1) {
        VisitExchange(xss, servers, retries + 1, i);
      }
    } else {
      xs := [];
      assert 0 <= (retries + 1) * |Askable(servers)|;
    }
  }

  /** An exchange of the search: numbered 1 to 65535, the query for the name, and the outcome of what came back. */
  ghost predicate Genuine(x: Exchange, job: Job) {
    && 0 < x.id < 0x1_0000 && x.query == DnsReply.QueryBytes(job.hostname, x.id)
    && x.outcome == Judged(x.delivery, x.id, job.text)
  }

  /** From `w` to `w'` by genuine exchanges. */
  ghost predicate Went(w: World, w': World, job: Job) {
    && w'.counter < 0x1_0000 && w.log <= w'.log
    && forall i | |w.log| <= i < |w'.log| :: Genuine(w'.log[i], job)
  }

  lemma {:induction false} AttemptGenuine(job: Job, w: World, server: Server, tries: nat)
    requires tries > 0 && w.counter < 0x1_0000
    ensures Went(w, Attempt(job, w, server, tries), job)
    decreases tries
  {
    var w1 := Query(job, w, server);
    assert Went(w, w1, job);
    if !Transient(Last(w1)) || tries == 1 {
    } else {
      AttemptGenuine(job, w1, server, tries - 1);
    }
  }

  /** Every exchange of every search is genuine; no query is numbered 0, though the counter wraps. */
  lemma {:induction false} SearchGenuine(job: Job, w: World, servers: seq<Server>, retries: nat, last: DnsError)
    requires w.counter < 0x1_0000
    ensures Went(w, Search(job, w, servers, retries, last).0, job)
    decreases |servers|
  {
    if servers == [] {
    } else if Unspecified(servers[0]) {
      SearchGenuine(job, w, servers[1..], retries, last);
    } else {
      AttemptGenuine(job, w, servers[0], retries + 1);
      var w1 := Attempt(job, w, servers[0], retries + 1);
      if !Final(Last(w1)) { SearchGenuine(job, w1, servers[1..], retries, Last(w1).error); }
    }
  }

  lemma {:induction false} ConcatLast(xss: seq<seq<Exchange>>)
    requires xss != [] && xss[|xss| - 1] != []
    ensures Concat(xss) != [] && LastOf(Concat(xss)) == LastOf(xss[|xss| - 1])
    ensures Concat(xss)[|Concat(xss)| - 1] == xss[|xss| - 1][|xss[|xss| - 1]| - 1]
    decreases |xss|
  {
    if |xss| == 1 {
      assert Concat(xss[1..]) == [];
    } else {
      ConcatLast(xss[1..]);
    }
  }

  /** The reply that gives `answer` to query `x`, which was sent to `server` and is about the host name. */
  ghost predicate Answers(x: Exchange, job: Job, server: Server, answer: DnsAnswers.Answer) {
    && x.server == server && !Unspecified(server) && x.query == DnsReply.QueryBytes(job.hostname, x.id)
    && x.delivery.Replied?
    && DnsReply.Ends(x.delivery.reply, x.id, job.text)
    && DnsReply.Response(x.delivery.reply, x.id, job.text) == Ok(answer)
    && |x.delivery.reply| >= 12 && DnsReply.Word16(x.delivery.reply, 0) == x.id == DnsReply.Word16(x.query, 0)
  }

  /** `answer` was found from `server` exactly when the last of the new exchanges says so. */
  ghost predicate FoundAgrees(log: seq<Exchange>, log': seq<Exchange>, r: Result, job: Job, answer: DnsAnswers.Answer,
                              server: Server)
  {
    r == Found(answer, server) <==> |log'| > |log| && Answers(log'[|log'| - 1], job, server, answer)
  }

  /**
   * What is found is what the last reply says, and that reply carries the number of the query it answers, which went
   * to the server named in the result. And a success of the last exchange is what is found.
   */
  lemma FoundIff(job: Job, w: World, servers: seq<Server>, retries: nat, answer: DnsAnswers.Answer, server: Server)
    requires w.counter < 0x1_0000
    ensures var r := Resolve(job, w, servers, retries); FoundAgrees(w.log, r.0.log, r.1, job, answer, server)
  {
    if DnsName.HostName(job.hostname) {
      SearchFound(job, w, servers, retries, answer, server);
    }
  }

  lemma SearchFound(job: Job, w: World, servers: seq<Server>, retries: nat, answer: DnsAnswers.Answer, server: Server)
    requires w.counter < 0x1_0000
    ensures var r := Search(job, w, servers, retries, NoServer); FoundAgrees(w.log, r.0.log, r.1, job, answer, server)
  {
    var xss := SearchTrace(job, w, servers, retries, NoServer);
    SearchGenuine(job, w, servers, retries, NoServer);
    var r := Search(job, w, servers, retries, NoServer);
    FoundByLast(job, w.log, r.0.log, xss, servers, retries + 1, r.1, answer, server);
  }

  lemma FoundByLast(job: Job, log: seq<Exchange>, log': seq<Exchange>, xss: seq<seq<Exchange>>, servers: seq<Server>,
                    tries: nat, r: Result, answer: DnsAnswers.Answer, server: Server)
    requires Visits(xss, Askable(servers), tries) && log' == log + Concat(xss)
    requires r == ResultOf(xss, Askable(servers), NoServer)
    requires forall i | |log| <= i < |log'| :: Genuine(log'[i], job)
    ensures FoundAgrees(log, log', r, job, answer, server)
  {
    if xss != [] {
      LastVisit(xss, servers, tries);
      var x := log'[|log'| - 1];
      assert x == Concat(xss)[|Concat(xss)| - 1];
      LastAnswers(x, job, answer, server);
    }
  }

  /** The last exchange of a search: its server and its outcome give the result. */
  lemma LastVisit(xss: seq<seq<Exchange>>, servers: seq<Server>, tries: nat)
    requires Visits(xss, Askable(servers), tries) && xss != []
    ensures Concat(xss) != []
    ensures var x := Concat(xss)[|Concat(xss)| - 1];
            && x.server == Askable(servers)[|xss| - 1] && !Unspecified(x.server)
            && x.outcome == LastOf(xss[|xss| - 1])
  {
    var n := |xss| - 1;
    assert Visit(xss[n], Askable(servers)[n], tries, false);
    ConcatLast(xss);
    AskableAt(servers, n);
  }

  lemma LastAnswers(x: Exchange, job: Job, answer: DnsAnswers.Answer, server: Server)
    requires Genuine(x, job) && !Unspecified(x.server)
    ensures x.outcome == Ok(answer) && x.server == server <==> Answers(x, job, server, answer)
  {
    QueryNumber(job.hostname, x.id);
    if x.outcome.Ok? { DnsReply.AnswerHasId(x.delivery.reply, x.id, job.text); }
  }

  lemma QueryNumber(hostname: seq<byte>, id: nat)
    requires id < 0x1_0000
    ensures var q := DnsReply.QueryBytes(hostname, id); |q| >= 12 && DnsReply.Word16(q, 0) == id
  {
    var q := DnsReply.QueryBytes(hostname, id);
    assert q[..12] == DnsReply.QueryHeader(id);
    DnsReply.QueryHeaderRead(q, id);
  }

  /** A server that replies to query `id` by listing addresses for the host name, of at most 512 bytes in all. */
  ghost predicate RepliesWith(job: Job, log: seq<Exchange>, server: Server, id: nat, hs: seq<DnsReply.Host>) {
    && 0 < |hs| < 0x1_0000 && DnsReply.Hosts(hs) && DnsReply.AllWellFormed(DnsReply.EntriesOf(hs))
    && var d := job.transport(log, server, DnsReply.QueryBytes(job.hostname, id));
    && d.Replied?
    && exists flags: nat, ns: nat, ar: nat, rest: seq<byte>, tail: seq<byte> ::
         && DnsReply.GoodFlags(flags) && |rest| == 4
         && d.reply == DnsReply.ReplyPacket(id, flags, ns, ar, DnsName.Split(DnsName.Trimmed(job.hostname)), rest,
                                            DnsReply.EntriesOf(hs), tail)
  }

  lemma ReplyJudged(job: Job, log: seq<Exchange>, server: Server, id: nat, hs: seq<DnsReply.Host>)
    requires DnsName.HostName(job.hostname) && DnsName.TakesAscii(job.text) && id < 0x1_0000
    requires RepliesWith(job, log, server, id, hs)
    ensures var o := Judged(job.transport(log, server, DnsReply.QueryBytes(job.hostname, id)), id, job.text);
            o.Ok? && o.answer.addresses == DnsReply.AddrsOf(hs)
  {
    var question := DnsName.Split(DnsName.Trimmed(job.hostname));
    var d := job.transport(log, server, DnsReply.QueryBytes(job.hostname, id));
    var flags: nat, ns: nat, ar: nat, rest: seq<byte>, tail: seq<byte> :|
      DnsReply.GoodFlags(flags) && |rest| == 4 &&
      d.reply == DnsReply.ReplyPacket(id, flags, ns, ar, question, rest, DnsReply.EntriesOf(hs), tail);
    DnsName.HostLabelsProper(question, job.text);
    DnsReply.UsualReply(id, flags, ns, ar, question, rest, hs, tail, job.text);
  }

  /** After `n` queries to one server. */
  ghost function Asked(job: Job, w: World, server: Server, n: nat): (w': World)
    decreases n
  {
    if n == 0 then w else Query(job, Asked(job, w, server, n - 1), server)
  }

  /** The query after `n` others is lost on the way. */
  ghost predicate LostAfter(job: Job, w: World, server: Server, n: nat) {
    var a := Asked(job, w, server, n);
    var d := job.transport(a.log, server, DnsReply.QueryBytes(job.hostname, NextId(a.counter).0));
    d == Lost(Timeout) || d == Lost(ServerUnreachable)
  }

  lemma {:induction false} AttemptGoesOn(job: Job, w: World, server: Server, tries: nat, n: nat)
    requires n < tries && forall i: nat | i < n :: LostAfter(job, w, server, i)
    ensures Attempt(job, w, server, tries) == Attempt(job, Asked(job, w, server, n), server, tries - n)
    decreases n
  {
    if n == 0 {
    } else {
      AttemptGoesOn(job, w, server, tries, n - 1);
      LostIsTransient(job, w, server, n - 1);
      AskAgain(job, Asked(job, w, server, n - 1), server, tries - (n - 1));
    }
  }

  lemma LostIsTransient(job: Job, w: World, server: Server, n: nat)
    requires LostAfter(job, w, server, n)
    ensures Transient(Last(Query(job, Asked(job, w, server, n), server)))
  {
  }

  lemma AskAgain(job: Job, w: World, server: Server, tries: nat)
    requires tries > 1 && Transient(Last(Query(job, w, server)))
    ensures Attempt(job, w, server, tries) == Attempt(job, Query(job, w, server), server, tries - 1)
  {
  }

  lemma {:induction false} AskedCounter(job: Job, w: World, server: Server, n: nat)
    requires w.counter < 0x1_0000
    ensures Asked(job, w, server, n).counter < 0x1_0000
    decreases n
  {
    if n == 0 {
    } else {
      AskedCounter(job, w, server, n - 1);
    }
  }

  lemma AttemptAnswered(job: Job, w: World, a: World, server: Server, tries: nat, n: nat, hs: seq<DnsReply.Host>)
    requires DnsName.HostName(job.hostname) && DnsName.TakesAscii(job.text) && a.counter < 0x1_0000 && n < tries
    requires Attempt(job, w, server, tries) == Attempt(job, a, server, tries - n)
    requires RepliesWith(job, a.log, server, NextId(a.counter).0, hs)
    ensures var o := Last(Attempt(job, w, server, tries)); o.Ok? && o.answer.addresses == DnsReply.AddrsOf(hs)
  {
    AnsweredAtOnce(job, a, server, tries - n, hs);
  }

  lemma AnsweredAtOnce(job: Job, w: World, server: Server, tries: nat, hs: seq<DnsReply.Host>)
    requires DnsName.HostName(job.hostname) && DnsName.TakesAscii(job.text) && w.counter < 0x1_0000 && tries > 0
    requires RepliesWith(job, w.log, server, NextId(w.counter).0, hs)
    ensures var o := Last(Attempt(job, w, server, tries)); o.Ok? && o.answer.addresses == DnsReply.AddrsOf(hs)
  {
    ReplyJudged(job, w.log, server, NextId(w.counter).0, hs);
    assert Attempt(job, w, server, tries) == Query(job, w, server);
  }

  /** The search ends with the first server that may be asked if that gives an answer. */
  lemma {:induction false} FirstDecides(job: Job, w: World, servers: seq<Server>, retries: nat, last: DnsError)
    requires Askable(servers) != [] && Last(Attempt(job, w, Askable(servers)[0], retries + 1)).Ok?
    ensures Search(job, w, servers, retries, last).1 ==
            Found(Last(Attempt(job, w, Askable(servers)[0], retries + 1)).answer, Askable(servers)[0])
    decreases |servers|
  {
    if Unspecified(servers[0]) {
      FirstDecides(job, w, servers[1..], retries, last);
    } else {
      assert Askable(servers)[0] == servers[0];
    }
  }

  /**
   * Persistence: when the first server that may be asked loses the first `n` queries, no more than may be repeated, by
   * timeout or as unreachable, and lists addresses for the next, those are found, from that server.
   */
  lemma LostThenAnswered(job: Job, w: World, servers: seq<Server>, retries: nat, n: nat, hs: seq<DnsReply.Host>)
    requires DnsName.HostName(job.hostname) && DnsName.TakesAscii(job.text) && w.counter < 0x1_0000
    requires Askable(servers) != [] && n <= retries
    requires forall i: nat | i < n :: LostAfter(job, w, Askable(servers)[0], i)
    requires var a := Asked(job, w, Askable(servers)[0], n);
             RepliesWith(job, a.log, Askable(servers)[0], NextId(a.counter).0, hs)
    ensures var r := Resolve(job, w, servers, retries).1;
            r.Found? && r.server == Askable(servers)[0] && r.answer.addresses == DnsReply.AddrsOf(hs)
  {
    var server := Askable(servers)[0];
    AskedCounter(job, w, server, n);
    AttemptGoesOn(job, w, server, retries + 1, n);
    AttemptAnswered(job, w, Asked(job, w, server, n), server, retries + 1, n, hs);
    FirstDecides(job, w, servers, retries, NoServer);
  }

  // ---- The code --------------------------------------------------------------------------------------

  /** The resolver, at work on one name. */
  class Resolver {
    const job: Job
    var counter: nat
    var log: seq<Exchange>

    ghost function View(): (w: World)
      reads this
    {
      World(log, counter)
    }

    constructor (job: Job)
      ensures this.job == job && View() == World([], 1)
    {
      this.job := job;
      counter, log := 1, [];
    }

    method TakeId() returns (id: nat)
      modifies this`counter
      ensures (id, counter) == NextId(old(counter))
    {
      id := counter;
      counter := (counter + 1) % 0x1_0000;
      if id == 0 {
        id := counter;
        counter := (counter + 1) % 0x1_0000;
      }
    }

    method QueryServer(server: Server) returns (r: Outcome)
      modifies this
      ensures View() == Query(job, old(View()), server) && r == Last(View())
    {
      var id := TakeId();
      var query := DnsReply.BuildQuery(job.hostname, id);
      var d := job.transport(log, server, query);
      if d.Replied? {
        r := DnsReply.ParseResponse(d.reply, id, job.text);
      } else {
        r := Err(d.error);
      }
      log := log + [Exchange(server, id, query, d, r)];
    }

    method QueryServerWithRetries(server: Server, retries: nat) returns (r: Outcome)
      modifies this
      ensures View() == Attempt(job, old(View()), server, retries + 1) && r == Last(View())
    {
      r := Err(Timeout);
      var i := 0;
      while i <= retries
        invariant 0 <= i <= retries + 1
        invariant i <= retries ==>
                    Attempt(job, old(View()), server, retries + 1) == Attempt(job, View(), server, retries + 1 - i)
        invariant i > retries ==> View() == Attempt(job, old(View()), server, retries + 1) && r == Last(View())
      {
        r := QueryServer(server);
        if !Transient(r) { return; }
        i := i + 1;
      }
    }

    method ResolveWithServers(servers: seq<Server>, retries: nat) returns (r: Result)
      modifies this
      ensures (View(), r) == Resolve(job, old(View()), servers, retries)
    {
      var valid := DnsName.ValidateHostname(job.hostname);
      if !valid { return Failed(InvalidHostname); }
      var last, tried := NoServer, false;
      ghost var w0 := View();
      for i := 0 to |servers|
        invariant Search(job, w0, servers, retries, NoServer) == Search(job, View(), servers[i..], retries, last)
        invariant !tried ==> last == NoServer
      {
        assert servers[i..][1..] == servers[i + 1..];
        if !Unspecified(servers[i]) {
          tried := true;
          var o := QueryServerWithRetries(servers[i], retries);
          if o.Stuck? { return Hung; }
          if o.Ok? { return Found(o.answer, servers[i]); }
          if o.error == NxDomain { return Failed(NxDomain); }
          last := o.error;
        }
      }
      if !tried { return Failed(NoServer); }
      return Failed(last);
    }
  }
}
