/** Iterative resolution in src/forwarder.rs: `extract_answer` sorts the
    records of a reply into the answers for the requested name and the name
    servers a referral delegates to, and `forward_iterative` follows referrals
    from a root server until some server answers, giving up after
    MAX_ITER_FORWARD referrals.

    forwarder.rs works on a richer message and record type than the ones
    message.rs and resourserecord.rs define (three record sections, NS and AAAA
    rdata, a server type). src/common.rs defines no `DNSServer`, `LabelSeq` or
    `ROOT_SERVERS`, src/message.rs no `Message`, and the `ResourceData` of
    src/resourserecord.rs has only an A variant, so the types below are declared
    here with the fields the code uses. */
module Forwarder {
  import opened Common
  import opened Labels
  import Records

  /** An IPv6 address, kept as its octets. */
  datatype Ipv6Addr = Ipv6Addr(octets: seq<u8>)

  /** The rdata variants `extract_answer` tells apart; every other kind of
      record is `Other`. */
  datatype RData = NS(server: LabelSeq) | A(v4: Records.Ipv4Addr) | AAAA(v6: Ipv6Addr) | Other

  /** A record as `extract_answer` sees it: its owner name and its rdata. */
  datatype Record = Record(name: LabelSeq, data: RData)

  /** A reply: answer, authority and additional sections. */
  datatype Message = Message(resources: seq<Record>, authResources: seq<Record>, addiResources: seq<Record>)

  datatype DNSServer = DNSServer(name: LabelSeq, ipv4addr: Option<Records.Ipv4Addr>, ipv6addr: Option<Ipv6Addr>, port: u16)

  datatype Answer = Answer(servers: seq<DNSServer>, resources: seq<Record>)

  const DNS_PORT: u16 := 53

  /** `MAX_ITER_FORWARD`. */
  const MAX_ITER_FORWARD: nat := 10

  // ---------------------------------------------------------------------------
  // What extract_answer computes, record by record

  /** The answer records followed by the authority records. */
  function AnswerRecords(msg: Message): seq<Record> {
    msg.resources + msg.authResources
  }

  /** A server known only by name, before any glue. */
  function Unresolved(name: LabelSeq): DNSServer {
    DNSServer(name, None, None, DNS_PORT)
  }

  /** The candidate map after the records in rs: every NS record inserts (or
      replaces) an unresolved server under its target name. */
  function Candidates(rs: seq<Record>): map<LabelSeq, DNSServer> {
    if rs == [] then map[]
    else
      var m := Candidates(rs[..|rs| - 1]);
      var r := rs[|rs| - 1];
      if r.data.NS? then m[r.data.server := Unresolved(r.data.server)] else m
  }

  /** The records of rs, in order, that are not NS records and are owned by q. */
  function Matching(rs: seq<Record>, q: LabelSeq): seq<Record> {
    if rs == [] then []
    else
      var m := Matching(rs[..|rs| - 1], q);
      var r := rs[|rs| - 1];
      if !r.data.NS? && r.name == q then m + [r] else m
  }

  /** The effect of one additional record on the server it names. */
  function ApplyGlue(s: DNSServer, d: RData): DNSServer {
    match d
    case A(ip) => s.(ipv4addr := Some(ip))
    case AAAA(ip) => s.(ipv6addr := Some(ip))
    case _ => s
  }

  /** The candidate map after the glue pass over the additional records addi:
      a record whose name is a candidate updates that candidate. */
  function Glue(m: map<LabelSeq, DNSServer>, addi: seq<Record>): map<LabelSeq, DNSServer> {
    if addi == [] then m
    else
      var g := Glue(m, addi[..|addi| - 1]);
      var r := addi[|addi| - 1];
      if r.name in g then g[r.name := ApplyGlue(g[r.name], r.data)] else g
  }

  /** The servers a reply delegates to, keyed by name. */
  function Delegations(msg: Message): map<LabelSeq, DNSServer> {
    Glue(Candidates(AnswerRecords(msg)), msg.addiResources)
  }

  // ---------------------------------------------------------------------------
  // Independent descriptions of the same results

  /** The target names of the NS records in rs. */
  function NsTargets(rs: seq<Record>): set<LabelSeq> {
    set r | r in rs && r.data.NS? :: r.data.server
  }

  /** The address of the last A record in addi owned by n, if any. */
  function LastA(addi: seq<Record>, n: LabelSeq): Option<Records.Ipv4Addr> {
    if addi == [] then None
    else
      var r := addi[|addi| - 1];
      if r.name == n && r.data.A? then Some(r.data.v4) else LastA(addi[..|addi| - 1], n)
  }

  /** The address of the last AAAA record in addi owned by n, if any. */
  function LastAAAA(addi: seq<Record>, n: LabelSeq): Option<Ipv6Addr> {
    if addi == [] then None
    else
      var r := addi[|addi| - 1];
      if r.name == n && r.data.AAAA? then Some(r.data.v6) else LastAAAA(addi[..|addi| - 1], n)
  }

  /** o if there is one, otherwise d. */
  function Override<T>(o: Option<T>, d: Option<T>): Option<T> {
    if o.Some? then o else d
  }

  lemma NsTargetsSnoc(rs: seq<Record>, r: Record)
    ensures NsTargets(rs + [r]) == NsTargets(rs) + (if r.data.NS? then {r.data.server} else {})
  {
    var s := rs + [r];
    forall n | n in NsTargets(s) ensures n in NsTargets(rs) + (if r.data.NS? then {r.data.server} else {}) {
      var x :| x in s && x.data.NS? && x.data.server == n;
      if x != r {
        assert x in rs;
      }
    }
    forall n | n in NsTargets(rs) ensures n in NsTargets(s) {
      var x :| x in rs && x.data.NS? && x.data.server == n;
      assert x in s;
    }
    if r.data.NS? {
      assert r in s;
    }
  }

  /** The candidates are exactly the NS targets, each unresolved. */
  lemma {:induction false} CandidatesSpec(rs: seq<Record>)
    ensures Candidates(rs).Keys == NsTargets(rs)
    ensures forall n :: n in Candidates(rs) ==> Candidates(rs)[n] == Unresolved(n)
  {
    if rs != [] {
      var pre := rs[..|rs| - 1];
      CandidatesSpec(pre);
      NsTargetsSnoc(pre, rs[|rs| - 1]);
      assert pre + [rs[|rs| - 1]] == rs;
    }
  }

  lemma MatchingSnoc(rs: seq<Record>, r: Record, q: LabelSeq)
    ensures Matching(rs + [r], q) == if !r.data.NS? && r.name == q then Matching(rs, q) + [r] else Matching(rs, q)
  {
    assert (rs + [r])[..|rs|] == rs;
  }

  /** A record is matched exactly when it occurs in rs, is not an NS record
      and is owned by q; in particular no NS record is ever an answer. */
  lemma {:induction false} MatchingSpec(rs: seq<Record>, q: LabelSeq)
    ensures forall r :: r in Matching(rs, q) <==> r in rs && !r.data.NS? && r.name == q
  {
    if rs != [] {
      var pre, last := rs[..|rs| - 1], rs[|rs| - 1];
      MatchingSpec(pre, q);
      MatchingSnoc(pre, last, q);
      assert pre + [last] == rs;
    }
  }

  /** Matching keeps the order of the records: the answers from the answer
      section come before those from the authority section. */
  lemma {:induction false} MatchingConcat(a: seq<Record>, b: seq<Record>, q: LabelSeq)
    ensures Matching(a + b, q) == Matching(a, q) + Matching(b, q)
  {
    if b == [] {
      assert a + b == a;
    } else {
      var pre, last := b[..|b| - 1], b[|b| - 1];
      MatchingConcat(a, pre, q);
      assert a + b == (a + pre) + [last];
      assert b == pre + [last];
      MatchingSnoc(a + pre, last, q);
      MatchingSnoc(pre, last, q);
    }
  }

  /** The glue pass keeps the candidate names, and each candidate ends with
      the last A and the last AAAA address the additional section gives for
      its name, keeping its own where there is none. */
  lemma {:induction false} GlueSpec(m: map<LabelSeq, DNSServer>, addi: seq<Record>)
    ensures Glue(m, addi).Keys == m.Keys
    ensures forall n :: n in m ==> Glue(m, addi)[n] == m[n].(
      ipv4addr := Override(LastA(addi, n), m[n].ipv4addr),
      ipv6addr := Override(LastAAAA(addi, n), m[n].ipv6addr))
  {
    if addi != [] {
      GlueSpec(m, addi[..|addi| - 1]);
    }
  }

  /** An additional record whose name is no candidate changes nothing. */
  lemma GlueIgnoresUnmatched(m: map<LabelSeq, DNSServer>, addi: seq<Record>, r: Record)
    requires r.name !in m
    ensures Glue(m, addi + [r]) == Glue(m, addi)
  {
    var s := addi + [r];
    assert s[..|s| - 1] == addi && s[|s| - 1] == r;
    GlueSpec(m, addi);
  }

  /** The servers of a reply: one per NS target of its answer and authority
      sections, on port 53, with the addresses of the last matching glue
      records of the additional section and none otherwise. */
  lemma DelegationsSpec(msg: Message)
    ensures Delegations(msg).Keys == NsTargets(AnswerRecords(msg))
    ensures forall n :: n in Delegations(msg) ==>
      Delegations(msg)[n] == DNSServer(n, LastA(msg.addiResources, n), LastAAAA(msg.addiResources, n), DNS_PORT)
  {
    CandidatesSpec(AnswerRecords(msg));
    GlueSpec(Candidates(AnswerRecords(msg)), msg.addiResources);
  }

  // ---------------------------------------------------------------------------
  // extract_answer

  /** servers holds the values of m under keys, position by position. */
  predicate ValuesAt(m: map<LabelSeq, DNSServer>, keys: seq<LabelSeq>, servers: seq<DNSServer>) {
    |keys| == |servers| && forall i :: 0 <= i < |keys| ==> keys[i] in m && servers[i] == m[keys[i]]
  }

  predicate Distinct<T(==)>(xs: seq<T>) {
    forall i, j :: 0 <= i < j < |xs| ==> xs[i] != xs[j]
  }

  lemma ValuesAtSnoc(m: map<LabelSeq, DNSServer>, keys: seq<LabelSeq>, servers: seq<DNSServer>, k: LabelSeq)
    requires ValuesAt(m, keys, servers) && k in m
    ensures ValuesAt(m, keys + [k], servers + [m[k]])
  {
  }

  lemma DistinctSnoc<T>(xs: seq<T>, x: T)
    requires Distinct(xs) && x !in xs
    ensures Distinct(xs + [x])
  {
  }

  /** `name_to_svrs.values().cloned().collect()`: the values of the map, in an
      order the model leaves open, each once. */
  method MapValues(m: map<LabelSeq, DNSServer>) returns (servers: seq<DNSServer>, ghost keys: seq<LabelSeq>)
    ensures |servers| == |m.Keys|
    ensures ValuesAt(m, keys, servers) && Distinct(keys)
    ensures forall k :: k in m ==> k in keys
  {
    var rest := m.Keys;
    servers, keys := [], [];
    while rest != {}
      invariant rest <= m.Keys && |servers| + |rest| == |m.Keys|
      invariant forall k :: k in m ==> (k in rest <==> k !in keys)
      invariant ValuesAt(m, keys, servers) && Distinct(keys)
      decreases |rest|
    {
      var k :| k in rest;
      ValuesAtSnoc(m, keys, servers, k);
      DistinctSnoc(keys, k);
      servers, keys := servers + [m[k]], keys + [k];
      rest := rest - {k};
    }
  }

  lemma CandidatesPrefix(rs: seq<Record>, i: nat)
    requires i < |rs|
    ensures Candidates(rs[..i + 1]) ==
      if rs[i].data.NS? then Candidates(rs[..i])[rs[i].data.server := Unresolved(rs[i].data.server)]
      else Candidates(rs[..i])
  {
    assert rs[..i + 1][..i] == rs[..i];
  }

  lemma MatchingPrefix(rs: seq<Record>, i: nat, q: LabelSeq)
    requires i < |rs|
    ensures Matching(rs[..i + 1], q) ==
      if !rs[i].data.NS? && rs[i].name == q then Matching(rs[..i], q) + [rs[i]] else Matching(rs[..i], q)
  {
    assert rs[..i + 1][..i] == rs[..i];
  }

  lemma GluePrefix(m: map<LabelSeq, DNSServer>, addi: seq<Record>, i: nat)
    requires i < |addi|
    ensures Glue(m, addi[..i + 1]) ==
      var g := Glue(m, addi[..i]);
      if addi[i].name in g then g[addi[i].name := ApplyGlue(g[addi[i].name], addi[i].data)] else g
  {
    assert addi[..i + 1][..i] == addi[..i];
  }

  /** The values of the delegation map, listed under distinct keys that cover
      the map, are one server per NS target, each stored under its own name. */
  lemma ServersOfDelegations(msg: Message, servers: seq<DNSServer>, keys: seq<LabelSeq>)
    requires |servers| == |Delegations(msg).Keys|
    requires ValuesAt(Delegations(msg), keys, servers) && Distinct(keys)
    requires forall k :: k in Delegations(msg) ==> k in keys
    ensures |servers| == |NsTargets(AnswerRecords(msg))|
    ensures forall i :: 0 <= i < |servers| ==>
      servers[i].name in Delegations(msg) && servers[i] == Delegations(msg)[servers[i].name]
    ensures forall i, j :: 0 <= i < j < |servers| ==> servers[i].name != servers[j].name
    ensures forall n :: n in NsTargets(AnswerRecords(msg)) ==>
      exists i :: 0 <= i < |servers| && servers[i].name == n
  {
    DelegationsSpec(msg);
    forall i | 0 <= i < |servers| ensures servers[i].name == keys[i] {
    }
    forall n | n in NsTargets(AnswerRecords(msg))
      ensures exists i :: 0 <= i < |servers| && servers[i].name == n
    {
      var i :| 0 <= i < |keys| && keys[i] == n;
      assert servers[i].name == n;
    }
  }

  /** `extract_answer`: the answers for requestedName among the answer and
      authority records, in order, and one server per delegation, each
      carrying the glue the additional section gives for it. */
  method ExtractAnswer(msg: Message, requestedName: LabelSeq) returns (ans: Answer)
    ensures ans.resources == Matching(AnswerRecords(msg), requestedName)
    ensures |ans.servers| == |NsTargets(AnswerRecords(msg))|
    ensures forall i :: 0 <= i < |ans.servers| ==>
      ans.servers[i].name in Delegations(msg) && ans.servers[i] == Delegations(msg)[ans.servers[i].name]
    ensures forall i, j :: 0 <= i < j < |ans.servers| ==> ans.servers[i].name != ans.servers[j].name
    ensures forall n :: n in NsTargets(AnswerRecords(msg)) ==>
      exists i :: 0 <= i < |ans.servers| && ans.servers[i].name == n
  {
    var nameToSvrs: map<LabelSeq, DNSServer> := map[];
    var resources: seq<Record> := [];
    var records := msg.resources + msg.authResources;
    for i := 0 to |records|
      invariant nameToSvrs == Candidates(records[..i])
      invariant resources == Matching(records[..i], requestedName)
    {
      var record := records[i];
      CandidatesPrefix(records, i);
      MatchingPrefix(records, i, requestedName);
      match record.data {
        case NS(serverName) =>
          var server := DNSServer(serverName, None, None, DNS_PORT);
          nameToSvrs := nameToSvrs[serverName := server];
        case _ =>
          if record.name == requestedName {
            resources := resources + [record];
          }
      }
    }
    assert records[..|records|] == records;
    var addi := msg.addiResources;
    for i := 0 to |addi|
      invariant nameToSvrs == Glue(Candidates(records), addi[..i])
    {
      var record := addi[i];
      GluePrefix(Candidates(records), addi, i);
      if record.name in nameToSvrs {
        var server := nameToSvrs[record.name];
        if record.data.A? {
          server := server.(ipv4addr := Some(record.data.v4));
        }
        if record.data.AAAA? {
          server := server.(ipv6addr := Some(record.data.v6));
        }
        nameToSvrs := nameToSvrs[record.name := server];
      }
    }
    assert addi[..|addi|] == addi;
    var servers;
    ghost var keys;
    servers, keys := MapValues(nameToSvrs);
    ServersOfDelegations(msg, servers, keys);
    ans := Answer(servers, resources);
  }

  // ---------------------------------------------------------------------------
  // forward_iterative

  datatype Failure =
    | NoRootServer    // `choose` on an empty root list: `expect` panics
    | TransportError  // bind, send, receive or parse fails: an `unwrap` in `send_message_to` panics
    | NoServer        // a referral without servers: `expect` panics
    | MaxIterReached  // the counter passes MAX_ITER_FORWARD: `panic!`

  datatype Outcome = Resolved(reply: Message) | Failed(reason: Failure)

  /** reply holds no answer for name and delegates to next. */
  ghost predicate Refers(reply: Message, name: LabelSeq, next: DNSServer) {
    Matching(AnswerRecords(reply), name) == []
    && next.name in Delegations(reply) && Delegations(reply)[next.name] == next
  }

  /** Each server in asked, after the first, is one that the reply to the
      request before it refers to. */
  ghost predicate Chain(name: LabelSeq, send: (DNSServer, nat) -> Option<Message>, asked: seq<DNSServer>) {
    forall k :: 0 <= k < |asked| - 1 ==>
      send(asked[k], k).Some? && Refers(send(asked[k], k).value, name, asked[k + 1])
  }

  lemma ChainSnoc(name: LabelSeq, send: (DNSServer, nat) -> Option<Message>, asked: seq<DNSServer>, next: DNSServer)
    requires Chain(name, send, asked) && |asked| > 0
    requires send(asked[|asked| - 1], |asked| - 1).Some?
    requires Refers(send(asked[|asked| - 1], |asked| - 1).value, name, next)
    ensures Chain(name, send, asked + [next])
  {
    var s := asked + [next];
    forall k | 0 <= k < |s| - 1
      ensures send(s[k], k).Some? && Refers(send(s[k], k).value, name, s[k + 1])
    {
      if k < |asked| - 1 {
        assert s[k] == asked[k] && s[k + 1] == asked[k + 1];
      }
    }
  }

  /** A server picked from the servers `extract_answer` returns for a reply
      without answers is one that reply refers to. */
  lemma PickedServerRefers(reply: Message, name: LabelSeq, ans: Answer, next: DNSServer)
    requires ans.resources == Matching(AnswerRecords(reply), name) && ans.resources == []
    requires forall i :: 0 <= i < |ans.servers| ==>
      ans.servers[i].name in Delegations(reply) && ans.servers[i] == Delegations(reply)[ans.servers[i].name]
    requires next in ans.servers
    ensures Refers(reply, name, next)
  {
  }

  /** `forward_iterative`. The network is the oracle send: send(s, k) is the
      reply server s gives to the k-th request, or None when the request
      fails. Random choices are arbitrary picks. asked lists the servers
      queried, in order: the first is a root server, each next one is a
      server the previous reply refers to, and at most MAX_ITER_FORWARD + 1
      are asked. */
  method ForwardIterative(requestedName: LabelSeq, roots: seq<DNSServer>, send: (DNSServer, nat) -> Option<Message>)
    returns (outcome: Outcome, ghost asked: seq<DNSServer>)
    ensures outcome == Failed(NoRootServer) <==> roots == []
    ensures |asked| <= MAX_ITER_FORWARD + 1
    ensures roots != [] ==> |asked| >= 1 && asked[0] in roots
    ensures Chain(requestedName, send, asked)
    ensures outcome.Resolved? ==>
      send(asked[|asked| - 1], |asked| - 1) == Some(outcome.reply)
      && Matching(AnswerRecords(outcome.reply), requestedName) != []
    ensures outcome == Failed(TransportError) ==> send(asked[|asked| - 1], |asked| - 1).None?
    ensures outcome == Failed(NoServer) ==>
      var reply := send(asked[|asked| - 1], |asked| - 1);
      reply.Some? && Matching(AnswerRecords(reply.value), requestedName) == []
      && NsTargets(AnswerRecords(reply.value)) == {}
    ensures outcome == Failed(MaxIterReached) ==>
      |asked| == MAX_ITER_FORWARD + 1
      && var reply := send(asked[MAX_ITER_FORWARD], MAX_ITER_FORWARD);
      reply.Some? && Matching(AnswerRecords(reply.value), requestedName) == []
      && NsTargets(AnswerRecords(reply.value)) != {}
  {
    if roots == [] {
      return Failed(NoRootServer), [];
    }
    assert roots[0] in roots;
    var server :| server in roots;
    var counter := 0;
    asked := [server];
    while true
      invariant 0 <= counter <= MAX_ITER_FORWARD && |asked| == counter + 1
      invariant asked[0] in roots && asked[counter] == server
      invariant Chain(requestedName, send, asked)
      decreases MAX_ITER_FORWARD - counter
    {
      var res := send(server, counter);
      if res.None? {
        return Failed(TransportError), asked;
      }
      var ans := ExtractAnswer(res.value, requestedName);
      if |ans.resources| > 0 {
        return Resolved(res.value), asked;
      }
      if |ans.servers| == 0 {
        return Failed(NoServer), asked;
      }
      assert ans.servers[0] in ans.servers;
      var next :| next in ans.servers;
      server := next;
      counter := counter + 1;
      if counter > MAX_ITER_FORWARD {
        return Failed(MaxIterReached), asked;
      }
      PickedServerRefers(res.value, requestedName, ans, next);
      ChainSnoc(requestedName, send, asked, next);
      asked := asked + [next];
    }
  }
}
