/** A bootstrap query end to end: the seed's answer and the client's checks of it. */
module BootstrapQuery {
  import opened Basics
  import opened IpAddress
  import opened Endpoint
  import opened Folding
  import opened BootstrapServer
  import opened Formats

  const PROTOCOL_VERSION: nat := 5
  const MAX_CLUSTER_ID_LEN: nat := 255
  const NANOS_PER_MILLI: nat := 1_000_000

  datatype Hello = Hello(node: NodeId, version: nat, supported: seq<Format>, cluster: string,
                         endpoint: Option<string>, maxResults: nat)

  datatype Reply =
    | Ack(node: NodeId, version: nat, format: Format, cluster: string, candidates: seq<string>, ttlMillis: nat)
    | Rejected
    | Mismatch
    | Hangup

  // ----- The seed

  /**
   The seed's side of the exchange. `trusted` is the verdict on the requester's identity, `enabled`
   whether the node serves bootstrap at all. The reply travels in a frame of the negotiated format.
   */
  method Serve(server: Server, enabled: bool, cluster: string, node: NodeId, preferred: Format, now: nat, hello: Hello,
               trusted: bool)
    returns (reply: Reply)
    requires server.Valid()
    modifies server`byNode, server`order, server`history
    ensures server.Valid()
    ensures var reached := Reaches(enabled, cluster, preferred, hello, trusted);
            var word := WordOf(hello.endpoint);
            && (reply.Ack? <==>
                  && reached && !word.Unacceptable?
                  && (word.Offered? ==> now + server.ttl <= server.lastInstant))
            && (reply == Mismatch <==> hello.version != 5)
            && (reply == Hangup <==>
                  hello.version == 5 && (Negotiate(preferred, hello.supported).None? || !trusted))
            && server.byNode == (if reached then Updated(old(server.byNode), server.ttl,
                                                         server.Outcome(old(server.byNode), now, hello.node, word))
                                 else old(server.byNode))
    ensures reply.Ack? ==>
              && reply.node == node && reply.version == PROTOCOL_VERSION && reply.cluster == cluster
              && reply.format == Negotiate(preferred, hello.supported).value
              && reply.ttlMillis == Min(server.ttl / NANOS_PER_MILLI, MAX_U64)
              && reply.candidates == server.Response(hello.node, hello.maxResults)
  {
    if hello.version != PROTOCOL_VERSION { return Mismatch; }
    var format := Negotiate(preferred, hello.supported);
    if format.None? { return Hangup; }
    if !trusted { return Hangup; }
    if !enabled { return Rejected; }
    if hello.cluster != cluster { return Rejected; }
    if hello.maxResults == 0 { return Rejected; }
    var result := server.Exchange(now, hello.node, hello.endpoint, hello.maxResults);
    match result
    case Candidates(endpoints) =>
      reply := Ack(node, PROTOCOL_VERSION, format.value, hello.cluster, endpoints,
                   Min(server.ttl / NANOS_PER_MILLI, MAX_U64));
    case BadEndpoint => reply := Rejected;
    case DeadlineOverflow => reply := Rejected;
  }

  /** The hello gets as far as the cache. */
  predicate Reaches(enabled: bool, cluster: string, preferred: Format, hello: Hello, trusted: bool) {
    && hello.version == PROTOCOL_VERSION && Negotiate(preferred, hello.supported).Some?
    && trusted && enabled && hello.cluster == cluster && hello.maxResults > 0
  }

  // ----- The client

  datatype ClientConfig = ClientConfig(preferred: Format, maxResponse: nat, maxTtl: nat)

  predicate ValidConfig(config: ClientConfig) {
    1 <= config.maxResponse <= MAX_RESPONSE_CAPACITY && 1 <= config.maxTtl <= MAX_CANDIDATE_TTL
  }

  type Canon = string -> Option<string>

  /** The candidates are all acceptable and no two of them mean the same endpoint. */
  ghost predicate CleanList(canon: Canon, candidates: seq<string>) {
    && (forall i :: 0 <= i < |candidates| ==> canon(candidates[i]).Some?)
    && (forall i, j :: 0 <= i < j < |candidates| ==> canon(candidates[i]) != canon(candidates[j]))
  }

  ghost predicate Images(canon: Canon, candidates: seq<string>, images: seq<string>) {
    |images| == |candidates| && forall i :: 0 <= i < |candidates| ==> canon(candidates[i]) == Some(images[i])
  }

  method Normalize(canon: Canon, candidates: seq<string>) returns (r: Option<seq<string>>)
    ensures r.Some? <==> CleanList(canon, candidates)
    ensures r.Some? ==> Images(canon, candidates, r.value)
  {
    var out, seen := [], {};
    for k := 0 to |candidates|
      invariant |out| == k
      invariant forall x :: x in seen <==> x in out
      invariant forall i :: 0 <= i < k ==> canon(candidates[i]) == Some(out[i])
      invariant forall i, j :: 0 <= i < j < k ==> out[i] != out[j]
    {
      var c := canon(candidates[k]);
      if c.None? { return None; }
      if c.value in seen {
        ghost var i :| 0 <= i < k && out[i] == c.value;
        assert canon(candidates[i]) == canon(candidates[k]);
        return None;
      }
      out, seen := out + [c.value], seen + {c.value};
    }
    r := Some(out);
  }

  datatype QueryResult = Found(seed: NodeId, endpoints: seq<string>, ttl: nat) | InvalidResponse | Failed

  /** The acknowledgement is for this client, in the format it names. */
  predicate Readable(config: ClientConfig, cluster: string, frame: Format, reply: Reply)
    requires reply.Ack?
  {
    reply.cluster == cluster && reply.format in SupportedFor(config.preferred) && frame == reply.format
  }

  /** Exactly what the client insists on, besides the list of candidates itself. */
  predicate Acceptable(config: ClientConfig, cluster: string, maxResults: nat, frame: Format, reply: Reply) {
    && reply.Ack? && reply.version == PROTOCOL_VERSION && Readable(config, cluster, frame, reply)
    && |reply.candidates| <= maxResults && |reply.candidates| <= config.maxResponse
    && 0 < reply.ttlMillis * NANOS_PER_MILLI <= config.maxTtl
  }

  /** The client's checks; `trusted` is the verdict on the seed's identity. */
  /** A reply passes when it is for this cluster, in a format both its sender and this client speak, and within bounds. */
  lemma AcceptableExactly(config: ClientConfig, cluster: string, maxResults: nat, frame: Format, reply: Reply)
    ensures Acceptable(config, cluster, maxResults, frame, reply) <==>
              && reply.Ack? && reply.version == 5 && reply.cluster == cluster && frame == reply.format
              && (reply.format.Json? || config.preferred.Bincode?)
              && |reply.candidates| <= Min(maxResults, config.maxResponse)
              && 0 < 1_000_000 * reply.ttlMillis <= config.maxTtl
  {
    assert Json in SupportedFor(config.preferred);
  }

  method CheckReply(config: ClientConfig, cluster: string, maxResults: nat, frame: Format, reply: Reply, trusted: bool)
    returns (r: QueryResult)
    ensures r.Found? <==>
              trusted && Acceptable(config, cluster, maxResults, frame, reply) && CleanList(Canonicalize, reply.candidates)
    ensures r == Failed <==> !reply.Ack? || reply.version != PROTOCOL_VERSION || (!trusted && Readable(config, cluster, frame, reply))
    ensures r.Found? ==>
              && r.seed == reply.node && r.ttl == reply.ttlMillis * NANOS_PER_MILLI
              && Images(Canonicalize, reply.candidates, r.endpoints)
  {
    if !reply.Ack? || reply.version != PROTOCOL_VERSION { return Failed; }
    if reply.cluster != cluster { return InvalidResponse; }
    if reply.format !in SupportedFor(config.preferred) { return InvalidResponse; }
    if frame != reply.format { return InvalidResponse; }
    if !trusted { return Failed; }
    if |reply.candidates| > maxResults || |reply.candidates| > config.maxResponse { return InvalidResponse; }
    var ttl := reply.ttlMillis * NANOS_PER_MILLI;
    if ttl == 0 || ttl > config.maxTtl { return InvalidResponse; }
    var endpoints := Normalize(Canonicalize, reply.candidates);
    if endpoints.None? { return InvalidResponse; }
    r := Found(reply.node, endpoints.value, ttl);
  }

  // ----- Both together

  /** The text stands for itself or is refused: it never turns into another one. */
  predicate FixedOrRefused(canon: Canon, c: string) {
    canon(c) == Some(c) || canon(c) == None
  }

  lemma {:induction false} OthersAreLeases(order: seq<NodeId>, byNode: map<NodeId, Lease>, requester: NodeId, x: string)
    requires x in Others(order, byNode, requester)
    ensures exists n :: n in byNode && n != requester && byNode[n].endpoint == x
  {
    var rest := order[..|order| - 1];
    if x in Others(rest, byNode, requester) {
      OthersAreLeases(rest, byNode, requester, x);
    }
  }

  lemma LeaseIsImage(history: seq<Event>, ttl: nat, byNode: map<NodeId, Lease>, n: NodeId)
    requires Accounts(history, ttl, byNode) && Genuine(history) && n in byNode
    ensures IsImage(byNode[n].endpoint)
  {
    var i: nat :| Held(history, ttl, i, n, byNode[n]);
    assert Wrote(history[i], ttl, n, byNode[n]);
  }

  /** Every candidate of a reachable seed is the canonical form of some endpoint offered to it. */
  lemma CandidatesAreImages(history: seq<Event>, ttl: nat, advertised: Option<string>, order: seq<NodeId>,
                            byNode: map<NodeId, Lease>, requester: NodeId, x: string)
    requires Accounts(history, ttl, byNode) && Genuine(history) && (advertised.Some? ==> IsImage(advertised.value))
    requires x in Offers(advertised, order, byNode, requester)
    ensures IsImage(x)
  {
    if x in Others(order, byNode, requester) {
      OthersAreLeases(order, byNode, requester, x);
      var n :| n in byNode && n != requester && byNode[n].endpoint == x;
      LeaseIsImage(history, ttl, byNode, n);
    }
  }

  /** A list without repeats whose texts are fixed or refused is clean exactly when none is refused. */
  lemma CleanExactly(canon: Canon, candidates: seq<string>)
    requires Distinct(candidates) && (forall x :: x in candidates ==> FixedOrRefused(canon, x))
    ensures CleanList(canon, candidates) <==> forall x :: x in candidates ==> canon(x).Some?
    ensures forall images :: Images(canon, candidates, images) ==> images == candidates
  {
    forall i | 0 <= i < |candidates| ensures FixedOrRefused(canon, candidates[i]) {
      assert candidates[i] in candidates;
    }
  }

  ghost predicate AllDialable(candidates: seq<string>) {
    forall x :: x in candidates ==> !UndialableEndpoint(x)
  }

  /** The list of a reachable seed passes the client's list checks exactly when no address in it is undialable. */
  lemma ResponseIsClean(history: seq<Event>, ttl: nat, advertised: Option<string>, order: seq<NodeId>,
                        byNode: map<NodeId, Lease>, requester: NodeId, limit: nat)
    requires Lists(order, byNode) && Accounts(history, ttl, byNode)
    requires Genuine(history) && (advertised.Some? ==> IsImage(advertised.value))
    ensures var sent := Cut(FirstOccurrences(Offers(advertised, order, byNode, requester)), limit);
            && |sent| <= limit && (CleanList(Canonicalize, sent) <==> AllDialable(sent))
            && forall images :: Images(Canonicalize, sent, images) ==> images == sent
  {
    var offers := Offers(advertised, order, byNode, requester);
    var sent := Cut(FirstOccurrences(offers), limit);
    ResponseFits(advertised, order, byNode, requester, limit);
    FirstOccurrencesHold(offers);
    forall x | x in sent
      ensures FixedOrRefused(Canonicalize, x) && (Canonicalize(x).Some? <==> !UndialableEndpoint(x))
    {
      assert x in FirstOccurrences(offers);
      CandidatesAreImages(history, ttl, advertised, order, byNode, requester, x);
      ImageIsFixedOrRefused(x);
    }
    CleanExactly(Canonicalize, sent);
  }

  /** A lease time as it arrives at a client: in milliseconds of 64 bits. */
  function InMillis(ttl: nat): nat { Min(ttl / NANOS_PER_MILLI, MAX_U64) * NANOS_PER_MILLI }

  /** Whole milliseconds survive; less than one becomes none. */
  lemma MillisOf(ttl: nat)
    ensures InMillis(ttl) <= ttl && (ttl <= MAX_CANDIDATE_TTL ==> ttl < InMillis(ttl) + NANOS_PER_MILLI)
    ensures InMillis(ttl) > 0 <==> ttl >= NANOS_PER_MILLI
  {
  }

  /** At least a millisecond, and in whole milliseconds within the client's bound. */
  predicate LifetimeFits(config: ClientConfig, ttl: nat) {
    ttl >= NANOS_PER_MILLI && InMillis(ttl) <= config.maxTtl
  }

  /** A node that may serve bootstrap, and what a client asks of it. */
  datatype Seed = Seed(node: NodeId, cluster: string, preferred: Format, enabled: bool)

  datatype Request = Request(cluster: string, endpoint: Option<string>, maxResults: nat)

  /** The length of a text in UTF-8. */
  function Utf8Length(t: string): nat {
    if t == "" then 0
    else (if t[0] < '\U{80}' then 1 else if t[0] < '\U{800}' then 2 else if t[0] < '\U{10000}' then 3 else 4) + Utf8Length(t[1..])
  }

  predicate IsControl(c: char) { c < ' ' || '\U{7f}' <= c <= '\U{9f}' }

  predicate ValidClusterId(t: string) {
    1 <= Utf8Length(t) <= MAX_CLUSTER_ID_LEN && forall c :: c in t ==> !IsControl(c)
  }

  /** The client's own checks of a request. */
  function CountFrom(t: string, n: nat): nat {
    if t == "" then 0 else CountFrom(t[1..], n) + (if t[0] as int >= n then 1 else 0)
  }

  lemma {:induction false} LengthByCounting(t: string)
    ensures Utf8Length(t) == |t| + CountFrom(t, 0x80) + CountFrom(t, 0x800) + CountFrom(t, 0x1_0000)
  {
    if t == "" {
    } else {
      LengthByCounting(t[1..]);
    }
  }

  /** A cluster name has 1 to 255 bytes of UTF-8 and no control character, of the first 128 or the next. */
  lemma ClusterIdExactly(t: string)
    ensures ValidClusterId(t) <==>
              && 1 <= |t| + CountFrom(t, 0x80) + CountFrom(t, 0x800) + CountFrom(t, 0x1_0000) <= 255
              && forall i :: 0 <= i < |t| ==> t[i] as int >= 32 && !(127 <= t[i] as int <= 159)
  {
    LengthByCounting(t);
    assert forall i :: 0 <= i < |t| ==> t[i] in t;
  }

  predicate WellFormed(config: ClientConfig, request: Request) {
    && ValidClusterId(request.cluster) && 1 <= request.maxResults <= config.maxResponse && !WordOf(request.endpoint).Unacceptable?
  }

  method CheckRequest(config: ClientConfig, request: Request) returns (ok: bool)
    ensures ok <==> WellFormed(config, request)
  {
    if !ValidClusterId(request.cluster) { return false; }
    if request.maxResults == 0 || request.maxResults > config.maxResponse { return false; }
    if request.endpoint.Some? && Canonicalize(request.endpoint.value).None? { return false; }
    return true;
  }

  /**
   What is decided outside the exchange itself. The hello arrives when a query slot, the seed's
   certificate, a connection slot of the seed's listener and the seed's frame limit allow it; the
   reply comes back when it fits the client's frame limit. Either side judges the other's identity.
   */
  datatype Link = Link(arrives: bool, comesBack: bool, seedTrusts: bool, clientTrusts: bool)

  /** The request is well-formed and reaches a seed of its cluster. */
  predicate Passes(seed: Seed, config: ClientConfig, link: Link, request: Request) {
    && WellFormed(config, request) && link.arrives && link.seedTrusts
    && seed.enabled && request.cluster == seed.cluster
  }

  /** The lease asked for, if any, does not end beyond what the clock can represent. */
  predicate InTime(now: nat, ttl: nat, lastInstant: nat, endpoint: Option<string>) {
    endpoint.None? || now + ttl <= lastInstant
  }

  /** The seed's part: the hello of a well-formed request gets an acknowledgement the client can read. */
  method Ask(server: Server, seed: Seed, now: nat, config: ClientConfig, link: Link, node: NodeId, request: Request)
    returns (reply: Reply)
    requires server.Valid() && WellFormed(config, request) && link.arrives
    modifies server`byNode, server`order, server`history
    ensures server.Valid()
    ensures server.byNode ==
            if Passes(seed, config, link, request)
            then Updated(old(server.byNode), server.ttl, server.Outcome(old(server.byNode), now, node, WordOf(request.endpoint)))
            else old(server.byNode)
    ensures reply.Ack? <==>
            Passes(seed, config, link, request) && InTime(now, server.ttl, server.lastInstant, request.endpoint)
    ensures reply.Ack? ==>
              && reply.node == seed.node && reply.version == PROTOCOL_VERSION && reply.cluster == request.cluster
              && reply.format in SupportedFor(config.preferred)
              && reply.ttlMillis == Min(server.ttl / NANOS_PER_MILLI, MAX_U64)
              && reply.candidates == server.Response(node, request.maxResults)
  {
    var supported := SupportedFor(config.preferred);
    NodesAlwaysAgree(seed.preferred, config.preferred);
    NegotiateIsShared(seed.preferred, supported);
    var hello := Hello(node, PROTOCOL_VERSION, supported, request.cluster, request.endpoint, request.maxResults);
    reply := Serve(server, seed.enabled, seed.cluster, seed.node, seed.preferred, now, hello, link.seedTrusts);
  }

  /** The client accepts the seed's acknowledgement exactly when lease time and addresses allow it. */
  lemma AcceptedExactly(server: Server, config: ClientConfig, node: NodeId, request: Request, reply: Reply)
    requires server.Valid() && WellFormed(config, request)
    requires reply.Ack? && reply.version == PROTOCOL_VERSION && reply.cluster == request.cluster
    requires reply.format in SupportedFor(config.preferred)
    requires reply.ttlMillis == Min(server.ttl / NANOS_PER_MILLI, MAX_U64)
    requires reply.candidates == server.Response(node, request.maxResults)
    ensures var sent := reply.candidates;
            && ((Acceptable(config, request.cluster, request.maxResults, reply.format, reply) && CleanList(Canonicalize, sent)) <==>
                LifetimeFits(config, server.ttl) && AllDialable(sent))
            && forall images :: Images(Canonicalize, sent, images) ==> images == sent
  {
    ResponseIsClean(server.history, server.ttl, server.advertised, server.order, server.byNode, node, server.Limit(request.maxResults));
    MillisOf(server.ttl);
  }

  /**
   A query is acknowledged exactly when it passes and its lease can be represented. The client
   then accepts the reply if and only if the seed's lease time is at least a millisecond and in
   whole milliseconds within the client's bound, and no address in the list sent is undialable.
   It brings back that list unchanged.
   */
  method Query(server: Server, seed: Seed, now: nat, config: ClientConfig, link: Link, node: NodeId, request: Request)
    returns (r: QueryResult)
    requires server.Valid() && ValidConfig(config)
    modifies server`byNode, server`order, server`history
    ensures server.Valid()
    ensures server.byNode ==
            if Passes(seed, config, link, request)
            then Updated(old(server.byNode), server.ttl, server.Outcome(old(server.byNode), now, node, WordOf(request.endpoint)))
            else old(server.byNode)
    ensures var answered := && Passes(seed, config, link, request)
                            && InTime(now, server.ttl, server.lastInstant, request.endpoint)
                            && link.comesBack && link.clientTrusts;
            var sent := server.Response(node, request.maxResults);
            && (r == Failed <==> !answered)
            && (r.Found? <==> answered && LifetimeFits(config, server.ttl) && AllDialable(sent))
            && (r.Found? ==> r == Found(seed.node, sent, InMillis(server.ttl)))
  {
    var ok := CheckRequest(config, request);
    if !ok || !link.arrives { return Failed; }
    var reply := Ask(server, seed, now, config, link, node, request);
    if !reply.Ack? || !link.comesBack { return Failed; }
    AcceptedExactly(server, config, node, request, reply);
    r := CheckReply(config, request.cluster, request.maxResults, reply.format, reply, link.clientTrusts);
  }

  lemma OneLeaseIsSent(order: seq<NodeId>, byNode: map<NodeId, Lease>, n: NodeId, requester: NodeId, limit: nat)
    requires Lists(order, byNode) && byNode.Keys == {n} && n != requester && limit > 0
    ensures Cut(FirstOccurrences(Offers(None, order, byNode, requester)), limit) == [byNode[n].endpoint]
  {
    ListedCount(order, byNode.Keys);
    var c := byNode[n].endpoint;
    assert n in order;
    assert order == [n] && order[..0] == [];
    assert Others(order, byNode, requester) == [] + [c];
    assert Offers(None, order, byNode, requester) == [] + [c];
    FirstOccurrencesNext([], c);
  }

  const MINUTE: nat := 60_000_000_000

  lemma FirstLease(ttl: nat, n: NodeId, c: string)
    requires ttl > 0
    ensures Updated(map[], ttl, Asked(0, n, Offered(c), true)) == map[n := Lease(c, ttl)]
  {
    assert Pruned(map[], 0) == map[];
  }

  lemma LeaseStays(ttl: nat, n: NodeId, c: string, asker: NodeId)
    requires ttl > 1 && n != asker
    ensures Updated(map[n := Lease(c, ttl)], ttl, Asked(1, asker, Nothing, false)) == map[n := Lease(c, ttl)]
  {
  }

  /** A fresh seed with a minute's lease after node 1 has registered an endpoint. */
  method RegisteredSeed(text: string, ghost c: string) returns (server: Server)
    requires WordOf(Some(text)) == Offered(c)
    ensures fresh(server) && server.Valid() && server.ttl == MINUTE && server.lastInstant == MAX_U64 && server.maxResponse == 128
    ensures server.advertised == None && server.byNode == map[1 := Lease(c, MINUTE)]
  {
    server := new Server(1024, 128, MINUTE, MAX_U64, None);
    assert server.byNode == map[];
    FirstLease(MINUTE, 1, c);
    var r := server.Exchange(0, 1, Some(text), 1);
  }

  /**
   After one registration of an undialable address, such as a dotted unspecified one, the request
   of another node is acknowledged, and its client refuses the reply as invalid.
   */
  method UndialableLeaseFailsQuery(text: string, ghost c: string, cluster: string, preferred: Format, config: ClientConfig)
    returns (r: QueryResult)
    requires WordOf(Some(text)) == Offered(c) && UndialableEndpoint(c)
    requires ValidConfig(config) && ValidClusterId(cluster) && config.maxTtl >= MINUTE
    ensures r == InvalidResponse
  {
    var server := RegisteredSeed(text, c);
    LeaseStays(MINUTE, 1, c, 2);
    r := Query(server, Seed(0, cluster, preferred, true), 1, config, Link(true, true, true, true), 2, Request(cluster, None, 1));
    assert server.byNode == map[1 := Lease(c, MINUTE)];
    OneLeaseIsSent(server.order, server.byNode, 1, 2, server.Limit(1));
    assert server.Response(2, 1) == [c];
    assert c in [c];
  }

  lemma UndialableLeaseExists() returns (text: string, c: string)
    ensures WordOf(Some(text)) == Offered(c) && UndialableEndpoint(c)
  {
    text, c := Join(QuadText(0, 0) + ['.'], 1), Join(QuadText(0, 0), 1);
    ZerosAreUndialable();
    DottedIsAcceptedOnce(QuadText(0, 0), 1);
  }
}
