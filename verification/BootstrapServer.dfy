/** The seed's cache of leased candidate endpoints. Times are in nanoseconds. */
module BootstrapServer {
  import opened Basics
  import opened Endpoint
  import opened Folding

  const MAX_RESPONSE_CAPACITY: nat := 4096
  const MAX_CANDIDATE_TTL: nat := 300_000_000_000

  type NodeId = nat

  datatype Lease = Lease(endpoint: string, expiresAt: nat)

  // ----- What happened to the cache

  /** What a requester says of itself: nothing to offer, an unacceptable text, or a canonical endpoint. */
  datatype Word = Nothing | Unacceptable | Offered(endpoint: string)

  function WordOf(endpoint: Option<string>): Word {
    match endpoint
    case None => Nothing
    case Some(text) =>
      match Canonicalize(text)
      case Some(c) => Offered(c)
      case None => Unacceptable
  }

  /** `stored` tells whether the exchange wrote a lease; a requester with nothing to offer withdraws. */
  datatype Event =
    | Asked(now: nat, node: NodeId, word: Word, stored: bool)
    | Cleared

  /** Every endpoint ever offered was canonicalized on the way in. */
  ghost predicate Genuine(history: seq<Event>) {
    forall i :: 0 <= i < |history| && history[i].Asked? && history[i].word.Offered? ==> IsImage(history[i].word.endpoint)
  }

  lemma GenuineGrows(history: seq<Event>, e: Event)
    requires Genuine(history) && (e.Asked? && e.word.Offered? ==> IsImage(e.word.endpoint))
    ensures Genuine(history + [e])
  {
    var all := history + [e];
    forall i | 0 <= i < |all| && all[i].Asked? && all[i].word.Offered? ensures IsImage(all[i].word.endpoint) {
      if i < |history| { assert all[i] == history[i]; }
    }
  }

  lemma WordIsImage(endpoint: Option<string>)
    ensures WordOf(endpoint).Offered? ==> IsImage(WordOf(endpoint).endpoint)
  {
  }

  predicate Touches(e: Event, n: NodeId) {
    e.Cleared? || (e.node == n && (e.word.Nothing? || e.stored))
  }

  /** The event wrote this lease for the node. */
  predicate Wrote(e: Event, ttl: nat, n: NodeId, lease: Lease) {
    e.Asked? && e.stored && e.node == n && e.word == Offered(lease.endpoint) && lease.expiresAt == e.now + ttl
  }

  /** The event leaves a lease of the node in place: no later word of the node, and not expired yet. */
  predicate Spares(e: Event, n: NodeId, lease: Lease) {
    !Touches(e, n) && (e.Asked? ==> lease.expiresAt > e.now)
  }

  /** The lease was written by the i-th event and spared by all later ones. */
  ghost predicate Held(history: seq<Event>, ttl: nat, i: nat, n: NodeId, lease: Lease) {
    && i < |history| && Wrote(history[i], ttl, n, lease)
    && forall j :: i < j < |history| ==> Spares(history[j], n, lease)
  }

  /** The cache holds exactly the leases its history accounts for. */
  ghost predicate Accounts(history: seq<Event>, ttl: nat, byNode: map<NodeId, Lease>) {
    && (forall n :: n in byNode ==> exists i :: Held(history, ttl, i, n, byNode[n]))
    && (forall i, n, lease :: Held(history, ttl, i, n, lease) ==> n in byNode && byNode[n] == lease)
  }

  function Pruned(byNode: map<NodeId, Lease>, now: nat): map<NodeId, Lease> {
    map n | n in byNode && byNode[n].expiresAt > now :: byNode[n]
  }

  predicate Proper(e: Event) {
    e.Asked? && (e.stored ==> e.word.Offered?)
  }

  /** The leases after an exchange. */
  function Updated(byNode: map<NodeId, Lease>, ttl: nat, e: Event): map<NodeId, Lease>
    requires Proper(e)
  {
    var kept := Pruned(byNode, e.now);
    if e.word.Nothing? then kept - {e.node}
    else if e.stored then kept[e.node := Lease(e.word.endpoint, e.now + ttl)]
    else kept
  }

  lemma HeldAfter(history: seq<Event>, ttl: nat, e: Event, i: nat, n: NodeId, lease: Lease)
    ensures Held(history + [e], ttl, i, n, lease) <==>
            if i < |history| then Held(history, ttl, i, n, lease) && Spares(e, n, lease)
            else i == |history| && Wrote(e, ttl, n, lease)
  {
    var all := history + [e];
    assert forall j :: 0 <= j < |history| ==> all[j] == history[j];
    assert all[|history|] == e;
  }

  /** Every exchange keeps the cache accounted for, whatever order the clocks were read in. */
  lemma ExchangeAccounts(history: seq<Event>, ttl: nat, byNode: map<NodeId, Lease>, e: Event)
    requires Accounts(history, ttl, byNode) && Proper(e)
    ensures Accounts(history + [e], ttl, Updated(byNode, ttl, e))
  {
    var after := Updated(byNode, ttl, e);
    forall n | n in after ensures exists i :: Held(history + [e], ttl, i, n, after[n]) {
      if e.stored && n == e.node {
        HeldAfter(history, ttl, e, |history|, n, after[n]);
      } else {
        var i :| Held(history, ttl, i, n, byNode[n]);
        HeldAfter(history, ttl, e, i, n, after[n]);
      }
    }
    forall i, n, lease | Held(history + [e], ttl, i, n, lease) ensures n in after && after[n] == lease {
      HeldAfter(history, ttl, e, i, n, lease);
    }
  }

  lemma ClearAccounts(history: seq<Event>, ttl: nat)
    ensures Accounts(history + [Cleared], ttl, map[])
  {
    forall i, n, lease ensures !Held(history + [Cleared], ttl, i, n, lease) {
      HeldAfter(history, ttl, Cleared, i, n, lease);
    }
  }

  // ----- Admission order

  /** The members of a set, in the order they stand in. */
  function Retain(order: seq<NodeId>, keep: set<NodeId>): (r: seq<NodeId>)
    ensures forall n :: n in r <==> n in order && n in keep
    ensures Distinct(order) ==> Distinct(r)
  {
    if order == [] then [] else
      var rest := Retain(order[1..], keep);
      if order[0] in keep then [order[0]] + rest else rest
  }

  /** Members that stay keep their order. */
  lemma {:induction false} RetainKeepsOrder(order: seq<NodeId>, keep: set<NodeId>, p: nat, q: nat) returns (i: nat, j: nat)
    requires p < q < |Retain(order, keep)|
    ensures i < j < |order| && order[i] == Retain(order, keep)[p] && order[j] == Retain(order, keep)[q]
  {
    var rest := Retain(order[1..], keep);
    if order[0] in keep {
      if p == 0 {
        var x := rest[q - 1];
        assert x in rest && x in order[1..];
        var k :| 0 <= k < |order[1..]| && order[1..][k] == x;
        i, j := 0, k + 1;
      } else {
        i, j := RetainKeepsOrder(order[1..], keep, p - 1, q - 1);
        i, j := i + 1, j + 1;
      }
    } else {
      i, j := RetainKeepsOrder(order[1..], keep, p, q);
      i, j := i + 1, j + 1;
    }
  }

  /** The history accounts for the leases and for the order of the nodes. */
  ghost predicate Explains(history: seq<Event>, ttl: nat, byNode: map<NodeId, Lease>, order: seq<NodeId>) {
    Accounts(history, ttl, byNode) && Genuine(history) && ByStay(history, ttl, order)
  }

  // ----- How long a node has been there

  /** Some lease of the node, written and spared so far, has not ended at this time. */
  ghost predicate Alive(history: seq<Event>, ttl: nat, n: NodeId, now: nat) {
    exists i, lease :: Held(history, ttl, i, n, lease) && lease.expiresAt > now
  }

  /** The j-th event finds the node alive and leaves it so. */
  ghost predicate Stays(history: seq<Event>, ttl: nat, j: nat, n: NodeId)
    requires j < |history|
  {
    && history[j].Asked? && Alive(history[..j], ttl, n, history[j].now)
    && !(history[j].node == n && history[j].word.Nothing?)
  }

  /** The i-th event caches a node that was not there, or whose lease had ended. */
  ghost predicate Begins(history: seq<Event>, ttl: nat, i: nat, n: NodeId)
    requires i < |history|
  {
    history[i].Asked? && history[i].stored && history[i].node == n && !Alive(history[..i], ttl, n, history[i].now)
  }

  /** The node's unbroken stay in the cache began with the i-th event. */
  ghost predicate Since(history: seq<Event>, ttl: nat, i: nat, n: NodeId) {
    i < |history| && Begins(history, ttl, i, n) && forall j :: i < j < |history| ==> Stays(history, ttl, j, n)
  }

  ghost predicate IsThere(history: seq<Event>, ttl: nat, n: NodeId) {
    exists i :: Since(history, ttl, i, n)
  }

  /** The order is the order in which the stays began. */
  ghost predicate ByStay(history: seq<Event>, ttl: nat, order: seq<NodeId>) {
    && (forall p :: 0 <= p < |order| ==> IsThere(history, ttl, order[p]))
    && (forall p, q, i: nat, j: nat :: 0 <= p < q < |order| && Since(history, ttl, i, order[p]) && Since(history, ttl, j, order[q]) ==> i < j)
  }

  lemma SinceAfter(history: seq<Event>, ttl: nat, e: Event, i: nat, n: NodeId)
    ensures Since(history + [e], ttl, i, n) <==>
            if i < |history| then Since(history, ttl, i, n) && Stays(history + [e], ttl, |history|, n)
            else i == |history| && Begins(history + [e], ttl, |history|, n)
  {
    var all := history + [e];
    assert forall j :: 0 <= j < |history| ==> all[j] == history[j] && all[..j] == history[..j];
    if i < |history| {
      assert Begins(all, ttl, i, n) <==> Begins(history, ttl, i, n);
      assert forall j :: i < j < |history| ==> (Stays(all, ttl, j, n) <==> Stays(history, ttl, j, n));
    }
  }

  /** `order` lists the nodes of the cache, each once. */
  ghost predicate Lists(order: seq<NodeId>, byNode: map<NodeId, Lease>) {
    Distinct(order) && forall n :: n in order <==> n in byNode
  }

  lemma {:induction false} ListedCount(order: seq<NodeId>, nodes: set<NodeId>)
    requires Distinct(order) && (forall n :: n in order <==> n in nodes)
    ensures |order| == |nodes|
  {
    if order == [] {
      assert nodes == {};
    } else {
      assert order[0] in nodes;
      forall n ensures n in order[1..] <==> n in nodes - {order[0]} {
      }
      ListedCount(order[1..], nodes - {order[0]});
    }
  }

  // ----- The response

  /** Everything on offer, repeats included: the seed itself first, then the others as admitted. */
  function Offers(advertised: Option<string>, order: seq<NodeId>, byNode: map<NodeId, Lease>, requester: NodeId): seq<string>
  {
    (if advertised.Some? then [advertised.value] else []) + Others(order, byNode, requester)
  }

  function Others(order: seq<NodeId>, byNode: map<NodeId, Lease>, requester: NodeId): seq<string> {
    if order == [] then []
    else Others(order[..|order| - 1], byNode, requester) + Offer(order[|order| - 1], byNode, requester)
  }

  function Offer(n: NodeId, byNode: map<NodeId, Lease>, requester: NodeId): seq<string> {
    if n != requester && n in byNode then [byNode[n].endpoint] else []
  }

  /** First occurrences only. */
  function FirstOccurrences(s: seq<string>): seq<string> {
    if s == [] then []
    else
      var rest := FirstOccurrences(s[..|s| - 1]);
      if s[|s| - 1] in rest then rest else rest + [s[|s| - 1]]
  }

  lemma {:induction false} FirstOccurrencesHold(s: seq<string>)
    ensures Distinct(FirstOccurrences(s)) && |FirstOccurrences(s)| <= |s|
    ensures forall x :: x in FirstOccurrences(s) <==> x in s
  {
    if s == [] {
    } else {
      FirstOccurrencesHold(s[..|s| - 1]);
      assert s == s[..|s| - 1] + [s[|s| - 1]];
    }
  }

  lemma {:induction false} FirstOccurrencesGrow(s: seq<string>, t: seq<string>)
    ensures FirstOccurrences(s) <= FirstOccurrences(s + t)
    decreases |t|
  {
    if t == [] {
      assert s + t == s;
    } else {
      FirstOccurrencesGrow(s, t[..|t| - 1]);
      assert (s + t)[..|s + t| - 1] == s + t[..|t| - 1];
    }
  }

  function Cut(s: seq<string>, limit: nat): seq<string> {
    s[..Min(limit, |s|)]
  }

  /** The space reserved for a response; the subtraction stays non-negative. */
  function Available(advertised: Option<string>, byNode: map<NodeId, Lease>, requester: NodeId): int {
    |byNode| - (if requester in byNode then 1 else 0) + (if advertised.Some? then 1 else 0)
  }

  lemma {:induction false} OthersCount(order: seq<NodeId>, byNode: map<NodeId, Lease>, requester: NodeId)
    requires Distinct(order) && forall n :: n in order ==> n in byNode
    ensures |Others(order, byNode, requester)| == |order| - (if requester in order then 1 else 0)
  {
    if order == [] {
    } else {
      var last, rest := order[|order| - 1], order[..|order| - 1];
      OthersCount(rest, byNode, requester);
      assert order == rest + [last];
    }
  }

  /** A response never outgrows its reservation, names nobody twice, and is full or complete. */
  lemma ResponseFits(advertised: Option<string>, order: seq<NodeId>, byNode: map<NodeId, Lease>, requester: NodeId, limit: nat)
    requires Lists(order, byNode)
    ensures |byNode| >= (if requester in byNode then 1 else 0)
    ensures var r := Cut(FirstOccurrences(Offers(advertised, order, byNode, requester)), limit);
            && Distinct(r) && |r| <= limit && |r| <= Available(advertised, byNode, requester)
            && (|r| < limit ==> forall x :: x in r <==> x in Offers(advertised, order, byNode, requester))
  {
    ListedCount(order, byNode.Keys);
    OthersCount(order, byNode, requester);
    var offers := Offers(advertised, order, byNode, requester);
    FirstOccurrencesHold(offers);
    if |FirstOccurrences(offers)| <= limit { assert Cut(FirstOccurrences(offers), limit) == FirstOccurrences(offers); }
  }

  lemma OffersGrow(advertised: Option<string>, order: seq<NodeId>, i: nat, byNode: map<NodeId, Lease>, requester: NodeId)
    requires i < |order|
    ensures Offers(advertised, order[..i + 1], byNode, requester)
         == Offers(advertised, order[..i], byNode, requester) + Offer(order[i], byNode, requester)
    ensures Offer(order[i], byNode, requester) == [] ==>
              Offers(advertised, order[..i + 1], byNode, requester) == Offers(advertised, order[..i], byNode, requester)
  {
    assert order[..i + 1][..i] == order[..i];
  }

  lemma {:induction false} OffersBegin(advertised: Option<string>, order: seq<NodeId>, i: nat, byNode: map<NodeId, Lease>,
                                       requester: NodeId)
    requires i <= |order|
    ensures FirstOccurrences(Offers(advertised, order[..i], byNode, requester))
         <= FirstOccurrences(Offers(advertised, order, byNode, requester))
    decreases |order| - i
  {
    if i < |order| {
      OffersGrow(advertised, order, i, byNode, requester);
      OffersBegin(advertised, order, i + 1, byNode, requester);
      FirstOccurrencesGrow(Offers(advertised, order[..i], byNode, requester), Offer(order[i], byNode, requester));
    } else {
      assert order[..i] == order;
    }
  }

  /** The response loop over nodes in admission order, from what is already listed. */
  method Respond(advertised: Option<string>, order: seq<NodeId>, byNode: map<NodeId, Lease>, requester: NodeId, limit: nat)
    returns (endpoints: seq<string>)
    ensures endpoints == Cut(FirstOccurrences(Offers(advertised, order, byNode, requester)), limit)
  {
    endpoints := [];
    var seen := {};
    if limit > 0 && advertised.Some? {
      endpoints, seen := [advertised.value], {advertised.value};
    }
    StartOfOffers(advertised, byNode, requester);
    for i := 0 to |order|
      invariant |endpoints| <= limit
      invariant forall x :: x in seen <==> x in endpoints
      invariant limit > 0 ==> endpoints == NewOffers(advertised, order, i, byNode, requester)
    {
      OffersBegin(advertised, order, i, byNode, requester);
      if |endpoints| >= limit { return; }
      NewOffersStep(advertised, order, i, byNode, requester);
      if order[i] == requester || order[i] !in byNode { continue; }
      var endpoint := byNode[order[i]].endpoint;
      if endpoint !in seen {
        endpoints, seen := endpoints + [endpoint], seen + {endpoint};
      }
    }
    assert order[..|order|] == order;
  }

  function NewOffers(advertised: Option<string>, order: seq<NodeId>, i: nat, byNode: map<NodeId, Lease>, requester: NodeId): seq<string>
    requires i <= |order|
  {
    FirstOccurrences(Offers(advertised, order[..i], byNode, requester))
  }

  lemma StartOfOffers(advertised: Option<string>, byNode: map<NodeId, Lease>, requester: NodeId)
    ensures FirstOccurrences(Offers(advertised, [], byNode, requester)) == if advertised.Some? then [advertised.value] else []
  {
    if advertised.Some? {
      FirstOccurrencesNext([], advertised.value);
      assert Offers(advertised, [], byNode, requester) == [] + [advertised.value];
    }
  }

  lemma NewOffersStep(advertised: Option<string>, order: seq<NodeId>, i: nat, byNode: map<NodeId, Lease>, requester: NodeId)
    requires i < |order|
    ensures var before := NewOffers(advertised, order, i, byNode, requester);
            NewOffers(advertised, order, i + 1, byNode, requester) ==
              if order[i] == requester || order[i] !in byNode || byNode[order[i]].endpoint in before then before
              else before + [byNode[order[i]].endpoint]
  {
    OffersGrow(advertised, order, i, byNode, requester);
    if order[i] != requester && order[i] in byNode {
      FirstOccurrencesNext(Offers(advertised, order[..i], byNode, requester), byNode[order[i]].endpoint);
    }
  }

  lemma FirstOccurrencesNext(s: seq<string>, x: string)
    ensures FirstOccurrences(s + [x]) == if x in FirstOccurrences(s) then FirstOccurrences(s) else FirstOccurrences(s) + [x]
  {
    assert (s + [x])[..|s|] == s;
  }

  // ----- The response, by position

  /** What a response is made from. */
  datatype Board = Board(advertised: Option<string>, order: seq<NodeId>, byNode: map<NodeId, Lease>, requester: NodeId)

  /** Position 0 is the seed's own endpoint, position p > 0 the endpoint of the p-th node, unless it asks itself. */
  predicate OfferedAt(b: Board, x: string, p: nat) {
    || (p == 0 && b.advertised == Some(x))
    || (0 < p <= |b.order| && b.order[p - 1] != b.requester && b.order[p - 1] in b.byNode && b.byNode[b.order[p - 1]].endpoint == x)
  }

  ghost predicate FirstAt(b: Board, x: string, p: nat) {
    OfferedAt(b, x, p) && forall q :: 0 <= q < p ==> !OfferedAt(b, x, q)
  }

  ghost predicate FirstWithin(b: Board, x: string, n: nat) {
    exists p: nat :: p <= n && FirstAt(b, x, p)
  }

  /** The list holds what is offered at the first positions, each at its first one, in their order. */
  ghost predicate ListsOffers(b: Board, n: nat, l: seq<string>) {
    && (forall k :: 0 <= k < |l| ==> FirstWithin(b, l[k], n))
    && (forall k, m, p: nat, q: nat :: 0 <= k < m < |l| && FirstAt(b, l[k], p) && FirstAt(b, l[m], q) ==> p < q)
    && (forall x, p: nat :: p <= n && OfferedAt(b, x, p) ==> x in l)
  }

  lemma OffersStart(b: Board)
    ensures ListsOffers(b, 0, NewOffers(b.advertised, b.order, 0, b.byNode, b.requester))
  {
    assert b.order[..0] == [];
    StartOfOffers(b.advertised, b.byNode, b.requester);
    if b.advertised.Some? { assert FirstAt(b, b.advertised.value, 0); }
  }

  /** Passing over a position that offers nothing new. */
  lemma OffersSkip(b: Board, n: nat, l: seq<string>)
    requires ListsOffers(b, n, l) && forall x :: OfferedAt(b, x, n + 1) ==> x in l
    ensures ListsOffers(b, n + 1, l)
  {
    forall k | 0 <= k < |l| ensures FirstWithin(b, l[k], n + 1) {
      assert FirstWithin(b, l[k], n);
    }
    forall x, p: nat | p <= n + 1 && OfferedAt(b, x, p) ensures x in l {
      if p <= n { assert OfferedAt(b, x, p); }
    }
  }

  lemma OffersAdd(b: Board, n: nat, l: seq<string>, x: string)
    requires ListsOffers(b, n, l) && OfferedAt(b, x, n + 1) && x !in l
    ensures ListsOffers(b, n + 1, l + [x])
  {
    assert forall p: nat :: p <= n ==> !OfferedAt(b, x, p);
    assert FirstAt(b, x, n + 1);
    var more := l + [x];
    forall k | 0 <= k < |more| ensures FirstWithin(b, more[k], n + 1) {
      if k < |l| { assert more[k] == l[k] && FirstWithin(b, l[k], n); }
    }
    forall k, m, p: nat, q: nat | 0 <= k < m < |more| && FirstAt(b, more[k], p) && FirstAt(b, more[m], q) ensures p < q {
      assert more[k] == l[k] && FirstWithin(b, l[k], n);
      if m < |l| {
        assert more[m] == l[m];
      } else {
        var r: nat :| r <= n && FirstAt(b, l[k], r);
        assert r == p && q == n + 1;
      }
    }
    forall y, p: nat | p <= n + 1 && OfferedAt(b, y, p) ensures y in more {
      if p <= n { assert y in l; }
    }
  }

  /** What the list becomes at the next node in line. */
  function Following(b: Board, n: nat, l: seq<string>): seq<string>
    requires n < |b.order|
  {
    var node := b.order[n];
    if node == b.requester || node !in b.byNode || b.byNode[node].endpoint in l then l
    else l + [b.byNode[node].endpoint]
  }

  lemma OffersNext(b: Board, n: nat, l: seq<string>)
    requires n < |b.order| && ListsOffers(b, n, l)
    ensures ListsOffers(b, n + 1, Following(b, n, l))
  {
    var node := b.order[n];
    if node == b.requester || node !in b.byNode || b.byNode[node].endpoint in l {
      OffersSkip(b, n, l);
    } else {
      OffersAdd(b, n, l, b.byNode[node].endpoint);
    }
  }

  lemma {:induction false} OffersAlong(b: Board, lists: seq<seq<string>>, n: nat)
    requires n < |lists| <= |b.order| + 1 && ListsOffers(b, 0, lists[0])
    requires forall i :: 0 <= i < |lists| - 1 ==> lists[i + 1] == Following(b, i, lists[i])
    ensures ListsOffers(b, n, lists[n])
  {
    if n == 0 {
    } else {
      OffersAlong(b, lists, n - 1);
      OffersNext(b, n - 1, lists[n - 1]);
      assert lists[n - 1 + 1] == Following(b, n - 1, lists[n - 1]);
    }
  }

  lemma OffersUpTo(b: Board, n: nat)
    requires n <= |b.order|
    ensures ListsOffers(b, n, NewOffers(b.advertised, b.order, n, b.byNode, b.requester))
  {
    var lists := seq(n + 1, i requires 0 <= i <= n => NewOffers(b.advertised, b.order, i, b.byNode, b.requester));
    OffersStart(b);
    forall i | 0 <= i < n ensures lists[i + 1] == Following(b, i, lists[i]) {
      NewOffersStep(b.advertised, b.order, i, b.byNode, b.requester);
    }
    OffersAlong(b, lists, n);
  }

  /**
   A response lists endpoints in the order of the positions that first offer them, the seed's own
   first, and leaves out only what comes behind a full list.
   */
  lemma ResponseInOrder(b: Board, limit: nat)
    ensures var r := Cut(FirstOccurrences(Offers(b.advertised, b.order, b.byNode, b.requester)), limit);
            && |r| <= limit && (forall k :: 0 <= k < |r| ==> FirstWithin(b, r[k], |b.order|))
            && (forall k, m, p: nat, q: nat :: 0 <= k < m < |r| && FirstAt(b, r[k], p) && FirstAt(b, r[m], q) ==> p < q)
            && (forall x, p: nat :: FirstAt(b, x, p) && x !in r ==>
                  |r| == limit && forall k, q: nat :: 0 <= k < |r| && FirstAt(b, r[k], q) ==> q < p)
  {
    OffersUpTo(b, |b.order|);
    assert b.order[..|b.order|] == b.order;
    var l := FirstOccurrences(Offers(b.advertised, b.order, b.byNode, b.requester));
    var r := Cut(l, limit);
    assert forall k :: 0 <= k < |r| ==> r[k] == l[k];
    forall x, p: nat | FirstAt(b, x, p) && x !in r
      ensures |r| == limit && forall k, q: nat :: 0 <= k < |r| && FirstAt(b, r[k], q) ==> q < p
    {
      assert x in l;
      var m :| 0 <= m < |l| && l[m] == x;
      assert m >= |r|;
    }
  }

  // ----- The server

  datatype ExchangeResult = Candidates(endpoints: seq<string>) | BadEndpoint | DeadlineOverflow

  class Server {
    const maxCached: nat
    const maxResponse: nat
    const ttl: nat
    const lastInstant: nat
    var advertised: Option<string>
    var byNode: map<NodeId, Lease>
    var order: seq<NodeId>
    ghost var history: seq<Event>

    ghost predicate Valid()
      reads this
    {
      && Lists(order, byNode) && |byNode| <= maxCached && (advertised.Some? ==> IsImage(advertised.value))
      && Explains(history, ttl, byNode, order)
    }

    constructor (maxCached: nat, maxResponse: nat, ttl: nat, lastInstant: nat, advertised: Option<string>)
      requires maxCached > 0 && 1 <= maxResponse <= MAX_RESPONSE_CAPACITY && 1 <= ttl <= MAX_CANDIDATE_TTL
      requires advertised.Some? ==> IsImage(advertised.value)
      ensures Valid() && history == [] && byNode == map[] && this.advertised == advertised
      ensures this.maxCached == maxCached && this.maxResponse == maxResponse && this.ttl == ttl && this.lastInstant == lastInstant
    {
      this.maxCached, this.maxResponse, this.ttl, this.lastInstant := maxCached, maxResponse, ttl, lastInstant;
      this.advertised, byNode, order, history := advertised, map[], [], [];
    }

    method Announce(endpoint: string) returns (ok: bool)
      requires Valid()
      modifies this`advertised
      ensures Valid() && ok == Canonicalize(endpoint).Some?
      ensures advertised == if ok then Canonicalize(endpoint) else old(advertised)
    {
      var c := Canonicalize(endpoint);
      ok := c.Some?;
      if ok { advertised := c; }
    }

    method Withdraw()
      requires Valid()
      modifies this`advertised
      ensures Valid() && advertised == None
    {
      advertised := None;
    }

    method Clear()
      requires Valid()
      modifies this
      ensures Valid() && advertised == None && byNode == map[] && history == old(history) + [Cleared]
    {
      ClearAccounts(history, ttl);
      GenuineGrows(history, Cleared);
      advertised, byNode, order, history := None, map[], [], history + [Cleared];
    }

    method PruneExpired(now: nat)
      requires Lists(order, byNode)
      modifies this`byNode, this`order
      ensures byNode == Pruned(old(byNode), now) && Lists(order, byNode)
      ensures order == Retain(old(order), Pruned(old(byNode), now).Keys)
      ensures |byNode| <= |old(byNode)|
    {
      byNode := Pruned(byNode, now);
      order := Retain(order, byNode.Keys);
      SubsetCount(byNode.Keys, old(byNode).Keys);
    }

    /** Whether an endpoint of this node can be written into the pruned cache. */
    predicate Admits(byNode: map<NodeId, Lease>, node: NodeId) {
      node in byNode || |byNode| < maxCached
    }

    /** The event an exchange leaves behind. */
    function Outcome(byNode: map<NodeId, Lease>, now: nat, requester: NodeId, word: Word): (e: Event)
      ensures Proper(e)
    {
      Asked(now, requester, word,
            word.Offered? && now + ttl <= lastInstant && Admits(Pruned(byNode, now), requester))
    }

    /** A lease is written exactly for an acceptable offer in time, of a node that is there or finds room. */
    lemma StoredExactly(byNode: map<NodeId, Lease>, now: nat, requester: NodeId, word: Word)
      ensures var live := set n | n in byNode && byNode[n].expiresAt > now;
              Outcome(byNode, now, requester, word) ==
                Asked(now, requester, word, word.Offered? && now + ttl <= lastInstant && (requester in live || |live| < maxCached))
    {
      assert Pruned(byNode, now).Keys == set n | n in byNode && byNode[n].expiresAt > now;
    }

    function Limit(requested: nat): (n: nat)
      ensures n <= requested && n <= maxResponse && n <= 4096 && (n == requested || n == maxResponse || n == 4096)
    {
      Min(Min(requested, maxResponse), MAX_RESPONSE_CAPACITY)
    }

    /** The distinct endpoints on offer to a node, cut at the limit. */
    ghost function Response(requester: NodeId, requested: nat): seq<string>
      reads this`advertised, this`order, this`byNode
    {
      Cut(FirstOccurrences(Offers(advertised, order, byNode, requester)), Limit(requested))
    }

    /** The leases and their order after an exchange. */
    ghost predicate Exchanged(byNode0: map<NodeId, Lease>, order0: seq<NodeId>, e: Event)
      requires Proper(e)
      reads this`byNode, this`order
    {
      && byNode == Updated(byNode0, ttl, e)
      && order == Admitted(Retain(order0, Survivors(byNode0, e)), byNode, e.node)
    }

    method Exchange(now: nat, requester: NodeId, endpoint: Option<string>, requested: nat) returns (r: ExchangeResult)
      requires Valid()
      modifies this`byNode, this`order, this`history
      ensures Valid()
      ensures var e := Outcome(old(byNode), now, requester, WordOf(endpoint));
              Exchanged(old(byNode), old(order), e) && history == old(history) + [e]
      ensures r == BadEndpoint <==> WordOf(endpoint).Unacceptable?
      ensures r == DeadlineOverflow <==> WordOf(endpoint).Offered? && now + ttl > lastInstant
      ensures r.Candidates? ==>
                r.endpoints == Cut(FirstOccurrences(Offers(advertised, order, byNode, requester)), Limit(requested))
    {
      WordIsImage(endpoint);
      r := ExchangeWord(now, requester, WordOf(endpoint), requested);
    }

    method ExchangeWord(now: nat, requester: NodeId, word: Word, requested: nat) returns (r: ExchangeResult)
      requires Valid() && (word.Offered? ==> IsImage(word.endpoint))
      modifies this`byNode, this`order, this`history
      ensures Valid()
      ensures var e := Outcome(old(byNode), now, requester, word);
              Exchanged(old(byNode), old(order), e) && history == old(history) + [e]
      ensures r == BadEndpoint <==> word.Unacceptable?
      ensures r == DeadlineOverflow <==> word.Offered? && now + ttl > lastInstant
      ensures r.Candidates? ==>
                r.endpoints == Cut(FirstOccurrences(Offers(advertised, order, byNode, requester)), Limit(requested))
    {
      var refused := Record(now, requester, word);
      if refused.Some? { return refused.value; }
      var endpoints := Respond(advertised, order, byNode, requester, Limit(requested));
      r := Candidates(endpoints);
    }

    /** The first part of an exchange: the cache and the history move on. */
    method Record(now: nat, requester: NodeId, word: Word) returns (refused: Option<ExchangeResult>)
      requires Valid() && (word.Offered? ==> IsImage(word.endpoint))
      modifies this`byNode, this`order, this`history
      ensures Valid()
      ensures var e := Outcome(old(byNode), now, requester, word);
              Exchanged(old(byNode), old(order), e) && history == old(history) + [e]
      ensures refused ==
              if word.Unacceptable? then Some(BadEndpoint)
              else if word.Offered? && now + ttl > lastInstant then Some(DeadlineOverflow)
              else None
    {
      ghost var e := Outcome(byNode, now, requester, word);
      ExchangeExplains(history, ttl, byNode, order, e);
      history := history + [e];
      refused := Update(now, requester, word);
    }

    method Update(now: nat, requester: NodeId, word: Word) returns (refused: Option<ExchangeResult>)
      requires Lists(order, byNode) && |byNode| <= maxCached
      modifies this`byNode, this`order
      ensures Lists(order, byNode) && |byNode| <= maxCached
      ensures Exchanged(old(byNode), old(order), Outcome(old(byNode), now, requester, word))
      ensures refused ==
              if word.Unacceptable? then Some(BadEndpoint)
              else if word.Offered? && now + ttl > lastInstant then Some(DeadlineOverflow)
              else None
    {
      PruneExpired(now);
      match word {
        case Unacceptable => return Some(BadEndpoint);
        case Offered(endpoint) =>
          if now + ttl > lastInstant { return Some(DeadlineOverflow); }
          Write(requester, Lease(endpoint, now + ttl));
        case Nothing =>
          RetainTwice(old(order), byNode.Keys, byNode.Keys - {requester});
          Forget(requester);
      }
      return None;
    }

    method Write(node: NodeId, lease: Lease)
      requires Lists(order, byNode) && |byNode| <= maxCached
      modifies this`byNode, this`order
      ensures Lists(order, byNode) && |byNode| <= maxCached
      ensures byNode ==
              if node in old(byNode) || |old(byNode)| < maxCached then old(byNode)[node := lease] else old(byNode)
      ensures order == old(order) + (if node !in old(byNode) && |old(byNode)| < maxCached then [node] else [])
    {
      if node in byNode {
        byNode := byNode[node := lease];
      } else if |byNode| < maxCached {
        order := order + [node];
        byNode := byNode[node := lease];
      }
    }

    method Forget(node: NodeId)
      requires Lists(order, byNode) && |byNode| <= maxCached
      modifies this`byNode, this`order
      ensures Lists(order, byNode) && |byNode| <= maxCached
      ensures byNode == old(byNode) - {node} && order == Retain(old(order), old(byNode).Keys - {node})
    {
      byNode := byNode - {node};
      order := Retain(order, byNode.Keys);
      SubsetCount(byNode.Keys, old(byNode).Keys);
    }
  }

  /** The nodes an exchange neither finds expired nor withdraws. */
  function Survivors(byNode: map<NodeId, Lease>, e: Event): set<NodeId>
    requires e.Asked?
  {
    var kept := Pruned(byNode, e.now).Keys;
    if e.word.Nothing? then kept - {e.node} else kept
  }

  lemma {:induction false} RetainTwice(order: seq<NodeId>, a: set<NodeId>, b: set<NodeId>)
    requires b <= a
    ensures Retain(Retain(order, a), b) == Retain(order, b)
  {
    if order == [] {
    } else {
      RetainTwice(order[1..], a, b);
    }
  }

  /** A node not listed yet goes to the end. */
  function Admitted(order: seq<NodeId>, byNode: map<NodeId, Lease>, n: NodeId): seq<NodeId> {
    if n in byNode && n !in order then order + [n] else order
  }

  lemma AliveIsCached(history: seq<Event>, ttl: nat, byNode: map<NodeId, Lease>, n: NodeId, now: nat)
    requires Accounts(history, ttl, byNode)
    ensures Alive(history, ttl, n, now) <==> n in byNode && byNode[n].expiresAt > now
  {
    if n in byNode && byNode[n].expiresAt > now {
      var i :| Held(history, ttl, i, n, byNode[n]);
    }
  }

  lemma SurvivorStays(history: seq<Event>, ttl: nat, byNode: map<NodeId, Lease>, e: Event, n: NodeId)
    requires Accounts(history, ttl, byNode) && Proper(e) && n in Survivors(byNode, e)
    ensures forall i: nat :: Since(history + [e], ttl, i, n) <==> Since(history, ttl, i, n)
  {
    var all := history + [e];
    assert all[..|history|] == history;
    AliveIsCached(history, ttl, byNode, n, e.now);
    assert Stays(all, ttl, |history|, n) && !Begins(all, ttl, |history|, n);
    forall i: nat ensures Since(all, ttl, i, n) <==> Since(history, ttl, i, n) { SinceAfter(history, ttl, e, i, n); }
  }

  lemma NewcomerBegins(history: seq<Event>, ttl: nat, byNode: map<NodeId, Lease>, e: Event)
    requires Accounts(history, ttl, byNode) && Proper(e)
    requires e.node !in Survivors(byNode, e) && e.node in Updated(byNode, ttl, e)
    ensures forall i: nat :: Since(history + [e], ttl, i, e.node) <==> i == |history|
  {
    var all := history + [e];
    assert all[..|history|] == history;
    AliveIsCached(history, ttl, byNode, e.node, e.now);
    assert Begins(all, ttl, |history|, e.node) && !Stays(all, ttl, |history|, e.node);
    forall i: nat ensures Since(all, ttl, i, e.node) <==> i == |history| { SinceAfter(history, ttl, e, i, e.node); }
  }

  lemma RetainKeepsStays(history: seq<Event>, ttl: nat, byNode: map<NodeId, Lease>, order: seq<NodeId>, e: Event)
    requires Accounts(history, ttl, byNode) && ByStay(history, ttl, order) && Proper(e)
    ensures ByStay(history + [e], ttl, Retain(order, Survivors(byNode, e)))
  {
    var keep := Survivors(byNode, e);
    var kept := Retain(order, keep);
    forall p | 0 <= p < |kept|
      ensures kept[p] in keep && kept[p] in order && IsThere(history + [e], ttl, kept[p])
    {
      assert kept[p] in kept;
      SurvivorStays(history, ttl, byNode, e, kept[p]);
      var k :| 0 <= k < |order| && order[k] == kept[p];
      assert IsThere(history, ttl, order[k]);
    }
    forall p, q, i: nat, j: nat | 0 <= p < q < |kept| && Since(history + [e], ttl, i, kept[p]) && Since(history + [e], ttl, j, kept[q])
      ensures i < j
    {
      SurvivorStays(history, ttl, byNode, e, kept[p]);
      SurvivorStays(history, ttl, byNode, e, kept[q]);
      var k, l := RetainKeepsOrder(order, keep, p, q);
    }
  }

  /** An exchange keeps the nodes in the order of their stays. */
  lemma ExchangeKeepsStays(history: seq<Event>, ttl: nat, byNode: map<NodeId, Lease>, order: seq<NodeId>, e: Event)
    requires Accounts(history, ttl, byNode) && Lists(order, byNode) && ByStay(history, ttl, order) && Proper(e)
    ensures ByStay(history + [e], ttl, Admitted(Retain(order, Survivors(byNode, e)), Updated(byNode, ttl, e), e.node))
  {
    var all, kept := history + [e], Retain(order, Survivors(byNode, e));
    RetainKeepsStays(history, ttl, byNode, order, e);
    if e.node in Updated(byNode, ttl, e) && e.node !in kept {
      var after := kept + [e.node];
      NewcomerBegins(history, ttl, byNode, e);
      forall p, q, i: nat, j: nat | 0 <= p < q < |after| && Since(all, ttl, i, after[p]) && Since(all, ttl, j, after[q]) ensures i < j {
        if q == |kept| {
          assert after[p] == kept[p] && kept[p] in kept;
          SurvivorStays(history, ttl, byNode, e, kept[p]);
        } else {
          assert after[p] == kept[p] && after[q] == kept[q];
        }
      }
      forall p | 0 <= p < |after| ensures IsThere(all, ttl, after[p]) {
        if p < |kept| { assert after[p] == kept[p]; } else { assert Since(all, ttl, |history|, after[p]); }
      }
    }
  }

  lemma ExchangeExplains(history: seq<Event>, ttl: nat, byNode: map<NodeId, Lease>, order: seq<NodeId>, e: Event)
    requires Explains(history, ttl, byNode, order) && Lists(order, byNode) && Proper(e)
    requires e.word.Offered? ==> IsImage(e.word.endpoint)
    ensures Explains(history + [e], ttl, Updated(byNode, ttl, e),
                     Admitted(Retain(order, Survivors(byNode, e)), Updated(byNode, ttl, e), e.node))
  {
    ExchangeAccounts(history, ttl, byNode, e);
    ExchangeKeepsStays(history, ttl, byNode, order, e);
    GenuineGrows(history, e);
  }

  /**
   Of two nodes in the cache, the one stands before the other whose present unbroken stay began
   with the earlier event.
   */
  lemma StandsBefore(history: seq<Event>, ttl: nat, order: seq<NodeId>, p: nat, q: nat)
    requires ByStay(history, ttl, order) && Distinct(order) && p < |order| && q < |order|
    ensures exists i, j :: Since(history, ttl, i, order[p]) && Since(history, ttl, j, order[q]) && (p < q <==> i < j)
  {
    assert IsThere(history, ttl, order[p]) && IsThere(history, ttl, order[q]);
    var i :| Since(history, ttl, i, order[p]);
    var j :| Since(history, ttl, j, order[q]);
    assert p == q ==> Since(history, ttl, i, order[q]);
    if p == q { assert Since(history, ttl, i, order[q]) && (p < q <==> i < i); }
  }

  lemma {:induction false} SubsetCount<T>(a: set<T>, b: set<T>)
    requires a <= b
    ensures |a| <= |b|
  {
    if x :| x in a {
      SubsetCount(a - {x}, b - {x});
    }
  }
}
