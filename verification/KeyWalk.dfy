/** A client that follows `next_cursor` to the end while the store changes between its requests. */
module KeyWalk {
  import opened Basics
  import opened ByteOrder
  import opened OrderedStore
  import opened KeyListing

  /** One request: the store it met and the page it got. */
  datatype Visit = Visit(rows: seq<Row>, items: seq<Bytes>, next: Option<Bytes>)

  ghost predicate IsWalk(prefix: Bytes, cursor: Option<Bytes>, visits: seq<Visit>)
    decreases |visits|
  {
    visits == [] ||
    (&& Ordered(visits[0].rows)
     && IsPage(Listing(visits[0].rows, prefix, cursor), visits[0].items, visits[0].next)
     && (|visits| > 1 ==> visits[0].next.Some? && IsWalk(prefix, visits[0].next, visits[1..])))
  }

  predicate Finished(visits: seq<Visit>) {
    visits != [] && visits[|visits| - 1].next.None?
  }

  function Received(visits: seq<Visit>): seq<Bytes> {
    if visits == [] then [] else visits[0].items + Received(visits[1..])
  }

  /** The key is in the store at every request of the walk. */
  ghost predicate AlwaysThere(visits: seq<Visit>, k: Bytes) {
    forall i :: 0 <= i < |visits| ==> k in Keys(visits[i].rows)
  }

  lemma KeysHold(rows: seq<Row>, k: Bytes)
    ensures k in Keys(rows) <==> exists r :: r in rows && r.key == k
  {
    if k in Keys(rows) {
      var i :| 0 <= i < |rows| && Keys(rows)[i] == k;
      assert rows[i] in rows;
    }
    if r :| r in rows && r.key == k {
      var i :| 0 <= i < |rows| && rows[i] == r;
      assert Keys(rows)[i] == k;
    }
  }

  lemma ListingHas(rows: seq<Row>, prefix: Bytes, cursor: Option<Bytes>, k: Bytes)
    ensures k in Listing(rows, prefix, cursor) <==> k in Keys(rows) && Visible(KeyQuery(prefix), k) && After(k, cursor)
  {
    KeysHold(rows, k);
    KeysHold(Select(rows, KeyQuery(prefix), cursor), k);
    SelectHolds(rows, KeyQuery(prefix), cursor);
  }

  lemma ListingHolds(rows: seq<Row>, prefix: Bytes, cursor: Option<Bytes>)
    requires Ordered(rows)
    ensures Ascending(Listing(rows, prefix, cursor))
    ensures forall k :: k in Listing(rows, prefix, cursor) <==>
                          k in Keys(rows) && Visible(KeyQuery(prefix), k) && After(k, cursor)
  {
    SelectHolds(rows, KeyQuery(prefix), cursor);
    forall k ensures k in Listing(rows, prefix, cursor) <==>
                       k in Keys(rows) && Visible(KeyQuery(prefix), k) && After(k, cursor) {
      ListingHas(rows, prefix, cursor, k);
    }
  }

  /** What a page leaves out lies above its cursor, and what comes later lies above the page. */
  lemma PageSplits(all: seq<Bytes>, items: seq<Bytes>, next: Option<Bytes>, k: Bytes)
    requires Ascending(all) && IsPage(all, items, next)
    ensures Ascending(items) && forall x :: x in items ==> x in all
    ensures k in all ==> k in items || (next.Some? && Less(next.value, k))
    ensures next.Some? ==> next.value in all
    ensures next.Some? && Less(next.value, k) ==> forall x :: x in items ==> Less(x, k)
  {
    if next.Some? {
      forall x | x in items && Less(next.value, k) ensures Less(x, k) {
        if x != next.value { LessTransitive(x, next.value, k); }
      }
      if k in all && k !in items {
        var i :| 0 <= i < |all| && all[i] == k;
        assert i >= |items|;
      }
    }
  }

  /** Everything received lies above the cursor and was visible in the store that was asked. */
  lemma {:induction false} ReceivedIsGenuine(prefix: Bytes, cursor: Option<Bytes>, visits: seq<Visit>, k: Bytes)
    requires IsWalk(prefix, cursor, visits) && k in Received(visits)
    ensures After(k, cursor) && Visible(KeyQuery(prefix), k)
    ensures exists i :: 0 <= i < |visits| && k in Keys(visits[i].rows)
    decreases |visits|
  {
    var first := visits[0];
    ListingHolds(first.rows, prefix, cursor);
    PageSplits(Listing(first.rows, prefix, cursor), first.items, first.next, k);
    if k !in first.items {
      ReceivedIsGenuine(prefix, first.next, visits[1..], k);
      var i :| 0 <= i < |visits[1..]| && k in Keys(visits[1..][i].rows);
      assert visits[1..][i] == visits[i + 1];
      if cursor.Some? { LessTransitive(cursor.value, first.next.value, k); }
    }
  }

  /** Keys arrive in strictly ascending order, so none arrives twice. */
  lemma {:induction false} ReceivedAscends(prefix: Bytes, cursor: Option<Bytes>, visits: seq<Visit>)
    requires IsWalk(prefix, cursor, visits)
    ensures Ascending(Received(visits))
    decreases |visits|
  {
    if visits == [] {
    } else {
      var first, rest := visits[0], Received(visits[1..]);
      ListingHolds(first.rows, prefix, cursor);
      PageSplits(Listing(first.rows, prefix, cursor), first.items, first.next, []);
      if |visits| > 1 {
        ReceivedAscends(prefix, first.next, visits[1..]);
        forall x, k | x in first.items && k in rest ensures Less(x, k) {
          ReceivedIsGenuine(prefix, first.next, visits[1..], k);
          PageSplits(Listing(first.rows, prefix, cursor), first.items, first.next, k);
        }
      }
      AscendingConcat(first.items, rest);
    }
  }

  lemma AscendingConcat(a: seq<Bytes>, b: seq<Bytes>)
    requires Ascending(a) && Ascending(b) && (forall x, y :: x in a && y in b ==> Less(x, y))
    ensures Ascending(a + b)
  {
  }

  /** A visible key that is there all along is received, whatever else comes and goes. */
  lemma {:induction false} NothingIsMissed(prefix: Bytes, cursor: Option<Bytes>, visits: seq<Visit>, k: Bytes)
    requires IsWalk(prefix, cursor, visits) && Finished(visits)
    requires Visible(KeyQuery(prefix), k) && After(k, cursor) && AlwaysThere(visits, k)
    ensures k in Received(visits)
    decreases |visits|
  {
    var first := visits[0];
    ListingHolds(first.rows, prefix, cursor);
    assert k in Keys(visits[0].rows);
    PageSplits(Listing(first.rows, prefix, cursor), first.items, first.next, k);
    if k !in first.items {
      assert forall i :: 0 <= i < |visits[1..]| ==> visits[1..][i] == visits[i + 1];
      NothingIsMissed(prefix, first.next, visits[1..], k);
    }
  }

  /** On a store that does not change the walk receives exactly the sorted listing. */
  lemma {:induction false} FixedStoreWalk(prefix: Bytes, rows: seq<Row>, visits: seq<Visit>)
    requires IsWalk(prefix, None, visits) && Finished(visits) && Ordered(rows)
    requires forall i :: 0 <= i < |visits| ==> visits[i].rows == rows
    ensures Received(visits) == Listing(rows, prefix, None)
  {
    var all := Listing(rows, prefix, None);
    ListingHolds(rows, prefix, None);
    ReceivedAscends(prefix, None, visits);
    forall k ensures k in Received(visits) <==> k in all {
      if k in Received(visits) { ReceivedIsGenuine(prefix, None, visits, k); }
      if k in all { NothingIsMissed(prefix, None, visits, k); }
    }
    AscendingIsUnique(Received(visits), all);
  }

  // ----- The client

  /** A cursor the server issued is one it takes back. */
  lemma CursorComesBack(rows: seq<Row>, prefix: Bytes, cursor: Option<Bytes>, items: seq<Bytes>, next: Bytes)
    requires Ordered(rows) && IsPage(Listing(rows, prefix, cursor), items, Some(next)) && |next| <= MAX_KEY_SIZE
    ensures CursorKey(Some(EncodeKey(next))) == Some(next) && CursorAllowed(prefix, next)
  {
    ListingHolds(rows, prefix, cursor);
    PageSplits(Listing(rows, prefix, cursor), items, Some(next), next);
    KeyTextRoundTrip(next, "", false);
  }

  /** What a request is about to show. */
  function Ahead(rows: seq<Row>, prefix: Bytes, cursor: Option<Bytes>, limit: nat): seq<Bytes> {
    Take(Listing(rows, prefix, cursor), limit)
  }

  /**
   One request of the client: it fails exactly when a key about to be shown is too long;
   otherwise it is served, and its cursor will be accepted.
   */
  method Request(store: Store, prefix: Bytes, cursor: Option<string>, limit: nat, json: TextPage -> seq<string>)
    returns (page: Option<TextPage>, ghost v: Visit)
    requires store.Valid() && Serializes(json)
    requires |prefix| <= MAX_KEY_SIZE && 1 <= limit <= MAX_PAGE_SIZE && CursorReady(prefix, cursor)
    ensures page.None? <==> HasOversize(Ahead(store.rows, prefix, CursorKey(cursor), limit))
    ensures page.Some? ==>
              && v.rows == store.rows && IsPage(Listing(v.rows, prefix, CursorKey(cursor)), v.items, v.next)
              && v.items <= Ahead(store.rows, prefix, CursorKey(cursor), limit)
              && page.value == TextPage(EncodeKeys(v.items), EncodeCursor(v.next))
              && CursorReady(prefix, page.value.next) && CursorKey(page.value.next) == v.next
  {
    KeyTextRoundTrip(prefix, "", true);
    var response, items, next := ListKeysRoute(store, Some(EncodeKey(prefix)), cursor, Some(limit), json);
    v := Visit(store.rows, items, next);
    if response == InternalError { return None, v; }
    page := Some(response.page);
    if next.Some? { CursorComesBack(store.rows, prefix, CursorKey(cursor), items, next.value); }
  }

  predicate CursorReady(prefix: Bytes, cursor: Option<string>) {
    cursor.Some? ==> CursorKey(cursor).Some? && CursorAllowed(prefix, CursorKey(cursor).value)
  }

  lemma WalkOn(prefix: Bytes, cursor: Option<Bytes>, v: Visit, visits: seq<Visit>)
    requires Ordered(v.rows) && IsPage(Listing(v.rows, prefix, cursor), v.items, v.next)
    requires IsWalk(prefix, v.next, visits) && (visits != [] ==> v.next.Some?)
    ensures IsWalk(prefix, cursor, [v] + visits)
    ensures EncodeKeys(Received([v] + visits)) == EncodeKeys(v.items) + EncodeKeys(Received(visits))
  {
    var all := [v] + visits;
    assert all[0] == v && all[1..] == visits;
    EncodeOfConcat(v.items, Received(visits));
  }

  lemma EncodeOfConcat(a: seq<Bytes>, b: seq<Bytes>)
    ensures EncodeKeys(a + b) == EncodeKeys(a) + EncodeKeys(b)
  {
  }

  /** One request went to each store in turn. */
  ghost predicate Asked(stores: seq<Store>, visits: seq<Visit>)
    reads stores
  {
    |visits| <= |stores| && forall i :: 0 <= i < |visits| ==> visits[i].rows == stores[i].rows
  }

  lemma AskedMore(stores: seq<Store>, v: Visit, visits: seq<Visit>)
    requires stores != [] && v.rows == stores[0].rows && Asked(stores[1..], visits)
    ensures Asked(stores, [v] + visits)
  {
  }

  /** The cursor after some requests. */
  function CursorAfter(cursor: Option<Bytes>, visits: seq<Visit>): Option<Bytes> {
    if visits == [] then cursor else visits[|visits| - 1].next
  }

  datatype End = Done | Unfinished | Failed

  /**
   The client asks one store state after another, handing back each cursor text as it came,
   whatever the page size and whatever pieces the serializer writes. It only fails at a store
   that has a key too long to be shown among those next in the listing.
   */
  method FollowCursors(stores: seq<Store>, prefix: Bytes, cursor: Option<string>, limit: nat,
                       json: TextPage -> seq<string>)
    returns (keys: seq<string>, end: End, ghost visits: seq<Visit>)
    requires forall s :: s in stores ==> s.Valid()
    requires |prefix| <= MAX_KEY_SIZE && 1 <= limit <= MAX_PAGE_SIZE && Serializes(json) && CursorReady(prefix, cursor)
    ensures IsWalk(prefix, CursorKey(cursor), visits) && keys == EncodeKeys(Received(visits))
    ensures Asked(stores, visits)
    ensures end.Done? <==> Finished(visits)
    ensures end.Unfinished? <==> !Finished(visits) && |visits| == |stores|
    ensures end.Failed? ==> HasOversize(Ahead(stores[|visits|].rows, prefix, CursorAfter(CursorKey(cursor), visits), limit))
    decreases |stores|
  {
    if stores == [] { return [], Unfinished, []; }
    ghost var v;
    var page;
    page, v := Request(stores[0], prefix, cursor, limit, json);
    if page.None? { return [], Failed, []; }
    WalkOn(prefix, CursorKey(cursor), v, []);
    if page.value.next.None? { return page.value.items, Done, [v]; }
    keys, end, visits := FollowCursors(stores[1..], prefix, page.value.next, limit, json);
    AskedMore(stores, v, visits);
    WalkOn(prefix, CursorKey(cursor), v, visits);
    keys, visits := page.value.items + keys, [v] + visits;
  }

  // ----- The walk ends

  /** While a walk over a fixed store has a cursor, every request has taken at least one key off the listing. */
  lemma {:induction false} UnfinishedWalkIsShort(prefix: Bytes, cursor: Option<Bytes>, rows: seq<Row>, visits: seq<Visit>)
    requires IsWalk(prefix, cursor, visits) && Ordered(rows) && (forall i :: 0 <= i < |visits| ==> visits[i].rows == rows)
    requires visits != [] && !Finished(visits)
    ensures |visits| < |Listing(rows, prefix, cursor)|
    decreases |visits|
  {
    var first, all := visits[0], Listing(rows, prefix, cursor);
    if |visits| == 1 {
    } else {
      var rest := visits[1..];
      assert rest[|rest| - 1] == visits[|visits| - 1];
      UnfinishedWalkIsShort(prefix, first.next, rows, rest);
      ResumeIsSuffix(rows, KeyQuery(prefix), cursor, |first.items| - 1);
    }
  }

  /** On a fixed store the client is done after at most one request per key, and one more. */
  lemma FixedStoreWalkEnds(prefix: Bytes, rows: seq<Row>, visits: seq<Visit>)
    requires IsWalk(prefix, None, visits) && Ordered(rows) && (forall i :: 0 <= i < |visits| ==> visits[i].rows == rows)
    requires |visits| > |Listing(rows, prefix, None)|
    ensures Finished(visits)
  {
    if !Finished(visits) { UnfinishedWalkIsShort(prefix, None, rows, visits); }
  }

  // ----- The whole listing

  /** The first key of a listing that is too long to be shown. */
  predicate FirstOversize(all: seq<Bytes>, m: nat) {
    m < |all| && |all[m]| > MAX_KEY_SIZE && forall i :: 0 <= i < m ==> |all[i]| <= MAX_KEY_SIZE
  }

  lemma {:induction false} FindOversize(all: seq<Bytes>) returns (m: nat)
    requires HasOversize(all)
    ensures FirstOversize(all, m)
  {
    if |all[0]| > MAX_KEY_SIZE {
      m := 0;
    } else {
      var i :| 0 <= i < |all| && |all[i]| > MAX_KEY_SIZE;
      assert all[1..][i - 1] == all[i];
      m := FindOversize(all[1..]);
      m := m + 1;
    }
  }

  /** So much of a listing was shown, and it was all unless a key is too long. */
  ghost predicate Shows(all: seq<Bytes>, limit: nat, shown: seq<Bytes>, ok: bool) {
    && shown <= all && (ok <==> !HasOversize(all)) && (ok ==> shown == all)
    && (!ok ==> exists m: nat :: FirstOversize(all, m) && |shown| <= m < |shown| + limit)
  }

  lemma ShowsNothing(all: seq<Bytes>, limit: nat)
    requires HasOversize(Take(all, limit))
    ensures Shows(all, limit, [], false)
  {
    var m := FindOversize(Take(all, limit));
    assert FirstOversize(all, m);
  }

  lemma FirstBehind(items: seq<Bytes>, rest: seq<Bytes>, m: nat)
    requires !HasOversize(items) && FirstOversize(rest, m)
    ensures FirstOversize(items + rest, |items| + m)
  {
  }

  lemma NoneInEither(items: seq<Bytes>, rest: seq<Bytes>)
    requires !HasOversize(items) && !HasOversize(rest)
    ensures !HasOversize(items + rest)
  {
  }

  lemma ShowsMore(all: seq<Bytes>, items: seq<Bytes>, limit: nat, shown: seq<Bytes>, ok: bool)
    requires items <= all && !HasOversize(items) && Shows(all[|items|..], limit, shown, ok)
    ensures Shows(all, limit, items + shown, ok)
  {
    var rest := all[|items|..];
    assert all == items + rest;
    if ok {
      NoneInEither(items, rest);
    } else {
      var m: nat :| FirstOversize(rest, m) && |shown| <= m < |shown| + limit;
      FirstBehind(items, rest, m);
    }
  }

  /** What follows a page is listed from its cursor on. */
  lemma NextListing(rows: seq<Row>, prefix: Bytes, cursor: Option<Bytes>, items: seq<Bytes>, next: Option<Bytes>)
    requires Ordered(rows) && IsPage(Listing(rows, prefix, cursor), items, next) && next.Some?
    ensures Listing(rows, prefix, next) == Listing(rows, prefix, cursor)[|items|..] && items != []
  {
    ResumeIsSuffix(rows, KeyQuery(prefix), cursor, |items| - 1);
  }

  /**
   On a fixed store, following cursors to the end brings the whole listing if and only if none
   of its keys is too long; otherwise it stops at the page that would show the first such key.
   */
  method ListAll(store: Store, prefix: Bytes, cursor: Option<string>, limit: nat, json: TextPage -> seq<string>)
    returns (keys: seq<string>, ok: bool, ghost shown: seq<Bytes>)
    requires store.Valid() && Serializes(json)
    requires |prefix| <= MAX_KEY_SIZE && 1 <= limit <= MAX_PAGE_SIZE && CursorReady(prefix, cursor)
    ensures keys == EncodeKeys(shown) && Shows(Listing(store.rows, prefix, CursorKey(cursor)), limit, shown, ok)
    decreases |Listing(store.rows, prefix, CursorKey(cursor))|
  {
    ghost var all := Listing(store.rows, prefix, CursorKey(cursor));
    ghost var v;
    var page;
    page, v := Request(store, prefix, cursor, limit, json);
    if page.None? {
      ShowsNothing(all, limit);
      return [], false, [];
    }
    assert !HasOversize(v.items);
    if page.value.next.None? { return page.value.items, true, all; }
    NextListing(store.rows, prefix, CursorKey(cursor), v.items, v.next);
    keys, ok, shown := ListAll(store, prefix, page.value.next, limit, json);
    ShowsMore(all, v.items, limit, shown, ok);
    EncodeOfConcat(v.items, shown);
    keys, shown := page.value.items + keys, v.items + shown;
  }
}
