/** Key listing: the page cut by the runtime control, then trimmed by the HTTP layer to its byte budget. */
module KeyListing {
  import opened Basics
  import opened ByteOrder
  import opened OrderedStore
  import Base64Url
  import Texts

  /** The bytes of `__nx/`. */
  const RESERVED_PREFIX: Bytes := [0x5F, 0x5F, 0x6E, 0x78, 0x2F]
  const MAX_PAGE_SIZE: nat := 100
  const DEFAULT_PAGE_SIZE: nat := 50
  const MAX_KEY_SIZE: nat := 8 * 1024
  const MAX_RESPONSE_BODY_SIZE: nat := 1024 * 1024
  const EMPTY_KEY: string := "~"

  function KeyQuery(prefix: Bytes): Query {
    Query(prefix, Some(RESERVED_PREFIX))
  }

  /** All keys a listing still has to show. */
  function Listing(rows: seq<Row>, prefix: Bytes, cursor: Option<Bytes>): seq<Bytes> {
    Keys(Select(rows, KeyQuery(prefix), cursor))
  }

  /** A page is a beginning of the listing, and it names a cursor exactly when something is left. */
  ghost predicate IsPage(all: seq<Bytes>, items: seq<Bytes>, next: Option<Bytes>) {
    && items <= all
    && (next.None? <==> items == all)
    && (next.Some? ==> items != [] && next.value == items[|items| - 1])
  }

  lemma ShownExactly(prefix: Bytes, k: Bytes)
    ensures Visible(KeyQuery(prefix), k) <==> prefix <= k && !([0x5F, 0x5F, 0x6E, 0x78, 0x2F] <= k)
  {
  }

  lemma KeyOfRow(rows: seq<Row>, k: Bytes)
    ensures k in Keys(rows) <==> exists r :: r in rows && r.key == k
  {
    if k in Keys(rows) {
      var i :| 0 <= i < |rows| && Keys(rows)[i] == k;
      assert rows[i] in rows;
    }
    if r :| r in rows && r.key == k {
      var i :| 0 <= i < |rows| && rows[i] == r;
      assert Keys(rows)[i] == k;
    }
  }

  lemma KeysOfSelected(rows: seq<Row>, q: Query, after: Option<Bytes>, k: Bytes)
    ensures k in Keys(Select(rows, q, after)) <==> k in Keys(rows) && Visible(q, k) && After(k, after)
  {
    SelectHolds(rows, q, after);
    KeyOfRow(rows, k);
    KeyOfRow(Select(rows, q, after), k);
  }

  /** A listing holds, in order, the keys with the prefix above the cursor, but for those that begin with `__nx/`. */
  lemma ListingExactly(rows: seq<Row>, prefix: Bytes, cursor: Option<Bytes>, k: Bytes)
    requires Ordered(rows)
    ensures k in Listing(rows, prefix, cursor) <==>
              && k in Keys(rows) && prefix <= k && !([0x5F, 0x5F, 0x6E, 0x78, 0x2F] <= k)
              && (cursor.Some? ==> Less(cursor.value, k))
    ensures Ascending(Listing(rows, prefix, cursor))
  {
    ShownExactly(prefix, k);
    KeysOfSelected(rows, KeyQuery(prefix), cursor, k);
    SelectHolds(rows, KeyQuery(prefix), cursor);
  }

  // ----- Runtime control

  datatype ControlResult = Page(items: seq<Bytes>, next: Option<Bytes>) | InvalidCursor | InvalidLimit

  predicate CursorAllowed(prefix: Bytes, cursor: Bytes) {
    !StartsWith(cursor, RESERVED_PREFIX) && (prefix == [] || StartsWith(cursor, prefix))
  }

  lemma KeysOfTake(rows: seq<Row>, n: nat)
    ensures Keys(Take(rows, n)) == Take(Keys(rows), n)
  {
  }

  /** Looking one key ahead of the limit tells whether the page needs a cursor. */
  lemma LookAhead(all: seq<Bytes>, limit: nat)
    requires limit > 0
    ensures var ahead := Take(all, limit + 1);
            var items := Take(ahead, limit);
            && IsPage(all, items, if |ahead| > limit then Some(items[limit - 1]) else None)
            && items == Take(all, limit)
  {
    var items := Take(Take(all, limit + 1), limit);
    assert items == Take(all, limit);
  }

  /** A cursor is refused when it begins with `__nx/` or lacks the prefix. */
  lemma CursorsExactly(prefix: Bytes, cursor: Bytes)
    ensures CursorAllowed(prefix, cursor) <==> prefix <= cursor && !([0x5F, 0x5F, 0x6E, 0x78, 0x2F] <= cursor)
  {
  }

  method ListKeys(store: Store, prefix: Bytes, cursor: Option<Bytes>, limit: nat) returns (r: ControlResult)
    requires store.Valid()
    ensures r == InvalidLimit <==> !(1 <= limit <= 100)
    ensures r == InvalidCursor <==> 1 <= limit <= 100 && cursor.Some? && !CursorAllowed(prefix, cursor.value)
    ensures r.Page? ==>
              && IsPage(Listing(store.rows, prefix, cursor), r.items, r.next)
              && r.items == Take(Listing(store.rows, prefix, cursor), limit)
  {
    if !(1 <= limit <= MAX_PAGE_SIZE) { return InvalidLimit; }
    if cursor.Some? && (StartsWith(cursor.value, RESERVED_PREFIX) || (prefix != [] && !StartsWith(cursor.value, prefix))) {
      return InvalidCursor;
    }
    var items := store.KeysPrefixPageAfter(prefix, cursor, limit + 1, Some(RESERVED_PREFIX));
    ReachedIsSelect(store.rows, KeyQuery(prefix), cursor);
    ghost var all := Listing(store.rows, prefix, cursor);
    KeysOfTake(Select(store.rows, KeyQuery(prefix), cursor), limit + 1);
    LookAhead(all, limit);
    var more := |items| > limit;
    items := Take(items, limit);
    r := Page(items, if more then Some(items[limit - 1]) else None);
  }

  // ----- Key text

  function EncodeKey(k: Bytes): string {
    if k == [] then EMPTY_KEY else Base64Url.Encode(k)
  }

  function DecodeKey(encoded: Option<string>, allowAbsent: bool): Option<Bytes> {
    match encoded
    case None => if allowAbsent then Some([]) else None
    case Some(t) =>
      if t == "" then None
      else if t == EMPTY_KEY then Some([])
      else match Base64Url.Decode(t)
        case Some(k) => if k == [] || |k| > MAX_KEY_SIZE then None else Some(k)
        case None => None
  }

  /** Key text is a bijection between keys of legal size and accepted texts. */
  lemma KeyTextRoundTrip(k: Bytes, t: string, allowAbsent: bool)
    ensures DecodeKey(Some(EncodeKey(k)), allowAbsent) == if |k| <= 8192 then Some(k) else None
    ensures DecodeKey(Some(t), allowAbsent).Some? ==> EncodeKey(DecodeKey(Some(t), allowAbsent).value) == t
  {
    if k != [] {
      Base64Url.DecodeOfEncode(k);
      Base64Url.EncodeHasLength(k);
      Base64Url.EncodeUsesAlphabet(k);
      assert Base64Url.Encode(k) == EMPTY_KEY ==> '~' in Base64Url.Encode(k);
    }
    if DecodeKey(Some(t), allowAbsent).Some? && t != EMPTY_KEY {
      Base64Url.EncodeOfDecode(t);
    }
  }

  /** An absent text is the empty key where it may be absent; a text stands for the key it is the text of. */
  lemma DecodeExactly(encoded: Option<string>, allowAbsent: bool, k: Bytes)
    ensures DecodeKey(encoded, allowAbsent) == Some(k) <==>
              || (encoded.None? && allowAbsent && k == [])
              || (encoded == Some("~") && k == [])
              || (encoded.Some? && k != [] && |k| <= 8192 && encoded.value == Base64Url.Encode(k))
  {
    if encoded.Some? { KeyTextRoundTrip(k, encoded.value, allowAbsent); }
  }

  /** The text of a key spells its bits, six by six, in the alphabet of section 5 of RFC 4648; no bits are a tilde. */
  lemma KeyTextSpellsBits(k: Bytes, i: nat)
    requires i < |EncodeKey(k)|
    ensures k == [] ==> EncodeKey(k) == "~"
    ensures k != [] ==>
              && |EncodeKey(k)| == (8 * |k| + 5) / 6 && Base64Url.SixBits(k, 6 * i) < |Base64Url.ALPHABET|
              && EncodeKey(k)[i] == Base64Url.ALPHABET[Base64Url.SixBits(k, 6 * i)]
  {
    if k != [] {
      Base64Url.EncodeHasLength(k);
      Base64Url.EncodeIsBits(k, i);
    }
  }

  lemma KeyTextIsShort(k: Bytes)
    requires |k| <= MAX_KEY_SIZE
    ensures |EncodeKey(k)| <= 10923
  {
    Base64Url.EncodeHasLength(k);
  }

  // ----- The bounded JSON body

  function Concat(chunks: seq<string>): string {
    if chunks == [] then "" else Concat(chunks[..|chunks| - 1]) + chunks[|chunks| - 1]
  }

  /** The writer behind the serializer: it takes a chunk whole or refuses it and remembers so. */
  class LimitedJsonBody {
    var bytes: string
    var exceeded: bool

    ghost predicate Valid()
      reads this
    {
      |bytes| <= MAX_RESPONSE_BODY_SIZE
    }

    constructor ()
      ensures Valid() && bytes == "" && !exceeded
    {
      bytes, exceeded := "", false;
    }

    method Write(chunk: string) returns (ok: bool)
      requires Valid()
      modifies this
      ensures Valid()
      ensures ok <==> |old(bytes) + chunk| <= MAX_RESPONSE_BODY_SIZE
      ensures bytes == if ok then old(bytes) + chunk else old(bytes)
      ensures exceeded == (old(exceeded) || !ok)
    {
      if |chunk| > MAX_RESPONSE_BODY_SIZE - |bytes| {
        exceeded := true;
        return false;
      }
      bytes := bytes + chunk;
      return true;
    }
  }

  lemma {:induction false} ConcatGrows(chunks: seq<string>, n: nat)
    requires n <= |chunks|
    ensures |Concat(chunks[..n])| <= |Concat(chunks)|
    decreases |chunks| - n
  {
    if n < |chunks| {
      assert chunks[..n + 1][..n] == chunks[..n];
      ConcatGrows(chunks, n + 1);
    } else {
      assert chunks[..n] == chunks;
    }
  }

  /** However the serializer cuts its output, writing succeeds exactly when the whole fits. */
  method WriteAll(chunks: seq<string>) returns (body: Option<string>, exceeded: bool)
    ensures body == if |Concat(chunks)| <= MAX_RESPONSE_BODY_SIZE then Some(Concat(chunks)) else None
    ensures exceeded <==> body.None?
  {
    var writer := new LimitedJsonBody();
    for i := 0 to |chunks|
      invariant writer.Valid() && writer.bytes == Concat(chunks[..i]) && !writer.exceeded
    {
      assert chunks[..i + 1][..i] == chunks[..i];
      var ok := writer.Write(chunks[i]);
      if !ok {
        ConcatGrows(chunks, i + 1);
        return None, writer.exceeded;
      }
    }
    assert chunks[..|chunks|] == chunks;
    return Some(writer.bytes), writer.exceeded;
  }

  // ----- Page trimming

  datatype TextPage = TextPage(items: seq<string>, next: Option<string>)

  function Quoted(t: string): string {
    "\"" + t + "\""
  }

  function Listed(items: seq<string>): string {
    if items == [] then ""
    else if |items| == 1 then Quoted(items[0])
    else Listed(items[..|items| - 1]) + "," + Quoted(items[|items| - 1])
  }

  /** The JSON object of a page; key text needs no escaping. */
  function Render(page: TextPage): string {
    "{\"items\":[" + Listed(page.items) + "],\"next_cursor\":" +
    (if page.next.Some? then Quoted(page.next.value) else "null") + "}"
  }

  function QuotedAll(items: seq<string>): seq<string> {
    seq(|items|, i requires 0 <= i < |items| => Quoted(items[i]))
  }

  lemma {:induction false} ListedFirst(items: seq<string>)
    requires |items| > 1
    ensures Listed(items) == Quoted(items[0]) + [','] + Listed(items[1..])
  {
    var most := items[..|items| - 1];
    assert items[1..][..|items| - 2] == most[1..];
    if |items| == 2 {
      assert most == [items[0]] && items[1..] == [items[1]];
    } else {
      ListedFirst(most);
    }
  }

  lemma {:induction false} ListedSplits(items: seq<string>)
    requires items != [] && forall i :: 0 <= i < |items| ==> ',' !in items[i]
    ensures Texts.Split(Listed(items), ',') == QuotedAll(items)
  {
    QuotedHasNoComma(items[0]);
    if |items| == 1 {
      Texts.SplitOfPart(Quoted(items[0]), ',');
    } else {
      ListedFirst(items);
      ListedSplits(items[1..]);
      SplitMore(Quoted(items[0]), Listed(items[1..]), QuotedAll(items[1..]));
      assert QuotedAll(items) == [Quoted(items[0])] + QuotedAll(items[1..]);
    }
  }

  lemma QuotedHasNoComma(t: string)
    requires ',' !in t
    ensures ',' !in Quoted(t)
  {
  }

  lemma SplitMore(part: string, rest: string, parts: seq<string>)
    requires ',' !in part && Texts.Split(rest, ',') == parts
    ensures Texts.Split(part + [','] + rest, ',') == [part] + parts
  {
    Texts.SplitOfJoin(part, ',', rest);
  }

  /** The page is a JSON object of an array and a cursor; cut at its commas, the array gives the quoted items. */
  lemma RenderExactly(page: TextPage) returns (listed: string)
    requires forall i :: 0 <= i < |page.items| ==> ',' !in page.items[i]
    ensures Render(page) ==
            "{\"items\":[" + listed + "],\"next_cursor\":" +
            (if page.next.Some? then "\"" + page.next.value + "\"" else "null") + "}"
    ensures if page.items == [] then listed == "" else Texts.Split(listed, ',') == QuotedAll(page.items)
  {
    listed := Listed(page.items);
    if page.items != [] { ListedSplits(page.items); }
  }

  function EncodeKeys(keys: seq<Bytes>): seq<string> {
    seq(|keys|, i requires 0 <= i < |keys| => EncodeKey(keys[i]))
  }

  function EncodeCursor(next: Option<Bytes>): Option<string> {
    if next.Some? then Some(EncodeKey(next.value)) else None
  }

  /** A serializer hands over the rendering in pieces of its own choice. */
  ghost predicate Serializes(json: TextPage -> seq<string>) {
    forall page :: Concat(json(page)) == Render(page)
  }

  /**
   Items are dropped from the end until the page fits, and the cursor moves back with them.
   `n` is the number of items kept: the largest beginning whose rendering fits.
   */
  method BoundedPage(items: seq<string>, next: Option<string>, json: TextPage -> seq<string>)
    returns (r: Option<TextPage>, ghost n: nat)
    ensures n <= |items|
    ensures r.Some? ==> r.value == Trimmed(items, next, n) && !TooLong(json, items, next, n)
    ensures r.Some? && n < |items| ==> n > 0
    ensures r.None? ==> n <= 1 && TooLong(json, items, next, n)
    ensures forall m :: n < m <= |items| ==> TooLong(json, items, next, m)
  {
    var page := TextPage(items, next);
    n := |items|;
    while true
      invariant n <= |items| && page == Trimmed(items, next, n) && (n < |items| ==> n > 0)
      invariant forall m :: n < m <= |items| ==> TooLong(json, items, next, m)
      decreases n
    {
      var body, exceeded := WriteAll(json(page));
      if body.Some? { return Some(page), n; }
      if !exceeded || |page.items| <= 1 { return None, n; }
      var kept := page.items[..|page.items| - 1];
      assert kept == items[..n - 1];
      page := TextPage(kept, Some(kept[|kept| - 1]));
      n := n - 1;
    }
  }

  function Trimmed(items: seq<string>, next: Option<string>, n: nat): TextPage
    requires n <= |items|
  {
    if n == |items| then TextPage(items, next)
    else TextPage(items[..n], if n > 0 then Some(items[n - 1]) else None)
  }

  predicate TooLong(json: TextPage -> seq<string>, items: seq<string>, next: Option<string>, n: nat)
    requires n <= |items|
  {
    |Concat(json(Trimmed(items, next, n)))| > MAX_RESPONSE_BODY_SIZE
  }

  // ----- The request

  datatype Response = Ok(page: TextPage) | InvalidRequest | InternalError

  function PageSize(limit: Option<nat>): Option<nat> {
    var n := if limit.Some? then limit.value else DEFAULT_PAGE_SIZE;
    if 1 <= n <= MAX_PAGE_SIZE then Some(n) else None
  }

  /** A single key with its cursor fits with room to spare. */
  lemma OneKeyFits(items: seq<Bytes>, next: Option<Bytes>, n: nat)
    requires n <= 1 && n <= |items| && (forall i :: 0 <= i < |items| ==> |items[i]| <= MAX_KEY_SIZE)
    requires next.Some? ==> |next.value| <= MAX_KEY_SIZE
    ensures |Render(Trimmed(EncodeKeys(items), EncodeCursor(next), n))| <= MAX_RESPONSE_BODY_SIZE
  {
    if n == 1 { KeyTextIsShort(items[0]); }
    if next.Some? { KeyTextIsShort(next.value); }
  }

  method BoundedKeyPage(items: seq<Bytes>, next: Option<Bytes>, json: TextPage -> seq<string>)
    returns (r: Response, ghost n: nat)
    requires Serializes(json) && (next.Some? ==> items != [] && next.value == items[|items| - 1])
    ensures r.Ok? <==> forall i :: 0 <= i < |items| ==> |items[i]| <= MAX_KEY_SIZE
    ensures !r.Ok? ==> r == InternalError
    ensures r.Ok? ==>
              && n <= |items| && (n < |items| ==> n > 0)
              && r.page == Trimmed(EncodeKeys(items), EncodeCursor(next), n)
              && |Render(r.page)| <= MAX_RESPONSE_BODY_SIZE
  {
    n := 0;
    for i := 0 to |items|
      invariant forall j :: 0 <= j < i ==> |items[j]| <= MAX_KEY_SIZE
    {
      if |items[i]| > MAX_KEY_SIZE { return InternalError, 0; }
    }
    var page;
    page, n := BoundedPage(EncodeKeys(items), EncodeCursor(next), json);
    if page.None? {
      OneKeyFits(items, next, n);
      assert false;
    }
    r := Ok(page.value);
  }

  /** The HTTP route. `items` and `next` are the keys behind the texts of the page. */
  method ListKeysRoute(store: Store, prefix: Option<string>, cursor: Option<string>, limit: Option<nat>,
                       json: TextPage -> seq<string>)
    returns (r: Response, ghost items: seq<Bytes>, ghost next: Option<Bytes>)
    requires store.Valid() && Serializes(json)
    ensures r == InvalidRequest <==> !RequestOk(prefix, cursor, limit)
    ensures r.Ok? ==>
              && r.page == TextPage(EncodeKeys(items), EncodeCursor(next))
              && IsPage(Listing(store.rows, DecodeKey(prefix, true).value, CursorKey(cursor)), items, next)
              && items <= Take(Listing(store.rows, DecodeKey(prefix, true).value, CursorKey(cursor)), if limit.Some? then limit.value else 50)
              && |Render(r.page)| <= 1_048_576
    ensures r == InternalError <==>
              && RequestOk(prefix, cursor, limit)
              && HasOversize(Take(Listing(store.rows, DecodeKey(prefix, true).value, CursorKey(cursor)),
                                  if limit.Some? then limit.value else 50))
  {
    items, next := [], None;
    var size := PageSize(limit);
    if size.None? { return InvalidRequest, [], None; }
    var decodedPrefix := DecodeKey(prefix, true);
    if decodedPrefix.None? { return InvalidRequest, [], None; }
    var decodedCursor := None;
    if cursor.Some? {
      decodedCursor := DecodeKey(cursor, false);
      if decodedCursor.None? { return InvalidRequest, [], None; }
    }
    var page := ListKeys(store, decodedPrefix.value, decodedCursor, size.value);
    match page
    case InvalidCursor => r := InvalidRequest;
    case InvalidLimit => r := InvalidRequest;
    case Page(keys, more) =>
      r, items, next := Answer(Listing(store.rows, decodedPrefix.value, decodedCursor), keys, more, json);
  }

  /** Some key of the page is too long to be shown. */
  predicate HasOversize(keys: seq<Bytes>) {
    exists i :: 0 <= i < |keys| && |keys[i]| > MAX_KEY_SIZE
  }

  method Answer(ghost all: seq<Bytes>, keys: seq<Bytes>, more: Option<Bytes>, json: TextPage -> seq<string>)
    returns (r: Response, ghost items: seq<Bytes>, ghost next: Option<Bytes>)
    requires IsPage(all, keys, more) && Serializes(json)
    ensures r != InvalidRequest
    ensures r.Ok? ==>
              && r.page == TextPage(EncodeKeys(items), EncodeCursor(next)) && IsPage(all, items, next) && items <= keys
              && |Render(r.page)| <= MAX_RESPONSE_BODY_SIZE
    ensures r == InternalError <==> HasOversize(keys)
  {
    ghost var n;
    r, n := BoundedKeyPage(keys, more, json);
    items, next := [], None;
    if r.Ok? { items, next := TrimmedPage(all, keys, more, n); }
  }

  /** Trimming a page leaves a page. */
  lemma TrimmedPage(all: seq<Bytes>, keys: seq<Bytes>, more: Option<Bytes>, n: nat)
    returns (items: seq<Bytes>, next: Option<Bytes>)
    requires IsPage(all, keys, more) && n <= |keys| && (n < |keys| ==> n > 0)
    ensures IsPage(all, items, next) && items <= keys
    ensures Trimmed(EncodeKeys(keys), EncodeCursor(more), n) == TextPage(EncodeKeys(items), EncodeCursor(next))
  {
    items := keys[..n];
    next := if n == |keys| then more else Some(keys[n - 1]);
    assert EncodeKeys(keys)[..n] == EncodeKeys(items);
  }

  function CursorKey(cursor: Option<string>): Option<Bytes> {
    if cursor.Some? then DecodeKey(cursor, false) else None
  }

  /** Exactly the requests that are served. */
  predicate RequestOk(prefix: Option<string>, cursor: Option<string>, limit: Option<nat>) {
    && (limit.Some? ==> 1 <= limit.value <= 100)
    && DecodeKey(prefix, true).Some?
    && (cursor.Some? ==>
          CursorKey(cursor).Some? && CursorAllowed(DecodeKey(prefix, true).value, CursorKey(cursor).value))
  }
}
