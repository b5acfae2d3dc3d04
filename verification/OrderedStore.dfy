/**
 The ordered key-value store and its paged scans. `Rows` stands for the whole tree in key
 order; `ScanPrefix` and `RangeFrom` are the two iterators the tree offers.
 */
module OrderedStore {
  import opened Basics
  import opened ByteOrder

  datatype Row = Row(key: Bytes, value: Bytes)

  ghost predicate Ordered(rows: seq<Row>) {
    forall i, j :: 0 <= i < j < |rows| ==> Less(rows[i].key, rows[j].key)
  }

  function Keys(rows: seq<Row>): (keys: seq<Bytes>)
    ensures |keys| == |rows| && forall i :: 0 <= i < |rows| ==> keys[i] == rows[i].key
  {
    if rows == [] then [] else [rows[0].key] + Keys(rows[1..])
  }

  function Take<T>(s: seq<T>, n: nat): seq<T> {
    s[..Min(n, |s|)]
  }

  // ----- What a page should hold

  datatype Query = Query(prefix: Bytes, excluded: Option<Bytes>)

  predicate Visible(q: Query, k: Bytes) {
    StartsWith(k, q.prefix) && !(q.excluded.Some? && StartsWith(k, q.excluded.value))
  }

  predicate After(k: Bytes, after: Option<Bytes>) {
    after.Some? ==> Less(after.value, k)
  }

  /** The rows a listing from a cursor should show: visible and above the cursor. */
  function Select(rows: seq<Row>, q: Query, after: Option<Bytes>): seq<Row> {
    if rows == [] then []
    else if Visible(q, rows[0].key) && After(rows[0].key, after) then [rows[0]] + Select(rows[1..], q, after)
    else Select(rows[1..], q, after)
  }

  lemma {:induction false} SelectMembers(rows: seq<Row>, q: Query, after: Option<Bytes>)
    ensures forall r :: r in Select(rows, q, after) <==> r in rows && Visible(q, r.key) && After(r.key, after)
  {
    if rows == [] {
    } else {
      SelectMembers(rows[1..], q, after);
      assert forall r :: r in rows <==> r == rows[0] || r in rows[1..];
    }
  }

  lemma {:induction false} SelectHolds(rows: seq<Row>, q: Query, after: Option<Bytes>)
    ensures forall r :: r in Select(rows, q, after) <==> r in rows && Visible(q, r.key) && After(r.key, after)
    ensures Ordered(rows) ==> Ordered(Select(rows, q, after))
  {
    SelectMembers(rows, q, after);
    if rows == [] || !Ordered(rows) {
    } else {
      SelectHolds(rows[1..], q, after);
      assert forall r :: r in rows[1..] ==> Less(rows[0].key, r.key);
    }
  }

  lemma {:induction false} SelectNothing(rows: seq<Row>, q: Query, after: Option<Bytes>)
    requires forall r :: r in rows ==> !Visible(q, r.key) || !After(r.key, after)
    ensures Select(rows, q, after) == []
  {
    if rows == [] {
    } else {
      SelectNothing(rows[1..], q, after);
    }
  }

  // ----- The iterators of the tree

  function ScanPrefix(rows: seq<Row>, prefix: Bytes): seq<Row> {
    Select(rows, Query(prefix, None), None)
  }

  function RangeFrom(rows: seq<Row>, start: Bytes): seq<Row> {
    if rows == [] then []
    else if Less(rows[0].key, start) then RangeFrom(rows[1..], start)
    else rows
  }

  /** What the early-breaking loop walks over: above the cursor, up to the first foreign key. */
  function WhilePrefix(rows: seq<Row>, prefix: Bytes): seq<Row> {
    if rows == [] || !StartsWith(rows[0].key, prefix) then []
    else [rows[0]] + WhilePrefix(rows[1..], prefix)
  }

  function Above(rows: seq<Row>, after: Bytes): seq<Row> {
    if rows != [] && !Less(after, rows[0].key) then Above(rows[1..], after) else rows
  }

  function Walked(rows: seq<Row>, prefix: Bytes, after: Option<Bytes>): seq<Row> {
    match after
    case None => ScanPrefix(rows, prefix)
    case Some(k) => WhilePrefix(Above(rows, k), prefix)
  }

  function Reached(rows: seq<Row>, q: Query, after: Option<Bytes>): seq<Row> {
    Select(Walked(rows, q.prefix, after), q, None)
  }

  lemma {:induction false} RangeIsOrdered(rows: seq<Row>, start: Bytes)
    requires Ordered(rows)
    ensures Ordered(RangeFrom(rows, start)) && Above(RangeFrom(rows, start), start) == Above(rows, start)
  {
    if rows == [] || !Less(rows[0].key, start) {
    } else {
      RangeIsOrdered(rows[1..], start);
      NotBoth(rows[0].key, start);
    }
  }

  lemma NotBoth(a: Bytes, b: Bytes)
    ensures !(Less(a, b) && Less(b, a))
  {
    if Less(a, b) && Less(b, a) {
      LessTransitive(a, b, a);
      LessIrreflexive(a);
    }
  }

  lemma AboveTail(rows: seq<Row>, after: Bytes)
    requires Ordered(rows) && rows != [] && Less(after, rows[0].key)
    ensures Above(rows[1..], after) == rows[1..]
  {
    if |rows| > 1 { LessTransitive(after, rows[0].key, rows[1].key); }
  }

  /** One turn of the range loop: skip up to the cursor, stop at a foreign key, else keep. */
  lemma WalkedStep(range: seq<Row>, i: nat, start: Bytes, prefix: Bytes)
    requires Ordered(range) && i < |range|
    ensures var walked := WhilePrefix(Above(range[i..], start), prefix);
            var rest := WhilePrefix(Above(range[i + 1..], start), prefix);
            if !Less(start, range[i].key) then walked == rest
            else if !StartsWith(range[i].key, prefix) then walked == []
            else walked == [range[i]] + rest
  {
    assert range[i..][1..] == range[i + 1..];
    if Less(start, range[i].key) { AboveTail(range[i..], start); }
  }

  // ----- Writes

  function Find(rows: seq<Row>, k: Bytes): Option<Bytes> {
    if rows == [] then None else if rows[0].key == k then Some(rows[0].value) else Find(rows[1..], k)
  }

  /** The value last given to a key. */
  function Last(sets: seq<Row>, k: Bytes): Option<Bytes> {
    if sets == [] then None
    else if sets[|sets| - 1].key == k then Some(sets[|sets| - 1].value)
    else Last(sets[..|sets| - 1], k)
  }

  function Put(rows: seq<Row>, r: Row): seq<Row> {
    if rows == [] || Less(r.key, rows[0].key) then [r] + rows
    else if rows[0].key == r.key then [r] + rows[1..]
    else [rows[0]] + Put(rows[1..], r)
  }

  function Drop(rows: seq<Row>, k: Bytes): seq<Row> {
    if rows == [] then [] else if rows[0].key == k then rows[1..] else [rows[0]] + Drop(rows[1..], k)
  }

  lemma {:induction false} PutFinds(rows: seq<Row>, r: Row, k: Bytes)
    requires Ordered(rows)
    ensures Ordered(Put(rows, r)) && forall x :: x in Put(rows, r) ==> x == r || x in rows
    ensures Find(Put(rows, r), k) == if k == r.key then Some(r.value) else Find(rows, k)
  {
    if rows == [] {
    } else {
      assert forall x :: x in rows[1..] ==> Less(rows[0].key, x.key);
      LessTotal(r.key, rows[0].key);
      if Less(r.key, rows[0].key) {
        forall x | x in rows ensures Less(r.key, x.key) {
          if x != rows[0] { LessTransitive(r.key, rows[0].key, x.key); }
        }
      } else if rows[0].key != r.key {
        PutFinds(rows[1..], r, k);
      }
    }
  }

  lemma {:induction false} DropKeepsOrder(rows: seq<Row>, gone: Bytes)
    requires Ordered(rows)
    ensures Ordered(Drop(rows, gone)) && forall x :: x in Drop(rows, gone) ==> x in rows
  {
    if rows == [] || rows[0].key == gone {
    } else {
      DropKeepsOrder(rows[1..], gone);
      assert forall x :: x in Drop(rows[1..], gone) ==> Less(rows[0].key, x.key);
    }
  }

  lemma {:induction false} DropLoses(rows: seq<Row>, gone: Bytes, k: Bytes)
    requires Ordered(rows)
    ensures Find(Drop(rows, gone), k) == if k == gone then None else Find(rows, k)
  {
    if rows == [] {
    } else if rows[0].key == gone {
      LessIrreflexive(gone);
      assert forall x :: x in rows[1..] ==> Less(rows[0].key, x.key);
      FindIsIn(rows[1..], k);
    } else {
      DropLoses(rows[1..], gone, k);
    }
  }

  lemma {:induction false} FindIsIn(rows: seq<Row>, k: Bytes)
    ensures Find(rows, k).Some? <==> exists r :: r in rows && r.key == k
  {
    if rows == [] {
    } else {
      FindIsIn(rows[1..], k);
      assert forall r :: r in rows <==> r == rows[0] || r in rows[1..];
    }
  }

  // ----- Scans

  class Store {
    var rows: seq<Row>

    ghost predicate Valid()
      reads this
    {
      Ordered(rows)
    }

    constructor ()
      ensures Valid() && rows == []
    {
      rows := [];
    }

    /** Sets first, in order, then deletes: a deleted key is gone even when the batch also sets it. */
    method ApplyBatch(sets: seq<Row>, deletes: seq<Bytes>)
      requires Valid()
      modifies this
      ensures Valid()
      ensures forall k :: Find(rows, k) ==
                (if k in deletes then None else if Last(sets, k).Some? then Last(sets, k) else old(Find(rows, k)))
    {
      for i := 0 to |sets|
        invariant Valid()
        invariant forall k :: Find(rows, k) ==
                    if Last(sets[..i], k).Some? then Last(sets[..i], k) else old(Find(rows, k))
      {
        assert sets[..i + 1][..i] == sets[..i];
        forall k ensures Find(Put(rows, sets[i]), k) == if k == sets[i].key then Some(sets[i].value) else Find(rows, k) {
          PutFinds(rows, sets[i], k);
        }
        PutFinds(rows, sets[i], sets[i].key);
        rows := Put(rows, sets[i]);
      }
      assert sets[..|sets|] == sets;
      for i := 0 to |deletes|
        invariant Valid()
        invariant forall k :: Find(rows, k) ==
                    if k in deletes[..i] then None
                    else if Last(sets, k).Some? then Last(sets, k) else old(Find(rows, k))
      {
        forall k ensures Find(Drop(rows, deletes[i]), k) == if k == deletes[i] then None else Find(rows, k) {
          DropLoses(rows, deletes[i], k);
        }
        DropKeepsOrder(rows, deletes[i]);
        rows := Drop(rows, deletes[i]);
      }
      assert deletes[..|deletes|] == deletes;
    }

    /** One page by offset: the first `cursor` visible rows are counted off, then `limit` are kept. */
    method ScanPrefixPage(prefix: Bytes, cursor: nat, limit: nat, excluded: Option<Bytes>) returns (out: seq<Row>)
      requires Valid()
      ensures var all := Select(rows, Query(prefix, excluded), None);
              out == Take(all[Min(cursor, |all|)..], limit)
    {
      SelectTwice(rows, Query(prefix, excluded));
      SelectHolds(rows, Query(prefix, None), None);
      out := SkipThenTake(ScanPrefix(rows, prefix), prefix, cursor, limit, excluded);
    }

    /** One page by key cursor, ending at the first key above the cursor that lacks the prefix. */
    method ScanPrefixPageAfter(prefix: Bytes, after: Option<Bytes>, limit: nat, excluded: Option<Bytes>)
      returns (out: seq<Row>)
      requires Valid()
      ensures out == Take(Reached(rows, Query(prefix, excluded), after), limit)
    {
      match after
      case Some(start) =>
        RangeIsOrdered(rows, start);
        out := TakeRange(RangeFrom(rows, start), prefix, start, limit, excluded);
      case None =>
        SelectHolds(rows, Query(prefix, None), None);
        out := TakeScan(ScanPrefix(rows, prefix), prefix, limit, excluded);
    }

    /**
     One batch bounded in rows and bytes. `n` is the number of rows that fit: either they are
     the batch, or the row after them is too large by itself and the scan fails.
     */
    method ScanPrefixPageAfterBounded(prefix: Bytes, after: Option<Bytes>, maxRecords: nat, maxBytes: nat)
      returns (r: ScanResult, ghost n: nat)
      requires Valid() && maxBytes <= MAX_U64
      ensures maxRecords == 0 ==> r == Batch([])
      ensures maxRecords > 0 ==> BatchResult(Walked(rows, prefix, after), n, maxRecords, maxBytes, r)
    {
      if maxRecords == 0 { return Batch([]), 0; }
      match after
      case Some(start) =>
        RangeIsOrdered(rows, start);
        r, n := BatchOfRange(RangeFrom(rows, start), prefix, start, maxRecords, maxBytes);
      case None =>
        r, n := BatchOfScan(ScanPrefix(rows, prefix), maxRecords, maxBytes);
    }

    /** The page of keys alone. */
    method KeysPrefixPageAfter(prefix: Bytes, after: Option<Bytes>, limit: nat, excluded: Option<Bytes>)
      returns (out: seq<Bytes>)
      requires Valid()
      ensures out == Keys(Take(Reached(rows, Query(prefix, excluded), after), limit))
    {
      var page := ScanPrefixPageAfter(prefix, after, limit, excluded);
      out := Keys(page);
    }
  }

  method TakeRange(range: seq<Row>, prefix: Bytes, start: Bytes, limit: nat, excluded: Option<Bytes>)
    returns (out: seq<Row>)
    requires Ordered(range)
    ensures out == Take(Select(WhilePrefix(Above(range, start), prefix), Query(prefix, excluded), None), limit)
  {
    ghost var q := Query(prefix, excluded);
    ghost var all := Select(WhilePrefix(Above(range, start), prefix), q, None);
    out := [];
    for i := 0 to |range|
      invariant |out| <= limit
      invariant all == out + Select(WhilePrefix(Above(range[i..], start), prefix), q, None)
    {
      WalkedStep(range, i, start, prefix);
      if !Less(start, range[i].key) { continue; }
      if !StartsWith(range[i].key, prefix) { break; }
      ghost var rest := WhilePrefix(Above(range[i + 1..], start), prefix);
      SelectHead([range[i]] + rest, 0, q);
      if excluded.Some? && StartsWith(range[i].key, excluded.value) { continue; }
      Regroup(out, range[i], Select(rest, q, None));
      if |out| >= limit { break; }
      out := out + [range[i]];
    }
  }

  method TakeScan(scan: seq<Row>, prefix: Bytes, limit: nat, excluded: Option<Bytes>) returns (out: seq<Row>)
    requires forall r :: r in scan ==> StartsWith(r.key, prefix)
    ensures out == Take(Select(scan, Query(prefix, excluded), None), limit)
  {
    ghost var q := Query(prefix, excluded);
    ghost var all := Select(scan, q, None);
    out := [];
    for i := 0 to |scan|
      invariant |out| <= limit
      invariant all == out + Select(scan[i..], q, None)
    {
      ScanHead(scan, i, prefix, excluded);
      if excluded.Some? && StartsWith(scan[i].key, excluded.value) { continue; }
      if |out| >= limit {
        TakenIs(all, out, Select(scan[i..], q, None), limit);
        return;
      }
      Regroup(out, scan[i], Select(scan[i + 1..], q, None));
      out := out + [scan[i]];
    }
    TakenIs(all, out, [], limit);
  }

  lemma TakenIs<T>(all: seq<T>, out: seq<T>, rest: seq<T>, limit: nat)
    requires all == out + rest && |out| <= limit && (|out| == limit || rest == [])
    ensures out == Take(all, limit)
  {
  }

  method SkipThenTake(scan: seq<Row>, prefix: Bytes, cursor: nat, limit: nat, excluded: Option<Bytes>)
    returns (out: seq<Row>)
    requires forall r :: r in scan ==> StartsWith(r.key, prefix)
    ensures var all := Select(scan, Query(prefix, excluded), None);
            out == Take(all[Min(cursor, |all|)..], limit)
  {
    ghost var q := Query(prefix, excluded);
    ghost var all := Select(scan, q, None);
    out := [];
    var skipped := 0;
    for i := 0 to |scan|
      invariant Progress(all, skipped, cursor, limit, out, Select(scan[i..], q, None))
    {
      ScanHead(scan, i, prefix, excluded);
      ghost var rest := Select(scan[i + 1..], q, None);
      if excluded.Some? && StartsWith(scan[i].key, excluded.value) { continue; }
      if skipped < cursor {
        SkipOne(all, skipped, cursor, limit, out, scan[i], rest);
        skipped := skipped + 1;
        continue;
      }
      if |out| >= limit {
        TakenAfterSkip(all, skipped, cursor, limit, out, [scan[i]] + rest);
        return;
      }
      TakeOne(all, skipped, cursor, limit, out, scan[i], rest);
      out := out + [scan[i]];
    }
    TakenAfterSkip(all, skipped, cursor, limit, out, []);
  }

  /** So many rows were skipped and these taken, with the rest still to come. */
  ghost predicate Progress<T>(all: seq<T>, skipped: nat, cursor: nat, limit: nat, out: seq<T>, rest: seq<T>) {
    && skipped <= cursor && skipped <= |all| && |out| <= limit
    && (out != [] ==> skipped == cursor) && all[skipped..] == out + rest
  }

  lemma SkipOne<T>(all: seq<T>, skipped: nat, cursor: nat, limit: nat, out: seq<T>, x: T, rest: seq<T>)
    requires Progress(all, skipped, cursor, limit, out, [x] + rest) && skipped < cursor
    ensures Progress(all, skipped + 1, cursor, limit, out, rest)
  {
    assert |all[skipped..]| > 0 && all[skipped + 1..] == all[skipped..][1..];
  }

  lemma TakeOne<T>(all: seq<T>, skipped: nat, cursor: nat, limit: nat, out: seq<T>, x: T, rest: seq<T>)
    requires Progress(all, skipped, cursor, limit, out, [x] + rest) && skipped == cursor && |out| < limit
    ensures Progress(all, skipped, cursor, limit, out + [x], rest)
  {
  }

  lemma TakenAfterSkip<T>(all: seq<T>, skipped: nat, cursor: nat, limit: nat, out: seq<T>, rest: seq<T>)
    requires Progress(all, skipped, cursor, limit, out, rest)
    requires rest == [] || (skipped == cursor && |out| == limit)
    ensures out == Take(all[Min(cursor, |all|)..], limit)
  {
  }

  /** In a scan of one prefix, a row is passed over exactly when it is excluded. */
  lemma ScanHead(scan: seq<Row>, i: nat, prefix: Bytes, excluded: Option<Bytes>)
    requires (forall r :: r in scan ==> StartsWith(r.key, prefix)) && i < |scan|
    ensures var q := Query(prefix, excluded);
            Select(scan[i..], q, None) ==
              if excluded.Some? && StartsWith(scan[i].key, excluded.value) then Select(scan[i + 1..], q, None)
              else [scan[i]] + Select(scan[i + 1..], q, None)
  {
    SelectHead(scan, i, Query(prefix, excluded));
    assert scan[i] in scan;
  }

  lemma SelectHead(rows: seq<Row>, i: nat, q: Query)
    requires i < |rows|
    ensures Select(rows[i..], q, None) ==
            (if Visible(q, rows[i].key) then [rows[i]] else []) + Select(rows[i + 1..], q, None)
  {
    assert rows[i..][1..] == rows[i + 1..];
  }

  lemma Regroup<T>(a: seq<T>, x: T, b: seq<T>)
    ensures a + ([x] + b) == a + [x] + b
    ensures (a + ([x] + b))[..|a|] == a
  {
  }

  lemma {:induction false} SelectTwice(rows: seq<Row>, q: Query)
    ensures Select(ScanPrefix(rows, q.prefix), q, None) == Select(rows, q, None)
  {
    if rows == [] {
    } else {
      SelectTwice(rows[1..], q);
      if StartsWith(rows[0].key, q.prefix) {
        assert ScanPrefix(rows, q.prefix)[1..] == ScanPrefix(rows[1..], q.prefix);
      }
    }
  }

  // ----- Key cursors are exact

  lemma {:induction false} AboveIsSelect(rows: seq<Row>, q: Query, after: Bytes)
    requires Ordered(rows)
    ensures Select(Above(rows, after), q, None) == Select(rows, q, Some(after))
    ensures Ordered(Above(rows, after)) && forall r :: r in Above(rows, after) <==> r in rows && Less(after, r.key)
  {
    if rows == [] {
    } else {
      if Less(after, rows[0].key) {
        forall i | 0 <= i < |rows| ensures Less(after, rows[i].key) {
          if i > 0 { LessTransitive(after, rows[0].key, rows[i].key); }
        }
        SelectAllAbove(rows, q, after);
      } else {
        AboveIsSelect(rows[1..], q, after);
      }
    }
  }

  lemma {:induction false} SelectAllAbove(rows: seq<Row>, q: Query, after: Bytes)
    requires forall i :: 0 <= i < |rows| ==> Less(after, rows[i].key)
    ensures Select(rows, q, None) == Select(rows, q, Some(after))
  {
    if rows == [] {
    } else {
      SelectAllAbove(rows[1..], q, after);
    }
  }

  /** Past the first foreign key nothing carries the prefix, when a carrier lies before it. */
  lemma {:induction false} WhilePrefixIsSelect(rows: seq<Row>, q: Query, floor: Bytes)
    requires Ordered(rows) && (forall r :: r in rows ==> Less(floor, r.key))
    requires StartsWith(floor, q.prefix) || Less(q.prefix, floor)
    ensures Select(WhilePrefix(rows, q.prefix), q, None) == Select(rows, q, None)
  {
    if rows == [] {
    } else {
      var k := rows[0].key;
      assert rows[0] in rows;
      assert forall r :: r in rows[1..] ==> r in rows;
      if StartsWith(k, q.prefix) {
        WhilePrefixIsSelect(rows[1..], q, floor);
        SelectHead([rows[0]] + WhilePrefix(rows[1..], q.prefix), 0, q);
      } else {
        AboveFloorIsAbovePrefix(q.prefix, floor, k);
        forall r | r in rows ensures !StartsWith(r.key, q.prefix) {
          if StartsWith(r.key, q.prefix) {
            AbovePrefixIsAboveAll(q.prefix, k, r.key);
            NotBoth(r.key, k);
            LessIrreflexive(k);
          }
        }
        SelectNothing(rows, q, None);
      }
    }
  }

  lemma AboveFloorIsAbovePrefix(prefix: Bytes, floor: Bytes, k: Bytes)
    requires Less(floor, k) && (StartsWith(floor, prefix) || Less(prefix, floor))
    ensures Less(prefix, k)
  {
    LessTotal(prefix, floor);
    if Less(prefix, floor) {
      LessTransitive(prefix, floor, k);
    } else if StartsWith(floor, prefix) {
      PrefixIsLeast(prefix, floor);
    }
  }

  /** The cursors for which the early break never hides a key, whatever the store holds. */
  predicate CursorFits(q: Query, after: Bytes) {
    || StartsWith(after, q.prefix)
    || Less(q.prefix, after)
    || q.prefix == after + [0]
    || (q.excluded.Some? && StartsWith(q.prefix, q.excluded.value))
  }

  /** For a fitting cursor the early-breaking loop reaches exactly the rows it should show. */
  lemma ReachedIsSelect(rows: seq<Row>, q: Query, after: Option<Bytes>)
    requires Ordered(rows) && (after.Some? ==> CursorFits(q, after.value))
    ensures Reached(rows, q, after) == Select(rows, q, after)
  {
    match after
    case None => SelectTwice(rows, q);
    case Some(k) =>
      AboveIsSelect(rows, q, k);
      var above := Above(rows, k);
      if StartsWith(k, q.prefix) || Less(q.prefix, k) {
        WhilePrefixIsSelect(above, q, k);
      } else if q.prefix == k + [0] {
        NextPrefix(above, q, k);
      } else {
        assert forall x :: !Visible(q, x);
        SelectNothing(WhilePrefix(above, q.prefix), q, None);
        SelectNothing(above, q, None);
      }
  }

  /** With the prefix right above the cursor, the first key reached is at or above the prefix. */
  lemma NextPrefix(rows: seq<Row>, q: Query, after: Bytes)
    requires Ordered(rows) && (forall r :: r in rows ==> Less(after, r.key)) && q.prefix == after + [0]
    ensures Select(WhilePrefix(rows, q.prefix), q, None) == Select(rows, q, None)
  {
    if rows != [] {
      var k := rows[0].key;
      assert rows[0] in rows;
      ZeroIsNext(after, k);
      if k == q.prefix {
        assert forall r :: r in rows[1..] ==> Less(k, r.key);
        WhilePrefixIsSelect(rows[1..], q, k);
        SelectHead([rows[0]] + WhilePrefix(rows[1..], q.prefix), 0, q);
      } else {
        forall r | r in rows ensures Less(q.prefix, r.key) {
          if r != rows[0] { LessTransitive(q.prefix, k, r.key); }
        }
        WhilePrefixIsSelect(rows, q, q.prefix);
      }
    }
  }

  /** The condition is exact: a cursor that does not fit loses a key in some store. */
  lemma UnfitCursorLosesKey(q: Query, after: Bytes) returns (rows: seq<Row>)
    requires !CursorFits(q, after)
    ensures Ordered(rows)
    ensures Reached(rows, q, Some(after)) == [] && Row(q.prefix, []) in Select(rows, q, Some(after))
  {
    LessTotal(q.prefix, after);
    ZeroIsNext(after, q.prefix);
    var foreign := Row(after + [0], []);
    rows := [foreign, Row(q.prefix, [])];
    if StartsWith(foreign.key, q.prefix) {
      PrefixIsLeast(q.prefix, foreign.key);
      assert false;
    }
    assert Above(rows, after) == rows;
    SelectHolds(rows, q, Some(after));
  }

  // ----- Resuming

  /** Listing on from the i-th key shown gives exactly what was left of the listing. */
  lemma {:induction false} ResumeIsSuffix(rows: seq<Row>, q: Query, after: Option<Bytes>, i: nat)
    requires Ordered(rows) && i < |Select(rows, q, after)|
    ensures Select(rows, q, Some(Select(rows, q, after)[i].key)) == Select(rows, q, after)[i + 1..]
  {
    var all := Select(rows, q, after);
    var k := all[i].key;
    var rest := Select(rows, q, Some(k));
    SelectHolds(rows, q, after);
    SelectHolds(rows, q, Some(k));
    var suffix := all[i + 1..];
    forall r ensures r in rest <==> r in suffix {
      if r in rest {
        assert all[i] in all;
        if after.Some? { LessTransitive(after.value, k, r.key); }
        assert r in all;
        var j :| 0 <= j < |all| && all[j] == r;
        if j <= i {
          LessIrreflexive(k);
          NotBoth(k, r.key);
          assert false;
        }
        assert suffix[j - i - 1] == r;
      }
      if r in suffix {
        assert r in all && Less(k, r.key);
      }
    }
    RowsAreUnique(rest, suffix);
  }

  lemma RowsAreUnique(a: seq<Row>, b: seq<Row>)
    requires Ordered(a) && Ordered(b) && (forall r :: r in a <==> r in b)
    ensures a == b
  {
    assert a != [] ==> a[0] in b;
    assert b != [] ==> b[0] in a;
    if a == [] || b == [] {
    } else {
      if a[0] != b[0] {
        NotBoth(a[0].key, b[0].key);
        assert false;
      }
      forall r ensures r in a[1..] <==> r in b[1..] {
        RestLacksFirst(a, r);
        RestLacksFirst(b, r);
      }
      RowsAreUnique(a[1..], b[1..]);
      assert a == [a[0]] + a[1..] && b == [b[0]] + b[1..];
    }
  }

  lemma RestLacksFirst(a: seq<Row>, r: Row)
    requires Ordered(a) && a != []
    ensures r in a[1..] <==> r in a && r != a[0]
  {
    LessIrreflexive(a[0].key);
  }

  // ----- Byte-bounded batches

  function Size(r: Row): nat {
    |r.key| + |r.value|
  }

  /** The bytes in the first `n` rows. */
  function Total(rows: seq<Row>, n: nat): nat
    requires n <= |rows|
  {
    if n == 0 then 0 else Total(rows, n - 1) + Size(rows[n - 1])
  }

  /** A sum of 64-bit sizes saturates, so the largest budget is never exceeded. */
  predicate Exceeds(total: nat, maxBytes: nat) {
    Min(total, MAX_U64) > maxBytes
  }

  /** The first `n` rows of a range form a batch within both budgets. */
  ghost predicate Fits(range: seq<Row>, n: nat, maxRecords: nat, maxBytes: nat) {
    && n <= |range| && n <= maxRecords
    && !Exceeds(Total(range, n), maxBytes)
  }

  /** No further row may be added, and none that was looked at is too large by itself. */
  ghost predicate IsBatch(range: seq<Row>, n: nat, maxRecords: nat, maxBytes: nat) {
    && Fits(range, n, maxRecords, maxBytes)
    && (n == 0 ==> range == [])
    && (n < |range| && n < maxRecords ==>
          !Exceeds(Size(range[n]), maxBytes) && Exceeds(Total(range, n + 1), maxBytes))
  }

  /** The row at which scanning gives up: everything before it fits, it alone does not. */
  ghost predicate IsOversize(range: seq<Row>, n: nat, maxRecords: nat, maxBytes: nat) {
    && Fits(range, n, maxRecords, maxBytes)
    && n < |range| && n < maxRecords && Exceeds(Size(range[n]), maxBytes)
  }

  lemma {:induction false} TotalGrows(range: seq<Row>, n: nat, m: nat)
    requires n <= m <= |range|
    ensures Total(range, n) <= Total(range, m)
  {
    if n == m {
    } else {
      TotalGrows(range, n, m - 1);
    }
  }

  datatype ScanResult = Batch(rows: seq<Row>) | ByteLimitExceeded(recordBytes: nat, maxBytes: nat)

  datatype Push = More | Full | TooLarge(recordBytes: nat)

  ghost predicate Building(range: seq<Row>, out: seq<Row>, accumulated: nat, maxRecords: nat, maxBytes: nat) {
    && |out| < maxRecords && Fits(range, |out|, maxRecords, maxBytes) && out == range[..|out|]
    && accumulated == Min(Total(range, |out|), MAX_U64)
  }

  /** The batch cannot take the next row: it is closed before it. */
  lemma ClosedBefore(range: seq<Row>, out: seq<Row>, accumulated: nat, maxRecords: nat, maxBytes: nat)
    requires Building(range, out, accumulated, maxRecords, maxBytes) && 0 < |out| < |range|
    requires !Exceeds(Size(range[|out|]), maxBytes) && Exceeds(accumulated + Size(range[|out|]), maxBytes)
    ensures IsBatch(range, |out|, maxRecords, maxBytes)
  {
  }

  /** The batch takes the next row and is either open still or full. */
  lemma GrownBy(range: seq<Row>, out: seq<Row>, accumulated: nat, maxRecords: nat, maxBytes: nat)
    requires Building(range, out, accumulated, maxRecords, maxBytes) && |out| < |range|
    requires !Exceeds(Size(range[|out|]), maxBytes)
    requires out == [] || !Exceeds(accumulated + Size(range[|out|]), maxBytes)
    ensures var grown := out + [range[|out|]];
            var sum := Min(accumulated + Size(range[|out|]), MAX_U64);
            && grown == range[..|grown|]
            && (|grown| < maxRecords ==> Building(range, grown, sum, maxRecords, maxBytes))
            && (|grown| == maxRecords ==> IsBatch(range, |grown|, maxRecords, maxBytes))
  {
    assert out + [range[|out|]] == range[..|out| + 1];
  }

  method PushItem(ghost range: seq<Row>, out: seq<Row>, accumulated: nat, row: Row, maxRecords: nat, maxBytes: nat)
    returns (p: Push, grown: seq<Row>, sum: nat)
    requires Building(range, out, accumulated, maxRecords, maxBytes)
    requires |out| < |range| && range[|out|] == row
    ensures p.More? ==> Building(range, grown, sum, maxRecords, maxBytes) && grown == out + [row]
    ensures p.Full? ==> IsBatch(range, |grown|, maxRecords, maxBytes) && grown == range[..|grown|]
    ensures p.TooLarge? ==>
              IsOversize(range, |out|, maxRecords, maxBytes) && p.recordBytes == Min(Size(row), MAX_U64)
  {
    grown, sum := out, accumulated;
    var bytes := SaturatingAdd(|row.key|, |row.value|, MAX_U64);
    if bytes > maxBytes { return TooLarge(bytes), grown, sum; }
    if out != [] && SaturatingAdd(accumulated, bytes, MAX_U64) > maxBytes {
      ClosedBefore(range, out, accumulated, maxRecords, maxBytes);
      return Full, grown, sum;
    }
    GrownBy(range, out, accumulated, maxRecords, maxBytes);
    sum := SaturatingAdd(accumulated, bytes, MAX_U64);
    grown := out + [row];
    p := if |grown| < maxRecords then More else Full;
  }

  /** One more row for the batch: either the batch goes on, or the scan has its result. */
  method Feed(ghost range: seq<Row>, out: seq<Row>, accumulated: nat, row: Row, maxRecords: nat, maxBytes: nat)
    returns (done: Option<ScanResult>, grown: seq<Row>, sum: nat, ghost n: nat)
    requires Building(range, out, accumulated, maxRecords, maxBytes)
    requires |out| < |range| && range[|out|] == row
    ensures done.None? ==> Building(range, grown, sum, maxRecords, maxBytes) && grown == out + [row]
    ensures done.Some? ==> BatchResult(range, n, maxRecords, maxBytes, done.value)
  {
    var p;
    p, grown, sum := PushItem(range, out, accumulated, row, maxRecords, maxBytes);
    match p {
      case TooLarge(bytes) => done, n := Some(ByteLimitExceeded(bytes, maxBytes)), |out|;
      case Full => done, n := Some(Batch(grown)), |grown|;
      case More => done, n := None, 0;
    }
  }

  method BatchOfRange(range: seq<Row>, prefix: Bytes, start: Bytes, maxRecords: nat, maxBytes: nat)
    returns (r: ScanResult, ghost n: nat)
    requires Ordered(range) && maxRecords > 0 && maxBytes <= MAX_U64
    ensures BatchResult(WhilePrefix(Above(range, start), prefix), n, maxRecords, maxBytes, r)
  {
    ghost var walked := WhilePrefix(Above(range, start), prefix);
    var out: seq<Row>, accumulated: nat := [], 0;
    for i := 0 to |range|
      invariant Building(walked, out, accumulated, maxRecords, maxBytes)
      invariant walked == out + WhilePrefix(Above(range[i..], start), prefix)
    {
      WalkedStep(range, i, start, prefix);
      if !Less(start, range[i].key) { continue; }
      if !StartsWith(range[i].key, prefix) { break; }
      Regroup(out, range[i], WhilePrefix(Above(range[i + 1..], start), prefix));
      assert walked[|out|] == range[i];
      var done, grown, sum;
      done, grown, sum, n := Feed(walked, out, accumulated, range[i], maxRecords, maxBytes);
      if done.Some? { return done.value, n; }
      out, accumulated := grown, sum;
    }
    assert walked == out;
    return Batch(out), |out|;
  }

  method BatchOfScan(scan: seq<Row>, maxRecords: nat, maxBytes: nat) returns (r: ScanResult, ghost n: nat)
    requires maxRecords > 0 && maxBytes <= MAX_U64
    ensures BatchResult(scan, n, maxRecords, maxBytes, r)
  {
    var out: seq<Row>, accumulated: nat := [], 0;
    for i := 0 to |scan|
      invariant Building(scan, out, accumulated, maxRecords, maxBytes) && |out| == i
    {
      var done, grown, sum;
      done, grown, sum, n := Feed(scan, out, accumulated, scan[i], maxRecords, maxBytes);
      if done.Some? { return done.value, n; }
      out, accumulated := grown, sum;
    }
    return Batch(out), |out|;
  }

  /** Either a batch of `n` rows, or the row behind the first `n` is too large by itself. */
  ghost predicate BatchResult(range: seq<Row>, n: nat, maxRecords: nat, maxBytes: nat, r: ScanResult) {
    match r
    case Batch(rows) => IsBatch(range, n, maxRecords, maxBytes) && rows == range[..n]
    case ByteLimitExceeded(recordBytes, limit) =>
      && IsOversize(range, n, maxRecords, maxBytes)
      && recordBytes == Min(Size(range[n]), MAX_U64) && limit == maxBytes
  }

  /** The keys and values of some rows, one after another. */
  function Flat(rows: seq<Row>): Bytes {
    if rows == [] then [] else Flat(rows[..|rows| - 1]) + rows[|rows| - 1].key + rows[|rows| - 1].value
  }

  lemma {:induction false} TotalIsBytes(rows: seq<Row>, n: nat)
    requires n <= |rows|
    ensures Total(rows, n) == |Flat(rows[..n])|
  {
    if n == 0 {
    } else {
      TotalIsBytes(rows, n - 1);
      assert rows[..n][..n - 1] == rows[..n - 1];
    }
  }

  /**
   The budgets in bytes: a batch holds no more bytes of keys and values than allowed and one row
   more would be too many, or a single row is.
   */
  lemma BatchInBytes(range: seq<Row>, n: nat, maxRecords: nat, maxBytes: nat, r: ScanResult)
    requires BatchResult(range, n, maxRecords, maxBytes, r) && maxRecords > 0 && maxBytes < MAX_U64
    ensures n <= |range| && |Flat(range[..n])| <= maxBytes
    ensures r.Batch? ==>
              && r.rows == range[..n] && n <= maxRecords
              && (n < maxRecords && n < |range| ==> |Flat(range[..n])| + |range[n].key| + |range[n].value| > maxBytes)
    ensures r.ByteLimitExceeded? ==> n < |range| && |range[n].key| + |range[n].value| > maxBytes
  {
    TotalIsBytes(range, n);
    if n < |range| {
      TotalIsBytes(range, n + 1);
      assert range[..n + 1][..n] == range[..n];
    }
  }

  /** The budgets decide the outcome: scanning fails exactly when an oversized row comes up. */
  lemma ResultIsUnique(range: seq<Row>, n: nat, m: nat, maxRecords: nat, maxBytes: nat, r: ScanResult, s: ScanResult)
    requires maxRecords > 0 && n <= m
    requires BatchResult(range, n, maxRecords, maxBytes, r) && BatchResult(range, m, maxRecords, maxBytes, s)
    ensures n == m && r == s
  {
    if n < m {
      TotalGrows(range, n + 1, m);
      assert false;
    }
  }
}
