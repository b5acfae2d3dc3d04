/** Walks over a store that does not change: pages by key, pages by offset and byte-bounded batches. */
module ScanWalks {
  import opened Basics
  import opened ByteOrder
  import opened OrderedStore

  function Flatten<T>(pages: seq<seq<T>>): seq<T> {
    if pages == [] then [] else pages[0] + Flatten(pages[1..])
  }

  lemma FlattenCons<T>(page: seq<T>, pages: seq<seq<T>>)
    ensures Flatten([page] + pages) == page + Flatten(pages)
  {
    assert ([page] + pages)[1..] == pages;
  }

  function LastKey(page: seq<Row>): Bytes
    requires page != []
  {
    page[|page| - 1].key
  }

  /** A cursor taken from a listing fits its query. */
  lemma ListedCursorFits(rows: seq<Row>, q: Query, after: Option<Bytes>, i: nat)
    requires i < |Select(rows, q, after)|
    ensures CursorFits(q, Select(rows, q, after)[i].key)
  {
    SelectHolds(rows, q, after);
    assert Select(rows, q, after)[i] in Select(rows, q, after);
  }

  /** A full page resumes behind its last key, with less left to show. */
  lemma NextPage(rows: seq<Row>, q: Query, after: Option<Bytes>, limit: nat)
    requires Ordered(rows) && limit > 0 && (after.Some? ==> CursorFits(q, after.value))
    ensures var all := Select(rows, q, after);
            && Reached(rows, q, after) == all
            && (|all| >= limit ==>
                  && LastKey(Take(all, limit)) == all[limit - 1].key
                  && CursorFits(q, all[limit - 1].key)
                  && Select(rows, q, Some(all[limit - 1].key)) == all[limit..])
  {
    ReachedIsSelect(rows, q, after);
    if |Select(rows, q, after)| >= limit {
      ListedCursorFits(rows, q, after, limit - 1);
      ResumeIsSuffix(rows, q, after, limit - 1);
    }
  }

  /** The pages a client gets by handing back the last key of each, until one is not full. */
  ghost function CursorPages(rows: seq<Row>, q: Query, after: Option<Bytes>, limit: nat): seq<seq<Row>>
    requires Ordered(rows) && limit > 0 && (after.Some? ==> CursorFits(q, after.value))
    decreases |Select(rows, q, after)|
  {
    var page := Take(Reached(rows, q, after), limit);
    NextPage(rows, q, after, limit);
    if |page| < limit then [page] else [page] + CursorPages(rows, q, Some(LastKey(page)), limit)
  }

  ghost function OffsetPages(rows: seq<Row>, q: Query, offset: nat, limit: nat): seq<seq<Row>>
    requires limit > 0
    decreases |Select(rows, q, None)| - offset
  {
    var all := Select(rows, q, None);
    var page := Take(all[Min(offset, |all|)..], limit);
    if |page| < limit then [page] else [page] + OffsetPages(rows, q, offset + |page|, limit)
  }

  /** Following key cursors shows the whole listing. */
  lemma {:induction false} CursorPagesShowAll(rows: seq<Row>, q: Query, after: Option<Bytes>, limit: nat)
    requires Ordered(rows) && limit > 0 && (after.Some? ==> CursorFits(q, after.value))
    ensures Flatten(CursorPages(rows, q, after, limit)) == Select(rows, q, after)
    decreases |Select(rows, q, after)|
  {
    var all := Select(rows, q, after);
    NextPage(rows, q, after, limit);
    var page := Take(all, limit);
    if |page| < limit {
      assert CursorPages(rows, q, after, limit) == [page];
    } else {
      var next := Some(LastKey(page));
      CursorPagesShowAll(rows, q, next, limit);
      assert CursorPages(rows, q, after, limit) == [page] + CursorPages(rows, q, next, limit);
      FlattenCons(page, CursorPages(rows, q, next, limit));
      assert all == page + all[limit..];
    }
  }

  /** The cursor behind the first `offset` rows. */
  ghost function CursorAt(rows: seq<Row>, q: Query, offset: nat): Option<Bytes>
    requires offset <= |Select(rows, q, None)|
  {
    if offset == 0 then None else Some(Select(rows, q, None)[offset - 1].key)
  }

  lemma CursorAtFits(rows: seq<Row>, q: Query, offset: nat)
    requires Ordered(rows) && offset <= |Select(rows, q, None)|
    ensures var cursor := CursorAt(rows, q, offset);
            && (cursor.Some? ==> CursorFits(q, cursor.value))
            && Select(rows, q, cursor) == Select(rows, q, None)[offset..]
            && Reached(rows, q, cursor) == Select(rows, q, cursor)
  {
    if offset > 0 {
      ListedCursorFits(rows, q, None, offset - 1);
      ResumeIsSuffix(rows, q, None, offset - 1);
    }
    ReachedIsSelect(rows, q, CursorAt(rows, q, offset));
  }

  /** Counting offsets gives the very same pages as following key cursors. */
  lemma {:induction false} OffsetPagesAreCursorPages(rows: seq<Row>, q: Query, offset: nat, limit: nat)
    requires Ordered(rows) && limit > 0 && offset <= |Select(rows, q, None)|
    ensures var cursor := CursorAt(rows, q, offset);
            && (cursor.Some? ==> CursorFits(q, cursor.value))
            && OffsetPages(rows, q, offset, limit) == CursorPages(rows, q, cursor, limit)
    decreases |Select(rows, q, None)| - offset
  {
    var all := Select(rows, q, None);
    CursorAtFits(rows, q, offset);
    var page := Take(all[offset..], limit);
    assert Min(offset, |all|) == offset;
    if |page| < limit {
    } else {
      assert Some(LastKey(page)) == CursorAt(rows, q, offset + limit);
      OffsetPagesAreCursorPages(rows, q, offset + limit, limit);
      assert OffsetPages(rows, q, offset, limit) == [page] + OffsetPages(rows, q, offset + limit, limit);
    }
  }

  // ----- Byte-bounded batches

  lemma {:induction false} SelectEverything(rows: seq<Row>, q: Query)
    requires forall r :: r in rows ==> Visible(q, r.key)
    ensures Select(rows, q, None) == rows
  {
    if rows == [] {
    } else {
      assert rows[0] in rows && rows == [rows[0]] + rows[1..];
      SelectEverything(rows[1..], q);
    }
  }

  lemma {:induction false} WhilePrefixCarries(rows: seq<Row>, prefix: Bytes)
    ensures forall r :: r in WhilePrefix(rows, prefix) ==> StartsWith(r.key, prefix)
  {
    if rows == [] {
    } else {
      WhilePrefixCarries(rows[1..], prefix);
    }
  }

  /** What the batched scan runs over is the prefix range above the cursor. */
  lemma WalkedIsSelect(rows: seq<Row>, prefix: Bytes, after: Option<Bytes>)
    requires Ordered(rows) && (after.Some? ==> StartsWith(after.value, prefix))
    ensures Walked(rows, prefix, after) == Select(rows, Query(prefix, None), after)
  {
    var q := Query(prefix, None);
    if after.Some? {
      WhilePrefixCarries(Above(rows, after.value), prefix);
      SelectEverything(Walked(rows, prefix, after), q);
      ReachedIsSelect(rows, q, after);
    }
  }

  /** What a scan may answer for the range it runs over. */
  type Answer = (seq<Row>, ScanResult) -> bool

  /**
   A walk to its end: each batch is followed by a scan behind its last key, until a scan comes back
   empty or fails.
   */
  ghost predicate Walk(rows: seq<Row>, prefix: Bytes, after: Option<Bytes>, answer: Answer, batches: seq<seq<Row>>,
                       last: ScanResult)
    decreases |batches|
  {
    if batches == [] then answer(Walked(rows, prefix, after), last) && (last.Batch? ==> last.rows == [])
    else
      && batches[0] != [] && answer(Walked(rows, prefix, after), Batch(batches[0]))
      && Walk(rows, prefix, Some(LastKey(batches[0])), answer, batches[1..], last)
  }

  /** Batches are beginnings of the range, empty only when the range is. */
  ghost predicate Begins(answer: Answer) {
    forall range, batch :: answer(range, Batch(batch)) ==> batch <= range && (batch == [] ==> range == [])
  }

  lemma ExtendSplit<T>(range: seq<T>, first: seq<T>, more: seq<T>)
    requires first <= range && more <= range[|first|..]
    ensures first + more <= range && range[|first + more|..] == range[|first|..][|more|..]
  {
    assert range == first + range[|first|..];
  }

  /** The batches make up a beginning of the range, and the last scan ran over the rest. */
  lemma {:induction false} WalkSplitsRange(rows: seq<Row>, prefix: Bytes, after: Option<Bytes>, answer: Answer,
                                           batches: seq<seq<Row>>, last: ScanResult)
    requires Ordered(rows) && (after.Some? ==> StartsWith(after.value, prefix))
    requires Begins(answer) && Walk(rows, prefix, after, answer, batches, last)
    ensures var range := Select(rows, Query(prefix, None), after);
            Flatten(batches) <= range && answer(range[|Flatten(batches)|..], last)
    ensures last.Batch? ==> last.rows == []
    decreases |batches|
  {
    WalkedIsSelect(rows, prefix, after);
    var q := Query(prefix, None);
    var range := Select(rows, q, after);
    if batches == [] {
      assert range[0..] == range;
    } else {
      var first := batches[0];
      SelectHolds(rows, q, after);
      assert range[|first| - 1] in range;
      ResumeIsSuffix(rows, q, after, |first| - 1);
      WalkSplitsRange(rows, prefix, Some(LastKey(first)), answer, batches[1..], last);
      ExtendSplit(range, first, Flatten(batches[1..]));
    }
  }

  /** The rows of a batch are small by themselves. */
  lemma {:induction false} FittingRowsAreSmall(range: seq<Row>, n: nat, maxBytes: nat, i: nat)
    requires i < n <= |range| && !Exceeds(Total(range, n), maxBytes)
    ensures !Exceeds(Size(range[i]), maxBytes)
  {
    TotalGrows(range, i + 1, n);
  }

  /** The answer of the byte-bounded scan. */
  ghost predicate Bounded(maxRecords: nat, maxBytes: nat, range: seq<Row>, r: ScanResult) {
    exists n: nat :: BatchResult(range, n, maxRecords, maxBytes, r)
  }

  /** A batch holds only rows that are small by themselves. */
  ghost predicate Small(maxBytes: nat, range: seq<Row>) {
    forall i :: 0 <= i < |range| ==> !Exceeds(Size(range[i]), maxBytes)
  }

  lemma BoundedAnswers(maxRecords: nat, maxBytes: nat, range: seq<Row>, r: ScanResult)
    requires maxRecords > 0 && Bounded(maxRecords, maxBytes, range, r)
    ensures r.Batch? ==> r.rows <= range && Small(maxBytes, r.rows) && (r.rows == [] ==> range == [])
    ensures r.ByteLimitExceeded? ==> exists n: nat :: FirstOversize(range, n, maxBytes) && r.recordBytes == Min(Size(range[n]), MAX_U64)
  {
    var n: nat :| BatchResult(range, n, maxRecords, maxBytes, r);
    forall i | 0 <= i < n ensures !Exceeds(Size(range[i]), maxBytes) { FittingRowsAreSmall(range, n, maxBytes, i); }
    if r.Batch? {
      assert forall i :: 0 <= i < n ==> r.rows[i] == range[i];
    } else {
      assert FirstOversize(range, n, maxBytes);
    }
  }

  /** The first row that exceeds the byte budget by itself. */
  ghost predicate FirstOversize(range: seq<Row>, n: nat, maxBytes: nat) {
    n < |range| && Exceeds(Size(range[n]), maxBytes) && forall i :: 0 <= i < n ==> !Exceeds(Size(range[i]), maxBytes)
  }

  lemma {:induction false} WalkedRowsAreSmall(rows: seq<Row>, prefix: Bytes, after: Option<Bytes>, maxRecords: nat, maxBytes: nat,
                                              answer: Answer, batches: seq<seq<Row>>, last: ScanResult)
    requires maxRecords > 0 && Walk(rows, prefix, after, answer, batches, last)
    requires forall range, r :: answer(range, r) ==> Bounded(maxRecords, maxBytes, range, r)
    ensures Small(maxBytes, Flatten(batches))
    decreases |batches|
  {
    if batches == [] {
    } else {
      BoundedAnswers(maxRecords, maxBytes, Walked(rows, prefix, after), Batch(batches[0]));
      WalkedRowsAreSmall(rows, prefix, Some(LastKey(batches[0])), maxRecords, maxBytes, answer, batches[1..], last);
    }
  }

  /**
   A byte-bounded walk ends with the whole prefix range if and only if no row of it exceeds the byte
   budget by itself. Otherwise it stops at the first such row, having returned rows before it only.
   */
  lemma BoundedWalkEnds(rows: seq<Row>, prefix: Bytes, maxRecords: nat, maxBytes: nat, batches: seq<seq<Row>>, last: ScanResult)
    requires Ordered(rows) && maxRecords > 0
    requires Walk(rows, prefix, None, (range, r) => Bounded(maxRecords, maxBytes, range, r), batches, last)
    ensures var range := Select(rows, Query(prefix, None), None);
            && Flatten(batches) <= range
            && (last.Batch? <==> Small(maxBytes, range))
            && (last.Batch? ==> Flatten(batches) == range)
            && (last.ByteLimitExceeded? ==>
                  exists n: nat :: FirstOversize(range, n, maxBytes) && |Flatten(batches)| <= n &&
                              last.recordBytes == Min(Size(range[n]), MAX_U64))
  {
    var answer: Answer := (range, r) => Bounded(maxRecords, maxBytes, range, r);
    var range := Select(rows, Query(prefix, None), None);
    forall a, b | answer(a, Batch(b)) ensures b <= a && (b == [] ==> a == []) {
      BoundedAnswers(maxRecords, maxBytes, a, Batch(b));
    }
    WalkSplitsRange(rows, prefix, None, answer, batches, last);
    WalkedRowsAreSmall(rows, prefix, None, maxRecords, maxBytes, answer, batches, last);
    assert range[..|Flatten(batches)|] == Flatten(batches);
    LastScan(range, |Flatten(batches)|, maxRecords, maxBytes, last);
  }

  lemma LastScan(range: seq<Row>, m: nat, maxRecords: nat, maxBytes: nat, last: ScanResult)
    requires maxRecords > 0 && m <= |range| && Small(maxBytes, range[..m])
    requires Bounded(maxRecords, maxBytes, range[m..], last) && (last.Batch? ==> last.rows == [])
    ensures last.Batch? ==> m == |range| && Small(maxBytes, range)
    ensures last.ByteLimitExceeded? ==>
              exists n: nat :: FirstOversize(range, n, maxBytes) && m <= n && last.recordBytes == Min(Size(range[n]), MAX_U64)
  {
    BoundedAnswers(maxRecords, maxBytes, range[m..], last);
    if last.Batch? {
      assert range[..m] == range;
    } else {
      var n: nat :| FirstOversize(range[m..], n, maxBytes) && last.recordBytes == Min(Size(range[m..][n]), MAX_U64);
      assert range[m..][n] == range[m + n];
      forall i | 0 <= i < m + n ensures !Exceeds(Size(range[i]), maxBytes) {
        if i < m { assert range[..m][i] == range[i]; } else { assert range[m..][i - m] == range[i]; }
      }
      assert FirstOversize(range, m + n, maxBytes);
    }
  }

  /** Scanning on behind each batch comes to an end. */
  method ScanToEnd(store: Store, prefix: Bytes, after: Option<Bytes>, maxRecords: nat, maxBytes: nat)
    returns (batches: seq<seq<Row>>, last: ScanResult)
    requires store.Valid() && maxRecords > 0 && maxBytes <= MAX_U64 && (after.Some? ==> StartsWith(after.value, prefix))
    ensures Walk(store.rows, prefix, after, (range, r) => Bounded(maxRecords, maxBytes, range, r), batches, last)
    decreases |Select(store.rows, Query(prefix, None), after)|
  {
    ghost var answer: Answer := (range, r) => Bounded(maxRecords, maxBytes, range, r);
    ghost var range := Walked(store.rows, prefix, after);
    ghost var n;
    last, n := store.ScanPrefixPageAfterBounded(prefix, after, maxRecords, maxBytes);
    assert answer(range, last);
    if last.ByteLimitExceeded? || last.rows == [] { return [], last; }
    var first := last.rows;
    Resumes(store.rows, prefix, after, first);
    batches, last := ScanToEnd(store, prefix, Some(LastKey(first)), maxRecords, maxBytes);
    assert ([first] + batches)[1..] == batches;
    batches := [first] + batches;
  }

  lemma Resumes(rows: seq<Row>, prefix: Bytes, after: Option<Bytes>, batch: seq<Row>)
    requires Ordered(rows) && (after.Some? ==> StartsWith(after.value, prefix))
    requires batch != [] && batch <= Walked(rows, prefix, after)
    ensures StartsWith(LastKey(batch), prefix)
    ensures |Select(rows, Query(prefix, None), Some(LastKey(batch)))| < |Select(rows, Query(prefix, None), after)|
  {
    var q := Query(prefix, None);
    var range := Select(rows, q, after);
    WalkedIsSelect(rows, prefix, after);
    SelectHolds(rows, q, after);
    assert range[|batch| - 1] in range;
    ResumeIsSuffix(rows, q, after, |batch| - 1);
  }
}
