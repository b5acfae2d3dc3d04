/**
 Rows and keys as they cross the guest boundary: little-endian lengths, then the bytes. The host
 encodes; the guest parses with 32-bit saturating offsets.
 */
module GuestRows {
  import opened Basics
  import opened ByteOrder
  import opened Endian
  import opened OrderedStore

  // ----- The encoding

  function RowBytes(r: Row): Bytes {
    Le32(|r.key|) + Le32(|r.value|) + r.key + r.value
  }

  predicate Short(r: Row) { IsU32(|r.key|) && IsU32(|r.value|) }

  predicate Encodable(rows: seq<Row>) {
    IsU32(|rows|) && forall i :: 0 <= i < |rows| ==> Short(rows[i])
  }

  function Body(rows: seq<Row>): Bytes {
    if rows == [] then [] else RowBytes(rows[0]) + Body(rows[1..])
  }

  function Encoding(rows: seq<Row>): Bytes {
    Le32(|rows|) + Body(rows)
  }

  // ----- Where things stand in the buffer

  /** The number of bytes before the i-th row. */
  function RowStart(rows: seq<Row>, i: nat): nat
    requires i <= |rows|
  {
    if i == 0 then 4 else RowStart(rows, i - 1) + 8 + |rows[i - 1].key| + |rows[i - 1].value|
  }

  /** The number that four bytes of a buffer stand for, least significant first. */
  function NumberAt(b: Bytes, p: nat): nat
    requires p + 4 <= |b|
  {
    Quad(b[p + 3], b[p + 2], b[p + 1], b[p])
  }

  lemma {:induction false} RowStartOfRest(rows: seq<Row>, i: nat)
    requires 0 < i <= |rows|
    ensures RowStart(rows, i) == 8 + |rows[0].key| + |rows[0].value| + RowStart(rows[1..], i - 1)
  {
    if i == 1 {
    } else {
      RowStartOfRest(rows, i - 1);
    }
  }

  /** One sequence stands in another at a position. */
  ghost predicate StandsAt<T>(b: seq<T>, p: nat, r: seq<T>) {
    p + |r| <= |b| && b[p..p + |r|] == r
  }

  lemma StandsFirst<T>(r: seq<T>, rest: seq<T>)
    ensures StandsAt(r + rest, 0, r)
  {
  }

  lemma StandsLater<T>(a: seq<T>, b: seq<T>, p: nat, r: seq<T>)
    requires StandsAt(b, p, r)
    ensures StandsAt(a + b, |a| + p, r)
  {
    assert (a + b)[|a| + p..|a| + p + |r|] == b[p..p + |r|];
  }

  lemma PartStands<T>(b: seq<T>, p: nat, r: seq<T>, i: nat, part: seq<T>)
    requires StandsAt(b, p, r) && StandsAt(r, i, part)
    ensures StandsAt(b, p + i, part)
  {
    forall k | 0 <= k < |part| ensures b[p + i..p + i + |part|][k] == part[k] {
      assert part[k] == r[i..i + |part|][k] == r[i + k] == b[p..p + |r|][i + k];
    }
  }

  lemma {:induction false} BodyLength(rows: seq<Row>)
    ensures |Body(rows)| == RowStart(rows, |rows|) - 4
  {
    if rows == [] {
    } else {
      BodyLength(rows[1..]);
      RowStartOfRest(rows, |rows|);
    }
  }

  /** The i-th row stands where the rows before it end. */
  lemma {:induction false} BodyAt(rows: seq<Row>, i: nat)
    requires i < |rows|
    ensures StandsAt(Body(rows), RowStart(rows, i) - 4, RowBytes(rows[i]))
  {
    if i == 0 {
      StandsFirst(RowBytes(rows[0]), Body(rows[1..]));
    } else {
      BodyAt(rows[1..], i - 1);
      RowStartOfRest(rows, i);
      StandsLater(RowBytes(rows[0]), Body(rows[1..]), RowStart(rows[1..], i - 1) - 4, RowBytes(rows[i]));
    }
  }

  lemma NumberOfPart(b: Bytes, p: nat, n: nat)
    requires IsU32(n) && StandsAt(b, p, Le32(n))
    ensures p + 4 <= |b| && NumberAt(b, p) == n
  {
    var r := b[p..p + 4];
    assert r[0] == b[p] && r[1] == b[p + 1] && r[2] == b[p + 2] && r[3] == b[p + 3];
    Le32RoundTrip(n, r);
    Number32(r);
  }

  lemma RowParts(r: Row)
    ensures var b, k := RowBytes(r), |r.key|;
            && StandsAt(b, 0, Le32(k)) && StandsAt(b, 4, Le32(|r.value|)) && StandsAt(b, 8, r.key) && StandsAt(b, 8 + k, r.value)
  {
  }

  lemma RowInBuffer(rows: seq<Row>, i: nat)
    requires i < |rows|
    ensures StandsAt(Encoding(rows), RowStart(rows, i), RowBytes(rows[i]))
  {
    BodyAt(rows, i);
    StandsLater(Le32(|rows|), Body(rows), RowStart(rows, i) - 4, RowBytes(rows[i]));
  }

  lemma PartsInBuffer(b: Bytes, p: nat, row: Row)
    requires Short(row) && StandsAt(b, p, RowBytes(row))
    ensures p + 8 <= |b| && NumberAt(b, p) == |row.key| && NumberAt(b, p + 4) == |row.value|
    ensures StandsAt(b, p + 8, row.key) && StandsAt(b, p + 8 + |row.key|, row.value)
  {
    var r, k := RowBytes(row), |row.key|;
    RowParts(row);
    PartStands(b, p, r, 0, Le32(k));
    PartStands(b, p, r, 4, Le32(|row.value|));
    PartStands(b, p, r, 8, row.key);
    PartStands(b, p, r, 8 + k, row.value);
    NumberOfPart(b, p, k);
    NumberOfPart(b, p + 4, |row.value|);
  }

  /** A buffer starts with the number of rows, and ends where the last one does. */
  lemma BufferEnds(rows: seq<Row>)
    requires Encodable(rows)
    ensures |Encoding(rows)| == RowStart(rows, |rows|) >= 4 && NumberAt(Encoding(rows), 0) == |rows|
  {
    BodyLength(rows);
    StandsFirst(Le32(|rows|), Body(rows));
    NumberOfPart(Encoding(rows), 0, |rows|);
  }

  /** Each row stands behind the one before: first the lengths of its key and its value, */
  lemma BufferLengths(rows: seq<Row>, i: nat)
    requires Encodable(rows) && i < |rows|
    ensures RowStart(rows, i) + 8 <= |Encoding(rows)|
    ensures NumberAt(Encoding(rows), RowStart(rows, i)) == |rows[i].key|
    ensures NumberAt(Encoding(rows), RowStart(rows, i) + 4) == |rows[i].value|
  {
    RowInBuffer(rows, i);
    PartsInBuffer(Encoding(rows), RowStart(rows, i), rows[i]);
  }

  /** then the key, */
  lemma BufferKeys(rows: seq<Row>, i: nat)
    requires Encodable(rows) && i < |rows|
    ensures StandsAt(Encoding(rows), RowStart(rows, i) + 8, rows[i].key)
  {
    RowInBuffer(rows, i);
    PartsInBuffer(Encoding(rows), RowStart(rows, i), rows[i]);
  }

  /** then the value. */
  lemma BufferValues(rows: seq<Row>, i: nat)
    requires Encodable(rows) && i < |rows|
    ensures StandsAt(Encoding(rows), RowStart(rows, i) + 8 + |rows[i].key|, rows[i].value)
  {
    RowInBuffer(rows, i);
    PartsInBuffer(Encoding(rows), RowStart(rows, i), rows[i]);
  }

  // ----- Reading one row off the front

  /** The row at the front and the number of bytes it takes. */
  function FrontRow(b: Bytes): (r: Option<(Row, nat)>)
    ensures r.Some? ==> 8 <= r.value.1 <= |b|
  {
    if |b| < 8 then None
    else
      var k, v := FromLe32(b[..4]), FromLe32(b[4..8]);
      if 8 + k + v > |b| then None else Some((Row(b[8..8 + k], b[8 + k..8 + k + v]), 8 + k + v))
  }

  /** Exactly `count` rows and nothing after them. */
  function Rows(b: Bytes, count: nat): Option<seq<Row>> {
    if count == 0 then (if b == [] then Some([]) else None)
    else match FrontRow(b)
      case Some((row, n)) =>
        (match Rows(b[n..], count - 1)
         case Some(rest) => Some([row] + rest)
         case None => None)
      case None => None
  }

  function Parsed(b: Bytes): Option<seq<Row>> {
    if |b| < 4 then None else Rows(b[4..], FromLe32(b[..4]))
  }

  lemma FrontOfRow(r: Row, rest: Bytes)
    requires Short(r)
    ensures FrontRow(RowBytes(r) + rest) == Some((r, |RowBytes(r)|))
  {
    var k, v := Le32(|r.key|), Le32(|r.value|);
    var b := RowBytes(r) + rest;
    Le32RoundTrip(|r.key|, k);
    Le32RoundTrip(|r.value|, v);
    assert b[..4] == k && b[4..8] == v;
    assert b[8..8 + |r.key|] == r.key;
    assert b[8 + |r.key|..8 + |r.key| + |r.value|] == r.value;
  }

  lemma RowOfFront(b: Bytes)
    requires FrontRow(b).Some?
    ensures var (row, n) := FrontRow(b).value;
            Short(row) && RowBytes(row) == b[..n]
  {
    var (row, n) := FrontRow(b).value;
    Le32RoundTrip(0, b[..4]);
    Le32RoundTrip(0, b[4..8]);
    assert b[..n] == b[..4] + b[4..8] + row.key + row.value;
  }

  lemma {:induction false} RowsOfBody(rows: seq<Row>)
    requires forall i :: 0 <= i < |rows| ==> Short(rows[i])
    ensures Rows(Body(rows), |rows|) == Some(rows)
  {
    if rows == [] {
    } else {
      var first, rest := RowBytes(rows[0]), Body(rows[1..]);
      RowsOfBody(rows[1..]);
      FrontOfRow(rows[0], rest);
      assert Body(rows) == first + rest && (first + rest)[|first|..] == rest;
      assert rows == [rows[0]] + rows[1..];
    }
  }

  lemma BodyOfCons(row: Row, rest: seq<Row>)
    ensures Body([row] + rest) == RowBytes(row) + Body(rest)
  {
    assert ([row] + rest)[1..] == rest;
  }

  /** The first row of a body, its bytes, and the rows behind it. */
  lemma RowsUnfold(b: Bytes, count: nat) returns (row: Row, n: nat, rest: seq<Row>)
    requires Rows(b, count).Some? && count > 0
    ensures Rows(b, count) == Some([row] + rest) && Short(row)
    ensures n <= |b| && b[..n] == RowBytes(row) && Rows(b[n..], count - 1) == Some(rest)
  {
    RowOfFront(b);
    row, n := FrontRow(b).value.0, FrontRow(b).value.1;
    rest := Rows(b[n..], count - 1).value;
  }

  lemma {:induction false} BodyOfRows(b: Bytes, count: nat)
    requires Rows(b, count).Some?
    ensures AreRows(b, count, Rows(b, count).value)
    decreases count
  {
    if count == 0 {
    } else {
      var row, n, rest := RowsUnfold(b, count);
      BodyOfRows(b[n..], count - 1);
      BodyOfCons(row, rest);
      assert b == b[..n] + b[n..];
    }
  }

  /** The bytes are the body of so many short rows. */
  ghost predicate AreRows(b: Bytes, count: nat, rows: seq<Row>) {
    |rows| == count && (forall i :: 0 <= i < |rows| ==> Short(rows[i])) && Body(rows) == b
  }

  /** A buffer is accepted exactly when it is the encoding of the rows returned. */
  lemma ParsedIsEncoding(b: Bytes, rows: seq<Row>)
    ensures Parsed(b) == Some(rows) <==> Encodable(rows) && Encoding(rows) == b
  {
    if Parsed(b) == Some(rows) {
      BodyOfRows(b[4..], FromLe32(b[..4]));
      Le32RoundTrip(0, b[..4]);
      assert b == b[..4] + b[4..];
    }
    if Encodable(rows) && Encoding(rows) == b {
      RowsOfBody(rows);
      Le32RoundTrip(|rows|, Le32(|rows|));
      assert b[..4] == Le32(|rows|) && b[4..] == Body(rows);
    }
  }

  // ----- The guest's parser

  method ReadU32(buf: Bytes, offset: nat) returns (value: Option<nat>, end: nat)
    requires offset <= |buf| < MAX_U32
    ensures value == if offset + 4 <= |buf| then Some(FromLe32(buf[offset..offset + 4])) else None
    ensures value.Some? ==> end == offset + 4 && IsU32(value.value)
  {
    end := SaturatingAdd(offset, 4, MAX_U32);
    if end > |buf| { return None, end; }
    var bytes := [buf[offset], buf[offset + 1], buf[offset + 2], buf[offset + 3]];
    assert bytes == buf[offset..offset + 4];
    Le32RoundTrip(0, bytes);
    value := Some(FromLe32(bytes));
  }

  /** Buffers of the guest are far shorter than the largest 32-bit offset. */
  method ReadRow(buf: Bytes, offset: nat) returns (r: Option<Row>, end: nat)
    requires offset <= |buf| < MAX_U32
    ensures r == match FrontRow(buf[offset..]) case Some((row, _)) => Some(row) case None => None
    ensures r.Some? ==> end == offset + FrontRow(buf[offset..]).value.1
  {
    var keyLen, afterKeyLen := ReadU32(buf, offset);
    if keyLen.None? { return None, offset; }
    var valueLen, start := ReadU32(buf, afterKeyLen);
    if valueLen.None? { return None, offset; }
    ghost var b := buf[offset..];
    assert b[..4] == buf[offset..offset + 4] && b[4..8] == buf[offset + 4..offset + 8];
    var keyEnd := SaturatingAdd(start, keyLen.value, MAX_U32);
    var valueEnd := SaturatingAdd(keyEnd, valueLen.value, MAX_U32);
    if keyEnd > |buf| || valueEnd > |buf| { return None, offset; }
    assert b[8..8 + keyLen.value] == buf[start..keyEnd];
    assert b[8 + keyLen.value..8 + keyLen.value + valueLen.value] == buf[keyEnd..valueEnd];
    return Some(Row(buf[start..keyEnd], buf[keyEnd..valueEnd])), valueEnd;
  }

  function Prepend<T>(rows: seq<T>, rest: Option<seq<T>>): Option<seq<T>> {
    match rest
    case Some(more) => Some(rows + more)
    case None => None
  }

  lemma RowsStep(buf: Bytes, offset: nat, count: nat)
    requires offset <= |buf| && count > 0
    ensures var front := FrontRow(buf[offset..]);
            Rows(buf[offset..], count) ==
              if front.None? then None else Prepend([front.value.0], Rows(buf[offset + front.value.1..], count - 1))
  {
    var front := FrontRow(buf[offset..]);
    if front.Some? { assert buf[offset..][front.value.1..] == buf[offset + front.value.1..]; }
  }

  method ParseRows(buf: Bytes, from: nat, count: nat) returns (r: Option<seq<Row>>)
    requires from <= |buf| < MAX_U32
    ensures r == Rows(buf[from..], count)
  {
    var rows: seq<Row>, offset: nat := [], from;
    ghost var all := Rows(buf[from..], count);
    NothingPrepended(all);
    for i := 0 to count
      invariant offset <= |buf|
      invariant all == Prepend(rows, Rows(buf[offset..], count - i))
    {
      var row, end := ReadRow(buf, offset);
      RowsStep(buf, offset, count - i);
      if row.None? { return None; }
      PrependOne(rows, row.value, Rows(buf[end..], count - i - 1));
      rows, offset := rows + [row.value], end;
    }
    assert Rows(buf[offset..], 0) == if offset == |buf| then Some([]) else None;
    if offset != |buf| { return None; }
    assert rows + [] == rows;
    r := Some(rows);
  }

  method ParseScanRows(buf: Bytes) returns (r: Option<seq<Row>>)
    requires |buf| < MAX_U32
    ensures forall rows :: r == Some(rows) <==> Encodable(rows) && Encoding(rows) == buf
  {
    var count, offset := ReadU32(buf, 0);
    if count.None? {
      r := None;
    } else {
      assert buf[0..4] == buf[..4];
      r := ParseRows(buf, offset, count.value);
    }
    assert r == Parsed(buf);
    forall rows ensures r == Some(rows) <==> Encodable(rows) && Encoding(rows) == buf {
      ParsedIsEncoding(buf, rows);
    }
  }

  lemma NothingPrepended<T>(rest: Option<seq<T>>)
    ensures Prepend([], rest) == rest
  {
    if rest.Some? { assert [] + rest.value == rest.value; }
  }

  lemma PrependOne<T>(rows: seq<T>, row: T, rest: Option<seq<T>>)
    ensures Prepend(rows, Prepend([row], rest)) == Prepend(rows + [row], rest)
  {
    if rest.Some? { assert rows + ([row] + rest.value) == rows + [row] + rest.value; }
  }

  // ----- The host's encoder

  method EncodeScanRows(rows: seq<Row>) returns (out: Option<Bytes>)
    ensures out == if Encodable(rows) then Some(Encoding(rows)) else None
  {
    if |rows| > MAX_U32 { return None; }
    var bytes := Le32(|rows|);
    for i := 0 to |rows|
      invariant forall j :: 0 <= j < i ==> Short(rows[j])
      invariant bytes == Le32(|rows|) + Body(rows[..i])
    {
      var r := rows[i];
      assert Short(rows[i]) <==> IsU32(|r.key|) && IsU32(|r.value|);
      if |r.key| > MAX_U32 { return None; }
      if |r.value| > MAX_U32 { return None; }
      BodyGrows(rows[..i], r);
      assert rows[..i + 1] == rows[..i] + [r];
      Append(Le32(|rows|), Body(rows[..i]), r);
      bytes := bytes + Le32(|r.key|) + Le32(|r.value|) + r.key + r.value;
    }
    assert rows[..|rows|] == rows;
    out := Some(bytes);
  }

  lemma Append(head: Bytes, body: Bytes, r: Row)
    ensures head + body + Le32(|r.key|) + Le32(|r.value|) + r.key + r.value == head + (body + RowBytes(r))
  {
  }

  lemma {:induction false} BodyGrows(rows: seq<Row>, r: Row)
    ensures Body(rows + [r]) == Body(rows) + RowBytes(r)
  {
    if rows == [] {
      assert rows + [r] == [r] && [r][1..] == [];
    } else {
      assert (rows + [r])[1..] == rows[1..] + [r];
      BodyGrows(rows[1..], r);
    }
  }

  /** What the host encodes, the guest reads back. */
  method AcrossBoundary(rows: seq<Row>) returns (r: Option<seq<Row>>)
    requires Encodable(rows) && |Encoding(rows)| < MAX_U32
    ensures r == Some(rows)
  {
    var bytes := EncodeScanRows(rows);
    r := ParseScanRows(bytes.value);
  }

  // ----- Keys alone

  function KeyBytes(k: Bytes): Bytes {
    Le32(|k|) + k
  }

  predicate EncodableKeys(keys: seq<Bytes>) {
    IsU32(|keys|) && forall i :: 0 <= i < |keys| ==> IsU32(|keys[i]|)
  }

  function KeyBody(keys: seq<Bytes>): Bytes {
    if keys == [] then [] else KeyBytes(keys[0]) + KeyBody(keys[1..])
  }

  function KeyEncoding(keys: seq<Bytes>): Bytes {
    Le32(|keys|) + KeyBody(keys)
  }

  function KeyStart(keys: seq<Bytes>, i: nat): nat
    requires i <= |keys|
  {
    if i == 0 then 4 else KeyStart(keys, i - 1) + 4 + |keys[i - 1]|
  }

  lemma {:induction false} KeyStartOfRest(keys: seq<Bytes>, i: nat)
    requires 0 < i <= |keys|
    ensures KeyStart(keys, i) == 4 + |keys[0]| + KeyStart(keys[1..], i - 1)
  {
    if i == 1 {
    } else {
      KeyStartOfRest(keys, i - 1);
    }
  }

  lemma {:induction false} KeyBodyLength(keys: seq<Bytes>)
    ensures |KeyBody(keys)| == KeyStart(keys, |keys|) - 4
  {
    if keys == [] {
    } else {
      KeyBodyLength(keys[1..]);
      KeyStartOfRest(keys, |keys|);
    }
  }

  lemma {:induction false} KeyBodyAt(keys: seq<Bytes>, i: nat)
    requires i < |keys|
    ensures StandsAt(KeyBody(keys), KeyStart(keys, i) - 4, KeyBytes(keys[i]))
  {
    if i == 0 {
      StandsFirst(KeyBytes(keys[0]), KeyBody(keys[1..]));
    } else {
      KeyBodyAt(keys[1..], i - 1);
      KeyStartOfRest(keys, i);
      StandsLater(KeyBytes(keys[0]), KeyBody(keys[1..]), KeyStart(keys[1..], i - 1) - 4, KeyBytes(keys[i]));
    }
  }

  lemma KeyInBuffer(keys: seq<Bytes>, i: nat)
    requires i < |keys|
    ensures StandsAt(KeyEncoding(keys), KeyStart(keys, i), KeyBytes(keys[i]))
  {
    KeyBodyAt(keys, i);
    StandsLater(Le32(|keys|), KeyBody(keys), KeyStart(keys, i) - 4, KeyBytes(keys[i]));
  }

  /** The same for a buffer of keys: the count, */
  lemma KeyBufferEnds(keys: seq<Bytes>)
    requires EncodableKeys(keys)
    ensures |KeyEncoding(keys)| == KeyStart(keys, |keys|) >= 4 && NumberAt(KeyEncoding(keys), 0) == |keys|
  {
    KeyBodyLength(keys);
    StandsFirst(Le32(|keys|), KeyBody(keys));
    NumberOfPart(KeyEncoding(keys), 0, |keys|);
  }

  /** then for each key its length and its bytes. */
  lemma KeyBufferLengths(keys: seq<Bytes>, i: nat)
    requires EncodableKeys(keys) && i < |keys|
    ensures KeyStart(keys, i) + 4 <= |KeyEncoding(keys)| && NumberAt(KeyEncoding(keys), KeyStart(keys, i)) == |keys[i]|
  {
    KeyInBuffer(keys, i);
    KeyPartsInBuffer(KeyEncoding(keys), KeyStart(keys, i), keys[i]);
  }

  lemma KeyBufferKeys(keys: seq<Bytes>, i: nat)
    requires EncodableKeys(keys) && i < |keys|
    ensures StandsAt(KeyEncoding(keys), KeyStart(keys, i) + 4, keys[i])
  {
    KeyInBuffer(keys, i);
    KeyPartsInBuffer(KeyEncoding(keys), KeyStart(keys, i), keys[i]);
  }

  lemma KeyPartsInBuffer(b: Bytes, p: nat, key: Bytes)
    requires IsU32(|key|) && StandsAt(b, p, KeyBytes(key))
    ensures p + 4 <= |b| && NumberAt(b, p) == |key| && StandsAt(b, p + 4, key)
  {
    assert StandsAt(KeyBytes(key), 0, Le32(|key|)) && StandsAt(KeyBytes(key), 4, key);
    PartStands(b, p, KeyBytes(key), 0, Le32(|key|));
    PartStands(b, p, KeyBytes(key), 4, key);
    NumberOfPart(b, p, |key|);
  }

  function FrontKey(b: Bytes): (r: Option<(Bytes, nat)>)
    ensures r.Some? ==> 4 <= r.value.1 <= |b|
  {
    if |b| < 4 then None
    else
      var k := FromLe32(b[..4]);
      if 4 + k > |b| then None else Some((b[4..4 + k], 4 + k))
  }

  function KeyList(b: Bytes, count: nat): Option<seq<Bytes>> {
    if count == 0 then (if b == [] then Some([]) else None)
    else match FrontKey(b)
      case Some((key, n)) =>
        (match KeyList(b[n..], count - 1)
         case Some(rest) => Some([key] + rest)
         case None => None)
      case None => None
  }

  lemma FrontOfKey(k: Bytes, rest: Bytes)
    requires IsU32(|k|)
    ensures FrontKey(KeyBytes(k) + rest) == Some((k, |KeyBytes(k)|))
  {
    var b := KeyBytes(k) + rest;
    Le32RoundTrip(|k|, Le32(|k|));
    assert b[..4] == Le32(|k|) && b[4..4 + |k|] == k;
  }

  lemma KeyOfFront(b: Bytes)
    requires FrontKey(b).Some?
    ensures var (key, n) := FrontKey(b).value; IsU32(|key|) && KeyBytes(key) == b[..n]
  {
    var (key, n) := FrontKey(b).value;
    Le32RoundTrip(0, b[..4]);
    assert b[..n] == b[..4] + key;
  }

  lemma {:induction false} KeysOfBody(keys: seq<Bytes>)
    requires forall i :: 0 <= i < |keys| ==> IsU32(|keys[i]|)
    ensures KeyList(KeyBody(keys), |keys|) == Some(keys)
  {
    if keys == [] {
    } else {
      var first, rest := KeyBytes(keys[0]), KeyBody(keys[1..]);
      KeysOfBody(keys[1..]);
      FrontOfKey(keys[0], rest);
      assert KeyBody(keys) == first + rest && (first + rest)[|first|..] == rest;
      assert keys == [keys[0]] + keys[1..];
    }
  }

  lemma BodyOfKeyCons(key: Bytes, rest: seq<Bytes>)
    ensures KeyBody([key] + rest) == KeyBytes(key) + KeyBody(rest)
  {
    assert ([key] + rest)[1..] == rest;
  }

  lemma {:induction false} BodyOfKeys(b: Bytes, count: nat)
    requires KeyList(b, count).Some?
    ensures var keys := KeyList(b, count).value;
            |keys| == count && (forall i :: 0 <= i < |keys| ==> IsU32(|keys[i]|)) && KeyBody(keys) == b
    decreases count
  {
    if count == 0 {
    } else {
      var (key, n) := FrontKey(b).value;
      var rest := KeyList(b[n..], count - 1).value;
      KeyOfFront(b);
      BodyOfKeys(b[n..], count - 1);
      BodyOfKeyCons(key, rest);
      assert b == b[..n] + b[n..];
    }
  }

  lemma KeyListIsEncoding(b: Bytes, keys: seq<Bytes>)
    ensures |b| >= 4 && KeyList(b[4..], FromLe32(b[..4])) == Some(keys) <==> EncodableKeys(keys) && KeyEncoding(keys) == b
  {
    if |b| >= 4 && KeyList(b[4..], FromLe32(b[..4])) == Some(keys) {
      BodyOfKeys(b[4..], FromLe32(b[..4]));
      Le32RoundTrip(0, b[..4]);
      assert b == b[..4] + b[4..];
    }
    if EncodableKeys(keys) && KeyEncoding(keys) == b {
      KeysOfBody(keys);
      Le32RoundTrip(|keys|, Le32(|keys|));
      assert b[..4] == Le32(|keys|) && b[4..] == KeyBody(keys);
    }
  }

  method ReadKey(buf: Bytes, offset: nat) returns (r: Option<Bytes>, end: nat)
    requires offset <= |buf| < MAX_U32
    ensures r == match FrontKey(buf[offset..]) case Some((key, _)) => Some(key) case None => None
    ensures r.Some? ==> end == offset + FrontKey(buf[offset..]).value.1
  {
    var length, start := ReadU32(buf, offset);
    if length.None? { return None, offset; }
    ghost var b := buf[offset..];
    assert b[..4] == buf[offset..offset + 4];
    end := SaturatingAdd(start, length.value, MAX_U32);
    if end > |buf| { return None, offset; }
    assert b[4..4 + length.value] == buf[start..end];
    r := Some(buf[start..end]);
  }

  method ReadKeys(buf: Bytes, from: nat, count: nat) returns (r: Option<seq<Bytes>>)
    requires from <= |buf| < MAX_U32
    ensures r == KeyList(buf[from..], count)
  {
    var keys: seq<Bytes>, offset: nat := [], from;
    ghost var all := KeyList(buf[from..], count);
    NothingPrepended(all);
    for i := 0 to count
      invariant offset <= |buf|
      invariant all == Prepend(keys, KeyList(buf[offset..], count - i))
    {
      var key, end := ReadKey(buf, offset);
      if key.None? { return None; }
      assert buf[offset..][end - offset..] == buf[end..];
      PrependOne(keys, key.value, KeyList(buf[end..], count - i - 1));
      keys, offset := keys + [key.value], end;
    }
    if offset != |buf| { return None; }
    assert keys + [] == keys;
    r := Some(keys);
  }

  method ParseKeys(buf: Bytes) returns (r: Option<seq<Bytes>>)
    requires |buf| < MAX_U32
    ensures forall keys :: r == Some(keys) <==> EncodableKeys(keys) && KeyEncoding(keys) == buf
  {
    var count, offset := ReadU32(buf, 0);
    r := None;
    if count.Some? {
      assert buf[0..4] == buf[..4];
      r := ReadKeys(buf, offset, count.value);
    }
    forall keys ensures r == Some(keys) <==> EncodableKeys(keys) && KeyEncoding(keys) == buf {
      KeyListIsEncoding(buf, keys);
    }
  }
}
