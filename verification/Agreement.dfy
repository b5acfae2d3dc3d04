/**
 When two lists of the same operations have the same outcome: exactly when the same writes
 prevail where operations clash, and the counters add up alike.
 */
module Agreement {
  import opened Basics
  import opened ByteOrder
  import opened Crdt
  import opened Folding
  import opened Replication
  import opened CrdtReadings

  ghost predicate SameOps(a: seq<Op>, b: seq<Op>) {
    forall x :: x in a <==> x in b
  }

  // ----- Which write prevails

  function StampOf(op: Op): Stamp
    requires op.kind.RegisterSet?
  {
    Stamp(Some(op.kind.value), op.kind.timestamp, op.origin)
  }

  /** A write of the same register that is later, or as late and by a greater author. */
  predicate Beats(y: Op, x: Op) {
    && y.kind.RegisterSet? && x.kind.RegisterSet? && y.key == x.key
    && (|| x.kind.timestamp < y.kind.timestamp
        || (x.kind.timestamp == y.kind.timestamp && Less(x.origin, y.origin)))
  }

  ghost predicate Beaten(ops: seq<Op>, x: Op) {
    exists y :: y in ops && Beats(y, x)
  }

  /** The same write by name and content, were it under another identifier. */
  predicate Agrees(y: Op, x: Op) {
    y.key == x.key && y.kind == x.kind && (y.kind.RegisterSet? ==> y.origin == x.origin)
  }

  /** Nothing that clashes with the operation comes before all that agree with it. */
  ghost predicate Leads(ops: seq<Op>, x: Op) {
    forall j :: 0 <= j < |ops| && Clash(ops[j], x) ==> exists i :: 0 <= i < j && Agrees(ops[i], x)
  }

  ghost predicate Prevails(ops: seq<Op>, x: Op) {
    !Beaten(ops, x) && Leads(ops, x)
  }

  lemma FirstWritePrevails(ops: seq<Op>, x: Op, i: nat)
    requires x in ops && x.kind.RegisterSet? && FirstWrite(ops, i, x.key, StampOf(x))
    ensures Leads(ops, x)
  {
    assert Agrees(ops[i], x);
    forall j | 0 <= j < |ops| && Clash(ops[j], x) ensures exists i :: 0 <= i < j && Agrees(ops[i], x) {
      assert Writes(ops[j], x.key, StampOf(ops[j]));
      assert i < j;
    }
  }

  lemma LeaderIsFirst(ops: seq<Op>, x: Op, i: nat, s: Stamp)
    requires x.kind.RegisterSet? && Leads(ops, x) && FirstWrite(ops, i, x.key, s)
    requires s.timestamp == x.kind.timestamp && s.writer == x.origin
    ensures s == StampOf(x)
  {
    assert forall k :: 0 <= k < |ops| && Agrees(ops[k], x) ==> Writes(ops[k], x.key, StampOf(x));
    assert s != StampOf(x) ==> Clash(ops[i], x);
  }

  /** A register holds exactly the write that prevails. */
  lemma RegisterPrevails(ops: seq<Op>, x: Op)
    requires x in ops && x.kind.RegisterSet?
    ensures var c := CellOf(ops, (Registers, x.key));
            c.Register? && (c.current == Some(StampOf(x)) <==> Prevails(ops, x))
  {
    RegisterReading(ops, x.key);
    FirstWriteReading(ops, x.key);
    assert Writes(x, x.key, StampOf(x));
    var s := CellOf(ops, (Registers, x.key)).current.value;
    var i: nat :| FirstWrite(ops, i, x.key, s);
    assert ops[i] in ops;
    forall y | y in ops && Beats(y, x) ensures s != StampOf(x) { assert Writes(y, x.key, StampOf(y)); }
    if s == StampOf(x) {
      FirstWritePrevails(ops, x, i);
    } else if Prevails(ops, x) {
      assert !Beats(ops[i], x);
      RegisterOrder(s, StampOf(x), s);
      LeaderIsFirst(ops, x, i, s);
    }
  }

  /** An array holds exactly the insertion that prevails. */
  lemma InsertPrevails(ops: seq<Op>, x: Op)
    requires x in ops && x.kind.RgaInsert?
    ensures var c := CellOf(ops, (Rgas, x.key));
            c.Rga? && (Holds(c, x.kind.element, Element(x.kind.parent, x.kind.value)) <==> Prevails(ops, x))
  {
    var id, e := x.kind.element, Element(x.kind.parent, x.kind.value);
    var k :| 0 <= k < |ops| && ops[k] == x;
    assert InsertsSome(ops[k], x.key, id);
    ElementReading(ops, x.key, id, e);
    var held := CellOf(ops, (Rgas, x.key)).elements[id];
    ElementReading(ops, x.key, id, held);
    var i: nat :| FirstInsert(ops, i, x.key, id, held);
    if held == e {
      assert Agrees(ops[i], x);
      forall j | 0 <= j < |ops| && Clash(ops[j], x) ensures exists i :: 0 <= i < j && Agrees(ops[i], x) {
        assert InsertsSome(ops[j], x.key, id);
        assert i < j;
      }
    } else {
      assert Clash(ops[i], x);
      assert forall j :: 0 <= j < |ops| && Agrees(ops[j], x) ==> InsertsSome(ops[j], x.key, id);
    }
  }

  // ----- Cell by cell

  ghost predicate SameWinners(a: seq<Op>, b: seq<Op>) {
    forall x :: x in a ==> (Prevails(a, x) <==> Prevails(b, x))
  }

  /** What the slot of a counter shows. */
  function Capped(ops: seq<Op>, slot: Slot): nat { Min(Sum(ops, slot), MAX_U64) }

  ghost predicate SameSums(a: seq<Op>, b: seq<Op>) {
    forall slot :: Capped(a, slot) == Capped(b, slot)
  }

  lemma SameSide(a: seq<Op>, b: seq<Op>, side: Side, key: Bytes)
    requires SameOps(a, b) && SameSums(a, b)
    ensures var t := CellTarget(Slot(side, key, []));
            Counts(CellOf(a, t), side) == Counts(CellOf(b, t), side)
  {
    var t := CellTarget(Slot(side, key, []));
    var c, d := Counts(CellOf(a, t), side), Counts(CellOf(b, t), side);
    CellReading(a, t);
    CellReading(b, t);
    forall node ensures node in c <==> node in d {
      SlotReading(a, Slot(side, key, node));
      SlotReading(b, Slot(side, key, node));
    }
    forall node | node in c ensures c[node] == d[node] {
      var slot := Slot(side, key, node);
      CounterReading(a, slot);
      CounterReading(b, slot);
      assert Capped(a, slot) == Capped(b, slot);
    }
    assert c == d;
  }

  lemma SameRegister(a: seq<Op>, b: seq<Op>, key: Bytes)
    requires SameOps(a, b) && SameWinners(a, b)
    ensures CellOf(a, (Registers, key)) == CellOf(b, (Registers, key))
  {
    RegisterReading(a, key);
    RegisterReading(b, key);
    var c, d := CellOf(a, (Registers, key)).current, CellOf(b, (Registers, key)).current;
    if c.Some? {
      var x :| x in a && Writes(x, key, c.value);
      RegisterPrevails(a, x);
      RegisterPrevails(b, x);
    }
    assert d.Some? ==> exists x :: x in a && Writes(x, key, d.value);
  }

  lemma SameMap(a: seq<Op>, b: seq<Op>, key: Bytes)
    requires SameOps(a, b)
    ensures CellOf(a, (LwwMaps, key)) == CellOf(b, (LwwMaps, key))
  {
    MapReading(a, key, []);
    MapReading(b, key, []);
    var c, d := CellOf(a, (LwwMaps, key)).fields, CellOf(b, (LwwMaps, key)).fields;
    forall field ensures field in c <==> field in d { SameField(a, b, key, field); }
    forall field | field in c ensures c[field] == d[field] { SameField(a, b, key, field); }
    assert c == d;
  }

  lemma SameField(a: seq<Op>, b: seq<Op>, key: Bytes, field: Bytes)
    requires SameOps(a, b)
    ensures var c, d := CellOf(a, (LwwMaps, key)), CellOf(b, (LwwMaps, key));
            && c.LwwMap? && d.LwwMap? && (field in c.fields <==> field in d.fields)
            && (field in c.fields ==> c.fields[field] == d.fields[field])
  {
    MapReading(a, key, field);
    MapReading(b, key, field);
    var c, d := CellOf(a, (LwwMaps, key)).fields, CellOf(b, (LwwMaps, key)).fields;
    if field in c {
      var x :| x in a && Enters(x, key, field, c[field]);
      assert x in b;
      var y :| y in b && Enters(y, key, field, d[field]);
      assert y in a;
      EntryOrder(c[field], d[field], c[field]);
    }
    assert field in d ==> exists y :: y in a && Enters(y, key, field, d[field]);
  }

  lemma SameSet(a: seq<Op>, b: seq<Op>, key: Bytes)
    requires SameOps(a, b)
    ensures CellOf(a, (OrSets, key)) == CellOf(b, (OrSets, key))
  {
    var c, d := CellOf(a, (OrSets, key)), CellOf(b, (OrSets, key));
    RecordReading(a, key, []);
    RecordReading(b, key, []);
    forall e ensures (e in c.adds <==> e in d.adds) && (e in c.removes <==> e in d.removes) {
      RecordReading(a, key, e);
      RecordReading(b, key, e);
    }
    forall e ensures Tags(c.adds, e) == Tags(d.adds, e) && Tags(c.removes, e) == Tags(d.removes, e) {
      SameTags(a, b, key, e);
    }
    assert forall e :: e in c.adds ==> c.adds[e] == Tags(c.adds, e) == Tags(d.adds, e) == d.adds[e];
    assert forall e :: e in c.removes ==> c.removes[e] == Tags(c.removes, e) == Tags(d.removes, e) == d.removes[e];
    assert c.adds == d.adds && c.removes == d.removes;
  }

  lemma SameTags(a: seq<Op>, b: seq<Op>, key: Bytes, e: Bytes)
    requires SameOps(a, b) && CellOf(a, (OrSets, key)).OrSet? && CellOf(b, (OrSets, key)).OrSet?
    ensures var c, d := CellOf(a, (OrSets, key)), CellOf(b, (OrSets, key));
            Tags(c.adds, e) == Tags(d.adds, e) && Tags(c.removes, e) == Tags(d.removes, e)
  {
    var c, d := CellOf(a, (OrSets, key)), CellOf(b, (OrSets, key));
    forall tag ensures (tag in Tags(c.adds, e) <==> tag in Tags(d.adds, e)) &&
                       (tag in Tags(c.removes, e) <==> tag in Tags(d.removes, e))
    {
      TagReading(a, key, e, tag);
      TagReading(b, key, e, tag);
    }
  }

  lemma SameArray(a: seq<Op>, b: seq<Op>, key: Bytes)
    requires SameOps(a, b) && SameWinners(a, b)
    ensures CellOf(a, (Rgas, key)) == CellOf(b, (Rgas, key))
  {
    CellReading(a, (Rgas, key));
    CellReading(b, (Rgas, key));
    var c, d := CellOf(a, (Rgas, key)), CellOf(b, (Rgas, key));
    forall id ensures id in c.elements ==> id in d.elements && c.elements[id] == d.elements[id] {
      SameElement(a, b, key, id);
    }
    forall id ensures id in d.elements ==> id in c.elements {
      SameElement(b, a, key, id);
    }
    forall id ensures id in c.tombstones <==> id in d.tombstones {
      TombstoneReading(a, key, id);
      TombstoneReading(b, key, id);
    }
    assert c.elements == d.elements && c.tombstones == d.tombstones;
  }

  lemma SameElement(a: seq<Op>, b: seq<Op>, key: Bytes, id: Bytes)
    requires SameOps(a, b) && SameWinners(a, b) && CellOf(a, (Rgas, key)).Rga? && CellOf(b, (Rgas, key)).Rga?
    ensures var c, d := CellOf(a, (Rgas, key)), CellOf(b, (Rgas, key));
            id in c.elements ==> id in d.elements && c.elements[id] == d.elements[id]
  {
    var c := CellOf(a, (Rgas, key));
    if id in c.elements {
      ElementReading(a, key, id, c.elements[id]);
      var i: nat :| FirstInsert(a, i, key, id, c.elements[id]);
      assert a[i] in a && a[i] in b;
      InsertPrevails(a, a[i]);
      InsertPrevails(b, a[i]);
    }
  }

  lemma SameCell(a: seq<Op>, b: seq<Op>, t: Target)
    requires SameOps(a, b) && SameWinners(a, b) && SameSums(a, b)
    ensures CellOf(a, t) == CellOf(b, t)
  {
    CellReading(a, t);
    CellReading(b, t);
    match t.0
    case GCounters => SameSide(a, b, Growing, t.1);
    case PnCounters =>
      SameSide(a, b, Positive, t.1);
      SameSide(a, b, Negative, t.1);
    case Registers => SameRegister(a, b, t.1);
    case LwwMaps => SameMap(a, b, t.1);
    case OrSets => SameSet(a, b, t.1);
    case Rgas => SameArray(a, b, t.1);
  }

  lemma SameCells(a: seq<Op>, b: seq<Op>)
    requires SameOps(a, b) && SameWinners(a, b) && SameSums(a, b)
    ensures Outcome(a) == Outcome(b)
  {
    forall t ensures (t in Outcome(a) <==> t in Outcome(b)) && CellOf(a, t) == CellOf(b, t) {
      CellReading(a, t);
      CellReading(b, t);
      SameCell(a, b, t);
    }
    assert forall t :: t in Outcome(a) ==> Outcome(a)[t] == CellOf(a, t) == CellOf(b, t) == Outcome(b)[t];
  }

  /** Only writes and insertions can be kept out. */
  lemma OthersPrevail(ops: seq<Op>, x: Op)
    requires !x.kind.RegisterSet? && !x.kind.RgaInsert?
    ensures Prevails(ops, x)
  {
  }

  lemma SameOutcomeSameWinners(a: seq<Op>, b: seq<Op>, x: Op)
    requires SameOps(a, b) && Outcome(a) == Outcome(b) && x in a
    ensures Prevails(a, x) <==> Prevails(b, x)
  {
    if x.kind.RegisterSet? {
      RegisterPrevails(a, x);
      RegisterPrevails(b, x);
    } else if x.kind.RgaInsert? {
      InsertPrevails(a, x);
      InsertPrevails(b, x);
    } else {
      OthersPrevail(a, x);
      OthersPrevail(b, x);
    }
  }

  /**
   Two lists of the same operations, repeats allowed, have the same outcome if and only if the
   same writes and insertions prevail in both and every counter slot adds up to the same, up to
   the cap.
   */
  lemma OutcomesAgree(a: seq<Op>, b: seq<Op>)
    requires SameOps(a, b)
    ensures Outcome(a) == Outcome(b) <==> SameWinners(a, b) && SameSums(a, b)
  {
    if SameWinners(a, b) && SameSums(a, b) {
      SameCells(a, b);
    }
    if Outcome(a) == Outcome(b) {
      forall x | x in a ensures Prevails(a, x) <==> Prevails(b, x) { SameOutcomeSameWinners(a, b, x); }
      forall slot ensures Capped(a, slot) == Capped(b, slot) {
        CounterReading(a, slot);
        CounterReading(b, slot);
      }
    }
  }

  // ----- Clashes that settle themselves

  /** Wherever operations clash, a third write beats them. */
  ghost predicate Resolved(ops: seq<Op>) {
    forall a, b :: a in ops && b in ops && Clash(a, b) ==> Beaten(ops, a)
  }

  lemma ResolvedHasWinners(a: seq<Op>, b: seq<Op>)
    requires SameOps(a, b) && Resolved(a)
    ensures SameWinners(a, b)
  {
    forall x | x in a ensures Prevails(a, x) <==> Prevails(b, x) {
      BeatenAlike(a, b, x);
      forall j | 0 <= j < |a| && Clash(a[j], x) ensures Beaten(a, x) { ClashIsMutual(a[j], x); }
      forall j | 0 <= j < |b| && Clash(b[j], x) ensures Beaten(a, x) {
        assert b[j] in b && b[j] in a;
        ClashIsMutual(b[j], x);
      }
    }
  }

  lemma BeatenAlike(a: seq<Op>, b: seq<Op>, x: Op)
    requires SameOps(a, b)
    ensures Beaten(a, x) <==> Beaten(b, x)
  {
  }

  lemma ClashIsMutual(a: Op, b: Op)
    ensures Clash(a, b) <==> Clash(b, a)
  {
  }

  /** An operation that comes first and is not beaten prevails; one that clashes with the first does not. */
  lemma FirstPrevails(first: Op, others: seq<Op>, x: Op)
    requires !Beaten([first] + others, first) && Clash(first, x)
    ensures Prevails([first] + others, first) && !Prevails([first] + others, x)
  {
    var ops := [first] + others;
    forall j | 0 <= j < |ops| && Clash(ops[j], first) ensures exists i :: 0 <= i < j && Agrees(ops[i], first) {
      assert j > 0 && Agrees(ops[0], first);
    }
    assert Clash(ops[0], x);
  }

  /** Two orders of the same operations that start with either side of an open clash disagree. */
  lemma OpenClashShows(a: Op, others: seq<Op>, b: Op, rest: seq<Op>)
    requires SameOps([a] + others, [b] + rest) && Clash(a, b) && !Beaten([a] + others, a)
    ensures Outcome([a] + others) != Outcome([b] + rest)
  {
    ClashIsMutual(a, b);
    FirstPrevails(a, others, b);
    assert Clash(([b] + rest)[0], a);
    assert !Prevails([b] + rest, a);
    assert a in [a] + others;
    OutcomesAgree([a] + others, [b] + rest);
  }
}
