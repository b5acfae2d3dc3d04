/** What a cell means in terms of the operations applied, whatever order they came in. */
module CrdtReadings {
  import opened Basics
  import opened ByteOrder
  import opened Crdt
  import opened Replication

  function CellOf(ops: seq<Op>, t: Target): Cell {
    CellAt(Outcome(ops), t)
  }

  lemma CellStep(ops: seq<Op>, t: Target)
    ensures ops == [] ==> CellOf(ops, t) == Empty(t.0)
    ensures ops != [] ==>
              var last, before := ops[|ops| - 1], CellOf(ops[..|ops| - 1], t);
              CellOf(ops, t) == if TargetOf(last) == t then ApplyCell(before, last.origin, last.kind) else before
  {
  }

  /** Membership in a list by its last element. */
  lemma LastOrBefore(ops: seq<Op>)
    requires ops != []
    ensures forall op :: op in ops <==> op == ops[|ops| - 1] || op in ops[..|ops| - 1]
  {
    assert ops == ops[..|ops| - 1] + [ops[|ops| - 1]];
  }

  predicate IsOf(c: Cell, f: Family) {
    match f
    case GCounters => c.GCounter?
    case PnCounters => c.PnCounter?
    case Registers => c.Register?
    case LwwMaps => c.LwwMap?
    case OrSets => c.OrSet?
    case Rgas => c.Rga?
  }

  /** A cell has the type of its target, and is there exactly when some operation addressed it. */
  lemma {:induction false} CellReading(ops: seq<Op>, t: Target)
    ensures IsOf(CellOf(ops, t), t.0)
    ensures t in Outcome(ops) <==> exists op :: op in ops && TargetOf(op) == t
  {
    CellStep(ops, t);
    if ops == [] {
    } else {
      CellReading(ops[..|ops| - 1], t);
      LastOrBefore(ops);
      assert ops[|ops| - 1] in ops;
    }
  }

  // ----- Counters

  /** The three kinds of counter slots: growing, and the two sides of a signed counter. */
  datatype Side = Growing | Positive | Negative

  datatype Slot = Slot(side: Side, key: Bytes, node: Bytes)

  function SlotOf(op: Op): Option<Slot> {
    match op.kind
    case GCounterIncrement(_) => Some(Slot(Growing, op.key, op.origin))
    case PnIncrement(_) => Some(Slot(Positive, op.key, op.origin))
    case PnDecrement(_) => Some(Slot(Negative, op.key, op.origin))
    case _ => None
  }

  /** What an operation adds to a slot. */
  function Amount(op: Op, slot: Slot): nat {
    if SlotOf(op) == Some(slot) then op.kind.amount else 0
  }

  function Sum(ops: seq<Op>, slot: Slot): nat {
    if ops == [] then 0 else Sum(ops[..|ops| - 1], slot) + Amount(ops[|ops| - 1], slot)
  }

  function CellTarget(slot: Slot): Target {
    (if slot.side.Growing? then GCounters else PnCounters, slot.key)
  }

  function Count(counts: map<Bytes, nat>, node: Bytes): nat {
    if node in counts then counts[node] else 0
  }

  /** The value of a slot; a cell of another type has none. */
  function SlotValue(c: Cell, slot: Slot): Option<nat> {
    match (c, slot.side)
    case (GCounter(counts), Growing) => Some(Count(counts, slot.node))
    case (PnCounter(plus, _), Positive) => Some(Count(plus, slot.node))
    case (PnCounter(_, minus), Negative) => Some(Count(minus, slot.node))
    case _ => None
  }

  /** A slot is the sum of its node's amounts, capped at the largest 64-bit number. */
  lemma {:induction false} CounterReading(ops: seq<Op>, slot: Slot)
    ensures SlotValue(CellOf(ops, CellTarget(slot)), slot) == Some(Min(Sum(ops, slot), MAX_U64))
  {
    CellStep(ops, CellTarget(slot));
    if ops == [] {
    } else {
      var before, last := ops[..|ops| - 1], ops[|ops| - 1];
      CounterReading(before, slot);
      SlotStep(CellOf(before, CellTarget(slot)), last, slot);
    }
  }

  lemma SlotStep(c: Cell, op: Op, slot: Slot)
    requires SlotValue(c, slot).Some?
    ensures SlotValue(if TargetOf(op) == CellTarget(slot) then ApplyCell(c, op.origin, op.kind) else c, slot)
         == Some(if SlotOf(op) == Some(slot) then Min(SlotValue(c, slot).value + op.kind.amount, MAX_U64)
                 else SlotValue(c, slot).value)
  {
  }

  /** The counts of one side; a cell of another type has none. */
  function Counts(c: Cell, side: Side): map<Bytes, nat> {
    match (c, side)
    case (GCounter(counts), Growing) => counts
    case (PnCounter(plus, _), Positive) => plus
    case (PnCounter(_, minus), Negative) => minus
    case _ => map[]
  }

  /** A node has a slot exactly when one of its operations addressed it, were it with nothing to add. */
  lemma {:induction false} SlotReading(ops: seq<Op>, slot: Slot)
    ensures slot.node in Counts(CellOf(ops, CellTarget(slot)), slot.side) <==> exists op :: op in ops && SlotOf(op) == Some(slot)
  {
    CellStep(ops, CellTarget(slot));
    if ops == [] {
    } else {
      var before, last := ops[..|ops| - 1], ops[|ops| - 1];
      SlotReading(before, slot);
      LastOrBefore(ops);
      CellReading(before, CellTarget(slot));
      SlotAddressed(CellOf(before, CellTarget(slot)), last, slot);
      assert last in ops;
    }
  }

  lemma SlotAddressed(c: Cell, op: Op, slot: Slot)
    requires IsOf(c, CellTarget(slot).0)
    ensures slot.node in Counts(if TargetOf(op) == CellTarget(slot) then ApplyCell(c, op.origin, op.kind) else c, slot.side)
       <==> slot.node in Counts(c, slot.side) || SlotOf(op) == Some(slot)
  {
  }

  // ----- Registers

  predicate Writes(op: Op, key: Bytes, s: Stamp) {
    op.kind.RegisterSet? && op.key == key && s == Stamp(Some(op.kind.value), op.kind.timestamp, op.origin)
  }

  /** A register holds a write that no other write beats; it is unset only when nothing was written. */
  lemma {:induction false} RegisterReading(ops: seq<Op>, key: Bytes)
    ensures var c := CellOf(ops, (Registers, key));
            && c.Register?
            && (c.current.Some? ==> exists op :: op in ops && Writes(op, key, c.current.value))
            && (forall op, s :: op in ops && Writes(op, key, s) ==>
                  c.current.Some? && !RegisterWins(s, c.current.value))
  {
    CellStep(ops, (Registers, key));
    if ops == [] {
    } else {
      var before, last := ops[..|ops| - 1], ops[|ops| - 1];
      RegisterReading(before, key);
      LastOrBefore(ops);
      var b, c := CellOf(before, (Registers, key)), CellOf(ops, (Registers, key));
      if b.current.Some? && b.current == c.current {
        var op :| op in before && Writes(op, key, b.current.value);
        assert op in ops;
      } else if c.current.Some? {
        assert last in ops && Writes(last, key, c.current.value);
      }
      forall op, s | op in ops && Writes(op, key, s) ensures c.current.Some? && !RegisterWins(s, c.current.value) {
        if b.current.Some? {
          RegisterOrder(s, c.current.value, b.current.value);
          RegisterOrder(c.current.value, s, b.current.value);
          RegisterOrder(c.current.value, b.current.value, s);
        } else if op == last {
          RegisterOrder(s, s, s);
        }
      }
    }
  }

  /**
   Last writer wins: the held write is one of the operations, no write of the register is later,
   and none of the same time has a greater author.
   */
  lemma LastWriterWins(ops: seq<Op>, key: Bytes)
    ensures var c := CellOf(ops, (Registers, key));
            && c.Register?
            && (c.current.None? <==> forall op :: op in ops && op.key == key ==> !op.kind.RegisterSet?)
            && (c.current.Some? ==>
                  var held := c.current.value;
                  && (exists op :: op in ops && op.key == key && op.origin == held.writer &&
                        op.kind.RegisterSet? && op.kind.timestamp == held.timestamp && held.value == Some(op.kind.value))
                  && (forall op :: op in ops && op.key == key && op.kind.RegisterSet? ==>
                        && op.kind.timestamp <= held.timestamp
                        && (op.kind.timestamp == held.timestamp ==> !Less(held.writer, op.origin))))
  {
    RegisterReading(ops, key);
    var c := CellOf(ops, (Registers, key)).current;
    forall op | op in ops && op.key == key && op.kind.RegisterSet?
      ensures c.Some? && op.kind.timestamp <= c.value.timestamp
      ensures op.kind.timestamp == c.value.timestamp ==> !Less(c.value.writer, op.origin)
    {
      assert Writes(op, key, Stamp(Some(op.kind.value), op.kind.timestamp, op.origin));
    }
    if c.Some? {
      var op :| op in ops && Writes(op, key, c.value);
      assert op.key == key && op.kind.RegisterSet?;
    }
  }

  /** The i-th operation makes this write, and none of the earlier ones ties with it with another value. */
  ghost predicate FirstWrite(ops: seq<Op>, i: nat, key: Bytes, s: Stamp) {
    && i < |ops| && Writes(ops[i], key, s)
    && forall j, r :: 0 <= j < i && Writes(ops[j], key, r) && r.timestamp == s.timestamp && r.writer == s.writer ==> r == s
  }

  /** Among tying writes a register keeps the first. */
  lemma {:induction false} FirstWriteReading(ops: seq<Op>, key: Bytes)
    ensures var c := CellOf(ops, (Registers, key));
            c.Register? && (c.current.Some? ==> exists i :: FirstWrite(ops, i, key, c.current.value))
  {
    CellStep(ops, (Registers, key));
    if ops == [] {
    } else {
      var before, last := ops[..|ops| - 1], |ops| - 1;
      FirstWriteReading(before, key);
      RegisterReading(before, key);
      var b, c := CellOf(before, (Registers, key)).current, CellOf(ops, (Registers, key)).current;
      if b == c {
        if c.Some? {
          var i: nat :| FirstWrite(before, i, key, c.value);
          assert FirstWrite(ops, i, key, c.value);
        }
      } else {
        forall j, r | 0 <= j < last && Writes(ops[j], key, r) ensures r.timestamp != c.value.timestamp || r.writer != c.value.writer {
          assert before[j] in before;
        }
        assert FirstWrite(ops, last, key, c.value);
      }
    }
  }

  // ----- Maps

  predicate Enters(op: Op, key: Bytes, field: Bytes, s: Stamp) {
    && (op.kind.MapSet? || op.kind.MapRemove?)
    && op.key == key && op.kind.field == field && s == EntryOf(op)
  }

  /** A field holds the greatest of its entries, tombstones included. */
  lemma {:induction false} MapReading(ops: seq<Op>, key: Bytes, field: Bytes)
    ensures var c := CellOf(ops, (LwwMaps, key));
            && c.LwwMap?
            && (field in c.fields ==> exists op :: op in ops && Enters(op, key, field, c.fields[field]))
            && (forall op, s :: op in ops && Enters(op, key, field, s) ==>
                  field in c.fields && !EntryWins(s, c.fields[field]))
  {
    CellStep(ops, (LwwMaps, key));
    if ops == [] {
    } else {
      var before, last := ops[..|ops| - 1], ops[|ops| - 1];
      MapReading(before, key, field);
      LastOrBefore(ops);
      var b, c := CellOf(before, (LwwMaps, key)), CellOf(ops, (LwwMaps, key));
      if field in b.fields && b.fields[field] == c.fields[field] {
        var op :| op in before && Enters(op, key, field, b.fields[field]);
        assert op in ops;
      } else if field in c.fields {
        assert last in ops && Enters(last, key, field, c.fields[field]);
      }
      forall op, s | op in ops && Enters(op, key, field, s) ensures field in c.fields && !EntryWins(s, c.fields[field]) {
        if field in b.fields {
          EntryOrder(s, c.fields[field], b.fields[field]);
          EntryOrder(c.fields[field], b.fields[field], s);
        } else if op == last {
          EntryOrder(s, s, s);
        }
      }
    }
  }

  predicate WritesField(op: Op, key: Bytes, field: Bytes) {
    op.key == key && (op.kind.MapSet? || op.kind.MapRemove?) && op.kind.field == field
  }

  /**
   The same for a field, where ties go on: at equal time and author a removal beats every value,
   and among values the larger bytes win.
   */
  lemma LastEntryWins(ops: seq<Op>, key: Bytes, field: Bytes)
    ensures var c := CellOf(ops, (LwwMaps, key));
            && c.LwwMap?
            && (field !in c.fields <==> forall op :: op in ops ==> !WritesField(op, key, field))
            && (field in c.fields ==>
                  var held := c.fields[field];
                  && (exists op :: op in ops && WritesField(op, key, field) && op.origin == held.writer &&
                        op.kind.timestamp == held.timestamp &&
                        held.value == if op.kind.MapSet? then Some(op.kind.value) else None)
                  && forall op :: op in ops && WritesField(op, key, field) ==> NotAfter(op, held))
  {
    MapReading(ops, key, field);
    var c := CellOf(ops, (LwwMaps, key)).fields;
    forall op | op in ops && WritesField(op, key, field) ensures field in c && NotAfter(op, c[field]) {
      assert Enters(op, key, field, EntryOf(op));
      if op.kind.MapSet? && c[field].value.Some? { WriterOrder(op.kind.value, c[field].value.value, op.kind.value); }
      WriterOrder(op.origin, c[field].writer, op.origin);
    }
    if field in c {
      var op :| op in ops && Enters(op, key, field, c[field]);
      assert WritesField(op, key, field);
    }
  }

  /** A write to a field that is not later than the held entry. */
  predicate NotAfter(op: Op, held: Stamp)
    requires op.kind.MapSet? || op.kind.MapRemove?
  {
    && op.kind.timestamp <= held.timestamp
    && (op.kind.timestamp == held.timestamp ==>
          && !Less(held.writer, op.origin)
          && (op.origin == held.writer && held.value.Some? ==>
                op.kind.MapSet? && !Less(held.value.value, op.kind.value)))
  }

  // ----- Observed-remove sets

  function Tags(tags: map<Bytes, set<Bytes>>, element: Bytes): set<Bytes> {
    if element in tags then tags[element] else {}
  }

  predicate Adds(op: Op, key: Bytes, element: Bytes, tag: Bytes) {
    op.key == key && op.kind == SetAdd(element, tag)
  }

  predicate Removes(op: Op, key: Bytes, element: Bytes, tag: Bytes) {
    op.key == key && op.kind.SetRemove? && op.kind.element == element && tag in op.kind.observed
  }

  lemma {:induction false} TagReading(ops: seq<Op>, key: Bytes, element: Bytes, tag: Bytes)
    ensures var c := CellOf(ops, (OrSets, key));
            && c.OrSet?
            && (tag in Tags(c.adds, element) <==> exists op :: op in ops && Adds(op, key, element, tag))
            && (tag in Tags(c.removes, element) <==> exists op :: op in ops && Removes(op, key, element, tag))
  {
    CellStep(ops, (OrSets, key));
    if ops == [] {
    } else {
      TagReading(ops[..|ops| - 1], key, element, tag);
      LastOrBefore(ops);
      var last := ops[|ops| - 1];
      assert last in ops;
    }
  }

  predicate AddsSome(op: Op, key: Bytes, element: Bytes) {
    op.key == key && op.kind.SetAdd? && op.kind.element == element
  }

  predicate RemovesSome(op: Op, key: Bytes, element: Bytes) {
    op.key == key && op.kind.SetRemove? && op.kind.element == element
  }

  /** An element is on record exactly when some operation addressed it, were it with no tags. */
  lemma {:induction false} RecordReading(ops: seq<Op>, key: Bytes, element: Bytes)
    ensures var c := CellOf(ops, (OrSets, key));
            && c.OrSet?
            && (element in c.adds <==> exists op :: op in ops && AddsSome(op, key, element))
            && (element in c.removes <==> exists op :: op in ops && RemovesSome(op, key, element))
  {
    CellStep(ops, (OrSets, key));
    if ops == [] {
    } else {
      RecordReading(ops[..|ops| - 1], key, element);
      LastOrBefore(ops);
      assert ops[|ops| - 1] in ops;
    }
  }

  ghost predicate Contains(c: Cell, element: Bytes)
    requires c.OrSet?
  {
    exists tag :: tag in Tags(c.adds, element) && tag !in Tags(c.removes, element)
  }

  /** An element is in the set exactly when some addition of it was observed by no removal. */
  lemma OrSetReading(ops: seq<Op>, key: Bytes, element: Bytes)
    ensures CellOf(ops, (OrSets, key)).OrSet?
    ensures Contains(CellOf(ops, (OrSets, key)), element) <==>
            exists op, tag :: op in ops && Adds(op, key, element, tag) &&
                              forall other :: other in ops ==> !Removes(other, key, element, tag)
  {
    var c := CellOf(ops, (OrSets, key));
    TagReading(ops, key, element, []);
    if Contains(c, element) {
      var tag :| tag in Tags(c.adds, element) && tag !in Tags(c.removes, element);
      TagReading(ops, key, element, tag);
    }
    if op, tag :| op in ops && Adds(op, key, element, tag) && forall other :: other in ops ==> !Removes(other, key, element, tag) {
      TagReading(ops, key, element, tag);
    }
  }

  // ----- Growable arrays

  predicate Inserts(op: Op, key: Bytes, id: Bytes, e: Element) {
    op.key == key && op.kind == RgaInsert(id, e.parent, e.value)
  }

  predicate Holds(c: Cell, id: Bytes, e: Element)
    requires c.Rga?
  {
    id in c.elements && c.elements[id] == e
  }

  predicate Deletes(op: Op, key: Bytes, id: Bytes) {
    op.key == key && op.kind == RgaDelete(id)
  }

  /** The i-th operation is the first to insert this element. */
  predicate FirstInsert(ops: seq<Op>, i: nat, key: Bytes, id: Bytes, e: Element) {
    && i < |ops| && Inserts(ops[i], key, id, e)
    && forall j :: 0 <= j < i ==> !InsertsSome(ops[j], key, id)
  }

  lemma {:induction false} TombstoneReading(ops: seq<Op>, key: Bytes, id: Bytes)
    ensures var c := CellOf(ops, (Rgas, key));
            c.Rga? && (id in c.tombstones <==> exists op :: op in ops && Deletes(op, key, id))
  {
    CellStep(ops, (Rgas, key));
    if ops == [] {
    } else {
      var before, last := ops[..|ops| - 1], ops[|ops| - 1];
      LastOrBefore(ops);
      TombstoneReading(before, key, id);
      assert last in ops;
      if op :| op in before && Deletes(op, key, id) { assert op in ops; }
    }
  }

  lemma {:induction false} ElementReading(ops: seq<Op>, key: Bytes, id: Bytes, e: Element)
    ensures var c := CellOf(ops, (Rgas, key));
            && c.Rga?
            && (id in c.elements <==> exists j :: 0 <= j < |ops| && InsertsSome(ops[j], key, id))
            && (Holds(c, id, e) <==> exists i :: FirstInsert(ops, i, key, id, e))
  {
    CellStep(ops, (Rgas, key));
    if ops == [] {
    } else {
      var before, last := ops[..|ops| - 1], |ops| - 1;
      ElementReading(before, key, id, e);
      SomeOrBefore(ops, key, id);
      FirstOrBefore(ops, key, id, e);
    }
  }

  lemma SomeOrBefore(ops: seq<Op>, key: Bytes, id: Bytes)
    requires ops != []
    ensures var before, last := ops[..|ops| - 1], |ops| - 1;
            && ((exists j :: 0 <= j < |ops| && InsertsSome(ops[j], key, id)) <==>
                  (exists j :: 0 <= j < |before| && InsertsSome(before[j], key, id)) || InsertsSome(ops[last], key, id))
            && ((exists j :: 0 <= j < |before| && InsertsSome(before[j], key, id)) <==>
                  exists j :: 0 <= j < last && InsertsSome(ops[j], key, id))
  {
    var before := ops[..|ops| - 1];
    if j :| 0 <= j < |before| && InsertsSome(before[j], key, id) { assert InsertsSome(ops[j], key, id); }
    if j :| 0 <= j < |ops| && InsertsSome(ops[j], key, id) {
      if j < |before| { assert InsertsSome(before[j], key, id); }
    }
  }

  /** The array holds each element as first inserted and buries what was deleted, before or after. */
  lemma RgaReading(ops: seq<Op>, key: Bytes, id: Bytes, e: Element)
    ensures var c := CellOf(ops, (Rgas, key));
            && c.Rga?
            && (Holds(c, id, e) <==> exists i :: FirstInsert(ops, i, key, id, e))
            && (id in c.tombstones <==> exists op :: op in ops && Deletes(op, key, id))
  {
    ElementReading(ops, key, id, e);
    TombstoneReading(ops, key, id);
  }

  predicate InsertsSome(op: Op, key: Bytes, id: Bytes) {
    op.key == key && op.kind.RgaInsert? && op.kind.element == id
  }

  lemma FirstOrBefore(ops: seq<Op>, key: Bytes, id: Bytes, e: Element)
    requires ops != []
    ensures var before, last := ops[..|ops| - 1], |ops| - 1;
            (exists i :: FirstInsert(ops, i, key, id, e)) <==>
              || (exists i :: FirstInsert(before, i, key, id, e))
              || FirstInsert(ops, last, key, id, e)
  {
    var before := ops[..|ops| - 1];
    if i: nat :| FirstInsert(before, i, key, id, e) { assert FirstInsert(ops, i, key, id, e); }
    if i: nat :| FirstInsert(ops, i, key, id, e) {
      if i < |before| { assert FirstInsert(before, i, key, id, e); }
    }
  }
}
