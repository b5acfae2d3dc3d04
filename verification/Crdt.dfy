/**
 The replicated data types as the sync layer drives them: one cell per type and key, changed by
 operations. Names, identifiers and payloads are byte strings, compared as such.
 */
module Crdt {
  import opened Basics
  import opened ByteOrder

  datatype Family = GCounters | PnCounters | Registers | LwwMaps | OrSets | Rgas

  datatype Kind =
    | GCounterIncrement(amount: nat)
    | PnIncrement(amount: nat)
    | PnDecrement(amount: nat)
    | RegisterSet(value: Bytes, timestamp: nat)
    | MapSet(field: Bytes, value: Bytes, timestamp: nat)
    | MapRemove(field: Bytes, timestamp: nat)
    | SetAdd(element: Bytes, tag: Bytes)
    | SetRemove(element: Bytes, observed: set<Bytes>)
    | RgaInsert(element: Bytes, parent: Option<Bytes>, value: Bytes)
    | RgaDelete(element: Bytes)

  datatype Op = Op(id: Bytes, origin: Bytes, key: Bytes, kind: Kind)

  function FamilyOf(kind: Kind): Family {
    match kind
    case GCounterIncrement(_) => GCounters
    case PnIncrement(_) => PnCounters
    case PnDecrement(_) => PnCounters
    case RegisterSet(_, _) => Registers
    case MapSet(_, _, _) => LwwMaps
    case MapRemove(_, _) => LwwMaps
    case SetAdd(_, _) => OrSets
    case SetRemove(_, _) => OrSets
    case RgaInsert(_, _, _) => Rgas
    case RgaDelete(_) => Rgas
  }

  /** A written value, or a tombstone, with the time and author that decide who wins. */
  datatype Stamp = Stamp(value: Option<Bytes>, timestamp: nat, writer: Bytes)

  datatype Element = Element(parent: Option<Bytes>, value: Bytes)

  datatype Cell =
    | GCounter(counts: map<Bytes, nat>)
    | PnCounter(positive: map<Bytes, nat>, negative: map<Bytes, nat>)
    | Register(current: Option<Stamp>)
    | LwwMap(fields: map<Bytes, Stamp>)
    | OrSet(adds: map<Bytes, set<Bytes>>, removes: map<Bytes, set<Bytes>>)
    | Rga(elements: map<Bytes, Element>, tombstones: set<Bytes>)

  function Empty(f: Family): Cell {
    match f
    case GCounters => GCounter(map[])
    case PnCounters => PnCounter(map[], map[])
    case Registers => Register(None)
    case LwwMaps => LwwMap(map[])
    case OrSets => OrSet(map[], map[])
    case Rgas => Rga(map[], {})
  }

  // ----- Counters

  function Increment(counts: map<Bytes, nat>, node: Bytes, amount: nat): map<Bytes, nat> {
    counts[node := SaturatingAdd(if node in counts then counts[node] else 0, amount, MAX_U64)]
  }

  // ----- Last writer wins

  /** A register compares time, then author; an exact tie keeps what is there. */
  predicate RegisterWins(a: Stamp, b: Stamp) {
    a.timestamp > b.timestamp || (a.timestamp == b.timestamp && Less(b.writer, a.writer))
  }

  predicate ValueWins(a: Option<Bytes>, b: Option<Bytes>) {
    match (a, b)
    case (None, Some(_)) => true
    case (Some(x), Some(y)) => Less(y, x)
    case (_, None) => false
  }

  /** A map entry breaks the last tie too: tombstone first, then the larger bytes. */
  predicate EntryWins(a: Stamp, b: Stamp) {
    RegisterWins(a, b) || (a.timestamp == b.timestamp && a.writer == b.writer && ValueWins(a.value, b.value))
  }

  function Assign(current: Option<Stamp>, candidate: Stamp): Option<Stamp> {
    if current.None? || RegisterWins(candidate, current.value) then Some(candidate) else current
  }

  function ApplyEntry(fields: map<Bytes, Stamp>, field: Bytes, candidate: Stamp): map<Bytes, Stamp> {
    if field in fields && !EntryWins(candidate, fields[field]) then fields else fields[field := candidate]
  }

  // ----- Sets

  function AddTags(tags: map<Bytes, set<Bytes>>, element: Bytes, more: set<Bytes>): map<Bytes, set<Bytes>> {
    tags[element := (if element in tags then tags[element] else {}) + more]
  }

  // ----- One operation

  /** An operation of another type leaves a cell alone. */
  function ApplyCell(c: Cell, origin: Bytes, kind: Kind): Cell {
    match (c, kind)
    case (GCounter(counts), GCounterIncrement(n)) => GCounter(Increment(counts, origin, n))
    case (PnCounter(plus, minus), PnIncrement(n)) => PnCounter(Increment(plus, origin, n), minus)
    case (PnCounter(plus, minus), PnDecrement(n)) => PnCounter(plus, Increment(minus, origin, n))
    case (Register(current), RegisterSet(value, time)) => Register(Assign(current, Stamp(Some(value), time, origin)))
    case (LwwMap(fields), MapSet(field, value, time)) =>
      LwwMap(ApplyEntry(fields, field, Stamp(Some(value), time, origin)))
    case (LwwMap(fields), MapRemove(field, time)) => LwwMap(ApplyEntry(fields, field, Stamp(None, time, origin)))
    case (OrSet(adds, removes), SetAdd(element, tag)) => OrSet(AddTags(adds, element, {tag}), removes)
    case (OrSet(adds, removes), SetRemove(element, tags)) => OrSet(adds, AddTags(removes, element, tags))
    case (Rga(elements, tombstones), RgaInsert(id, parent, value)) =>
      if id in elements then c else Rga(elements[id := Element(parent, value)], tombstones)
    case (Rga(elements, tombstones), RgaDelete(id)) => Rga(elements, tombstones + {id})
    case _ => c
  }

  type Target = (Family, Bytes)

  function TargetOf(op: Op): Target {
    (FamilyOf(op.kind), op.key)
  }

  type Cells = map<Target, Cell>

  function CellAt(cells: Cells, t: Target): Cell {
    if t in cells then cells[t] else Empty(t.0)
  }

  function Apply(cells: Cells, op: Op): Cells {
    cells[TargetOf(op) := ApplyCell(CellAt(cells, TargetOf(op)), op.origin, op.kind)]
  }

  // ----- When two operations commute

  /** Two writes that no order of arrival can reconcile. */
  predicate Clash(a: Op, b: Op) {
    && a.key == b.key
    && match (a.kind, b.kind)
       case (RegisterSet(v, s), RegisterSet(w, t)) => s == t && a.origin == b.origin && v != w
       case (RgaInsert(i, p, v), RgaInsert(j, q, w)) => i == j && (p != q || v != w)
       case _ => false
  }

  lemma IncrementCommutes(counts: map<Bytes, nat>, m: Bytes, x: nat, n: Bytes, y: nat)
    ensures Increment(Increment(counts, m, x), n, y) == Increment(Increment(counts, n, y), m, x)
  {
  }

  lemma WriterOrder(a: Bytes, b: Bytes, c: Bytes)
    ensures !(Less(a, b) && Less(b, a)) && (Less(a, b) || a == b || Less(b, a))
    ensures Less(a, b) && Less(b, c) ==> Less(a, c)
  {
    LessTotal(a, b);
    if Less(a, b) && Less(b, a) {
      LessTransitive(a, b, a);
      LessIrreflexive(a);
    }
    if Less(a, b) && Less(b, c) { LessTransitive(a, b, c); }
  }

  /** Winning a register is a strict order whose ties share time and author. */
  lemma RegisterOrder(a: Stamp, b: Stamp, c: Stamp)
    ensures !(RegisterWins(a, b) && RegisterWins(b, a))
    ensures RegisterWins(a, b) || RegisterWins(b, a) || (a.timestamp == b.timestamp && a.writer == b.writer)
    ensures RegisterWins(a, b) && RegisterWins(b, c) ==> RegisterWins(a, c)
  {
    WriterOrder(b.writer, a.writer, a.writer);
    WriterOrder(c.writer, b.writer, a.writer);
  }

  lemma AssignCommutes(current: Option<Stamp>, a: Stamp, b: Stamp)
    requires a.timestamp == b.timestamp && a.writer == b.writer ==> a == b
    ensures Assign(Assign(current, a), b) == Assign(Assign(current, b), a)
  {
    var c := if current.Some? then current.value else a;
    RegisterOrder(a, b, c);
    RegisterOrder(b, a, c);
    RegisterOrder(a, c, b);
    RegisterOrder(b, c, a);
  }

  lemma ValueOrder(a: Option<Bytes>, b: Option<Bytes>, c: Option<Bytes>)
    ensures !(ValueWins(a, b) && ValueWins(b, a)) && (ValueWins(a, b) || a == b || ValueWins(b, a))
    ensures ValueWins(a, b) && ValueWins(b, c) ==> ValueWins(a, c)
  {
    if a.Some? && b.Some? {
      WriterOrder(b.value, a.value, a.value);
      if c.Some? { WriterOrder(c.value, b.value, a.value); }
    }
  }

  /** Winning a map entry is a strict total order in which the later wins, then the greater author. */
  lemma EntryOrder(a: Stamp, b: Stamp, c: Stamp)
    ensures a.timestamp > b.timestamp ==> EntryWins(a, b)
    ensures a.timestamp == b.timestamp && Less(b.writer, a.writer) ==> EntryWins(a, b)
    ensures !(EntryWins(a, b) && EntryWins(b, a)) && (EntryWins(a, b) || a == b || EntryWins(b, a))
    ensures EntryWins(a, b) && EntryWins(b, c) ==> EntryWins(a, c)
  {
    RegisterOrder(a, b, c);
    RegisterOrder(b, c, a);
    ValueOrder(a.value, b.value, c.value);
    WriterOrder(a.writer, a.writer, a.writer);
  }

  lemma ApplyEntryCommutes(fields: map<Bytes, Stamp>, f: Bytes, a: Stamp, g: Bytes, b: Stamp)
    ensures ApplyEntry(ApplyEntry(fields, f, a), g, b) == ApplyEntry(ApplyEntry(fields, g, b), f, a)
  {
    if f == g {
      var c := if f in fields then fields[f] else a;
      EntryOrder(a, b, c);
      EntryOrder(b, a, c);
      EntryOrder(a, c, b);
      EntryOrder(b, c, a);
    }
  }

  lemma AddTagsCommutes(tags: map<Bytes, set<Bytes>>, e: Bytes, s: set<Bytes>, f: Bytes, t: set<Bytes>)
    ensures AddTags(AddTags(tags, e, s), f, t) == AddTags(AddTags(tags, f, t), e, s)
  {
    if e == f {
      var had := if e in tags then tags[e] else {};
      assert had + s + t == had + t + s;
    }
  }

  lemma CellCommutes(c: Cell, a: Op, b: Op)
    requires a.key == b.key && !Clash(a, b)
    ensures ApplyCell(ApplyCell(c, a.origin, a.kind), b.origin, b.kind)
         == ApplyCell(ApplyCell(c, b.origin, b.kind), a.origin, a.kind)
  {
    match c
    case GCounter(counts) =>
      if a.kind.GCounterIncrement? && b.kind.GCounterIncrement? {
        IncrementCommutes(counts, a.origin, a.kind.amount, b.origin, b.kind.amount);
      }
    case PnCounter(plus, minus) =>
      if a.kind.PnIncrement? && b.kind.PnIncrement? {
        IncrementCommutes(plus, a.origin, a.kind.amount, b.origin, b.kind.amount);
      }
      if a.kind.PnDecrement? && b.kind.PnDecrement? {
        IncrementCommutes(minus, a.origin, a.kind.amount, b.origin, b.kind.amount);
      }
    case Register(current) =>
      if a.kind.RegisterSet? && b.kind.RegisterSet? {
        AssignCommutes(current, Stamp(Some(a.kind.value), a.kind.timestamp, a.origin),
                       Stamp(Some(b.kind.value), b.kind.timestamp, b.origin));
      }
    case LwwMap(fields) => MapCommutes(fields, a, b);
    case OrSet(adds, removes) =>
      if a.kind.SetAdd? && b.kind.SetAdd? {
        AddTagsCommutes(adds, a.kind.element, {a.kind.tag}, b.kind.element, {b.kind.tag});
      }
      if a.kind.SetRemove? && b.kind.SetRemove? {
        AddTagsCommutes(removes, a.kind.element, a.kind.observed, b.kind.element, b.kind.observed);
      }
    case Rga(elements, tombstones) => RgaCommutes(elements, tombstones, a, b);
  }

  function EntryOf(op: Op): Stamp
    requires op.kind.MapSet? || op.kind.MapRemove?
  {
    Stamp(if op.kind.MapSet? then Some(op.kind.value) else None, op.kind.timestamp, op.origin)
  }

  lemma MapCommutes(fields: map<Bytes, Stamp>, a: Op, b: Op)
    ensures ApplyCell(ApplyCell(LwwMap(fields), a.origin, a.kind), b.origin, b.kind)
         == ApplyCell(ApplyCell(LwwMap(fields), b.origin, b.kind), a.origin, a.kind)
  {
    if (a.kind.MapSet? || a.kind.MapRemove?) && (b.kind.MapSet? || b.kind.MapRemove?) {
      ApplyEntryCommutes(fields, a.kind.field, EntryOf(a), b.kind.field, EntryOf(b));
    }
  }

  lemma RgaCommutes(elements: map<Bytes, Element>, tombstones: set<Bytes>, a: Op, b: Op)
    requires a.key == b.key && !Clash(a, b)
    ensures ApplyCell(ApplyCell(Rga(elements, tombstones), a.origin, a.kind), b.origin, b.kind)
         == ApplyCell(ApplyCell(Rga(elements, tombstones), b.origin, b.kind), a.origin, a.kind)
  {
    if a.kind.RgaDelete? && b.kind.RgaDelete? {
      assert tombstones + {a.kind.element} + {b.kind.element} == tombstones + {b.kind.element} + {a.kind.element};
    }
  }

  /** Operations that do not clash commute in every state. */
  lemma OpsCommute(cells: Cells, a: Op, b: Op)
    requires !Clash(a, b)
    ensures Apply(Apply(cells, a), b) == Apply(Apply(cells, b), a)
  {
    if TargetOf(a) == TargetOf(b) {
      CellCommutes(CellAt(cells, TargetOf(a)), a, b);
    } else {
      var s, t := TargetOf(a), TargetOf(b);
      assert CellAt(Apply(cells, a), t) == CellAt(cells, t);
      assert CellAt(Apply(cells, b), s) == CellAt(cells, s);
    }
  }

  /** The condition is exact: clashing operations already disagree on an empty cell. */
  lemma ClashingOpsDiffer(a: Op, b: Op)
    requires Clash(a, b)
    ensures Apply(Apply(map[], a), b) != Apply(Apply(map[], b), a)
  {
    var t := TargetOf(a);
    WriterOrder(a.origin, a.origin, a.origin);
    assert TargetOf(b) == t;
    assert Apply(Apply(map[], a), b)[t] != Apply(Apply(map[], b), a)[t];
  }
}
