/**
 Delivery of operations to a replica: batches arrive in any order, cut in any way, with repeats.
 A replica remembers the identifiers it has applied, up to a limit, and skips those.
 */
module Replication {
  import opened Basics
  import opened ByteOrder
  import opened Crdt
  import opened Folding

  function Outcome(ops: seq<Op>): Cells {
    Run(Apply, map[], ops)
  }

  ghost predicate Peaceful(ops: seq<Op>) {
    forall a, b :: a in ops && b in ops ==> !Clash(a, b)
  }

  lemma PeacefulOpsCommute(a: Op, b: Op)
    requires !Clash(a, b)
    ensures Commute(Apply, a, b)
  {
    forall cells: Cells ensures Apply(Apply(cells, a), b) == Apply(Apply(cells, b), a) {
      OpsCommute(cells, a, b);
    }
  }

  /** The order of delivery does not matter. */
  lemma SameOutcome(a: seq<Op>, b: seq<Op>)
    requires Distinct(a) && Distinct(b) && Peaceful(a) && (forall op :: op in a <==> op in b)
    ensures Outcome(a) == Outcome(b)
  {
    forall x, y | x in a && y in a ensures Commute(Apply, x, y) {
      PeacefulOpsCommute(x, y);
    }
    OrderIsIrrelevant(Apply, map[], a, b);
  }

  // ----- Remembering what was applied

  function Ids(ops: seq<Op>): (ids: seq<Bytes>)
    ensures |ids| == |ops| && forall i :: 0 <= i < |ops| ==> ids[i] == ops[i].id
  {
    seq(|ops|, i requires 0 <= i < |ops| => ops[i].id)
  }

  /** The newest `limit` of a sequence. */
  function Newest<T>(s: seq<T>, limit: nat): seq<T> {
    if |s| <= limit then s else s[|s| - limit..]
  }

  /** What of a batch is new: not seen before and not earlier in the batch. */
  function Fresh(seen: seq<Bytes>, ops: seq<Op>): seq<Op> {
    if ops == [] then []
    else
      var rest, op := Fresh(seen, ops[..|ops| - 1]), ops[|ops| - 1];
      if op.id in seen || op.id in Ids(rest) then rest else rest + [op]
  }

  lemma IdsOfConcat(a: seq<Op>, b: seq<Op>)
    ensures Ids(a + b) == Ids(a) + Ids(b)
  {
  }

  lemma {:induction false} FreshHolds(seen: seq<Bytes>, ops: seq<Op>)
    ensures Distinct(Ids(Fresh(seen, ops))) && forall op :: op in Fresh(seen, ops) ==> op in ops && op.id !in seen
    ensures forall op :: op in ops ==> op.id in seen || op.id in Ids(Fresh(seen, ops))
  {
    if ops == [] {
    } else {
      var rest, op := ops[..|ops| - 1], ops[|ops| - 1];
      assert ops == rest + [op];
      FreshHolds(seen, rest);
      IdsOfConcat(Fresh(seen, rest), [op]);
    }
  }

  lemma FreshIdsAreNew(seen: seq<Bytes>, ops: seq<Op>)
    ensures forall id :: id in Ids(Fresh(seen, ops)) ==> id !in seen
  {
    FreshHolds(seen, ops);
    var found := Fresh(seen, ops);
    forall i | 0 <= i < |found| ensures Ids(found)[i] !in seen {
      assert found[i] in found;
    }
  }

  /** Evictions are planned over what is remembered and what is about to be. */
  function PlanEvictions(order: seq<Bytes>, inserted: seq<Bytes>, limit: nat): seq<Bytes> {
    var total := |order| + |inserted|;
    var remove := if total > limit then total - limit else 0;
    order[..Min(remove, |order|)] + (if remove > |order| then inserted[..remove - |order|] else [])
  }

  lemma PlannedIsOldest(order: seq<Bytes>, inserted: seq<Bytes>, limit: nat)
    ensures PlanEvictions(order, inserted, limit) + Newest(order + inserted, limit) == order + inserted
  {
  }

  lemma DistinctJoin<T>(a: seq<T>, b: seq<T>)
    requires Distinct(a) && Distinct(b) && forall x :: x in a ==> x !in b
    ensures Distinct(a + b)
  {
    forall i, j | 0 <= i < j < |a + b| ensures (a + b)[i] != (a + b)[j] {
      if i < |a| <= j { assert a[i] in a && (a + b)[j] in b; }
    }
  }

  lemma DistinctSplit<T>(a: seq<T>, b: seq<T>)
    requires Distinct(a + b)
    ensures Distinct(b) && forall x :: x in a ==> x !in b
  {
    var s := a + b;
    assert forall i :: 0 <= i < |a| ==> s[i] == a[i];
    assert forall i :: 0 <= i < |b| ==> b[i] == s[|a| + i];
  }

  /** The updates of a batch, built beside the registries. */
  function Overlaid(cells: Cells, updates: Cells, op: Op): Cells {
    var t := TargetOf(op);
    updates[t := ApplyCell(if t in updates then updates[t] else CellAt(cells, t), op.origin, op.kind)]
  }

  lemma OverlaidIsApplied(cells: Cells, updates: Cells, op: Op)
    ensures cells + Overlaid(cells, updates, op) == Apply(cells + updates, op)
  {
    var t := TargetOf(op);
    assert CellAt(cells + updates, t) == if t in updates then updates[t] else CellAt(cells, t);
  }

  method Prepare(cells: Cells, ids: set<Bytes>, ghost order: seq<Bytes>, ops: seq<Op>)
    returns (inserted: seq<Op>, updates: Cells)
    requires forall id :: id in ids <==> id in order
    ensures inserted == Fresh(order, ops)
    ensures cells + updates == Run(Apply, cells, inserted)
  {
    inserted, updates := [], map[];
    assert cells + updates == cells;
    for i := 0 to |ops|
      invariant inserted == Fresh(order, ops[..i])
      invariant cells + updates == Run(Apply, cells, inserted)
    {
      assert ops[..i + 1][..i] == ops[..i];
      if ops[i].id in ids || ops[i].id in Ids(inserted) { continue; }
      OverlaidIsApplied(cells, updates, ops[i]);
      RunOneMore(Apply, cells, inserted, ops[i]);
      updates := Overlaid(cells, updates, ops[i]);
      inserted := inserted + [ops[i]];
    }
    assert ops[..|ops|] == ops;
  }

  // ----- Replicas

  /** What a replica has applied after a list of batches. */
  ghost function Applied(limit: nat, batches: seq<seq<Op>>): seq<Op> {
    if batches == [] then []
    else
      var before := Applied(limit, batches[..|batches| - 1]);
      before + Fresh(Newest(Ids(before), limit), batches[|batches| - 1])
  }

  lemma AppliedMore(limit: nat, batches: seq<seq<Op>>, ops: seq<Op>)
    ensures var before := Applied(limit, batches);
            Applied(limit, batches + [ops]) == before + Fresh(Newest(Ids(before), limit), ops)
  {
    assert (batches + [ops])[..|batches|] == batches;
  }

  /** Cells and memory after a list of batches. */
  ghost predicate Reached(limit: nat, batches: seq<seq<Op>>, cells: Cells, order: seq<Bytes>) {
    cells == Outcome(Applied(limit, batches)) && order == Newest(Ids(Applied(limit, batches)), limit)
  }

  class Replica {
    const limit: nat
    var cells: Cells
    var ids: set<Bytes>
    var order: seq<Bytes>
    ghost var batches: seq<seq<Op>>

    /** The cells are the outcome of what was applied; the newest identifiers are remembered. */
    ghost predicate Valid()
      reads this
    {
      Reached(limit, batches, cells, order) && Remembers(ids, order)
    }

    constructor (limit: nat)
      ensures Valid() && batches == [] && this.limit == limit
    {
      this.limit, cells, ids, order, batches := limit, map[], {}, [], [];
    }

    /** One batch; when it cannot be persisted nothing changes. */
    method ApplyRemoteOps(ops: seq<Op>, persisted: bool) returns (ok: bool)
      requires Valid()
      modifies this
      ensures Valid() && ok == (persisted || ops == [])
      ensures batches == if persisted && ops != [] then old(batches) + [ops] else old(batches)
    {
      if ops == [] { return true; }
      var newCells, newIds, newOrder := Advance(limit, cells, ids, order, ops, batches);
      if !persisted { return false; }
      cells, ids, order := newCells, newIds, newOrder;
      batches := batches + [ops];
      ok := true;
    }
  }

  /** The state after one more batch, computed beside the current one. */
  method Advance(limit: nat, cells: Cells, ids: set<Bytes>, order: seq<Bytes>, ops: seq<Op>, ghost batches: seq<seq<Op>>)
    returns (newCells: Cells, newIds: set<Bytes>, newOrder: seq<Bytes>)
    requires Reached(limit, batches, cells, order) && Remembers(ids, order)
    ensures Reached(limit, batches + [ops], newCells, newOrder) && Remembers(newIds, newOrder)
  {
    var inserted, updates := Prepare(cells, ids, order, ops);
    BatchReached(limit, batches, cells, order, ops, updates);
    newIds, newOrder := Remember(ids, order, Ids(inserted), limit);
    newCells := cells + updates;
  }

  /** The set and the queue of remembered identifiers agree. */
  ghost predicate Remembers(ids: set<Bytes>, order: seq<Bytes>) {
    Distinct(order) && forall id :: id in ids <==> id in order
  }

  method Remember(ids: set<Bytes>, order: seq<Bytes>, inserted: seq<Bytes>, limit: nat)
    returns (newIds: set<Bytes>, newOrder: seq<Bytes>)
    requires Remembers(ids, order)
    requires Distinct(inserted) && forall id :: id in inserted ==> id !in order
    ensures newOrder == Newest(order + inserted, limit) && Remembers(newIds, newOrder)
  {
    var evicted := PlanEvictions(order, inserted, limit);
    PlannedIsOldest(order, inserted, limit);
    ghost var all := order + inserted;
    ghost var kept := Newest(all, limit);
    DistinctJoin(order, inserted);
    DistinctSplit(evicted, kept);
    assert forall id :: id in all <==> id in order || id in inserted;
    assert forall id :: id in all <==> id in evicted || id in kept;
    newIds := ids + set id | id in inserted;
    newIds := newIds - set id | id in evicted;
    newOrder := (order + inserted)[|evicted|..];
  }

  /** What a batch does to the outcome and to the memory of identifiers. */
  lemma BatchReached(limit: nat, batches: seq<seq<Op>>, cells: Cells, order: seq<Bytes>, ops: seq<Op>, updates: Cells)
    requires Reached(limit, batches, cells, order) && cells + updates == Run(Apply, cells, Fresh(order, ops))
    ensures var ids := Ids(Fresh(order, ops));
            && Reached(limit, batches + [ops], cells + updates, Newest(order + ids, limit))
            && Distinct(ids) && forall id :: id in ids ==> id !in order
  {
    var applied, inserted := Applied(limit, batches), Fresh(order, ops);
    AppliedMore(limit, batches, ops);
    RunOfConcat(Apply, map[], applied, inserted);
    FreshHolds(order, ops);
    FreshIdsAreNew(order, ops);
    IdsOfConcat(applied, inserted);
    NewestOfMore(Ids(applied), Ids(inserted), limit);
  }

  lemma NewestOfMore<T>(s: seq<T>, more: seq<T>, limit: nat)
    ensures Newest(Newest(s, limit) + more, limit) == Newest(s + more, limit)
  {
  }
}
