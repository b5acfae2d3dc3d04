/**
 Convergence of replicas under any delivery: batches in any order, cut in any way, with repeats,
 at replicas whose memory of applied identifiers is bounded.
 */
module Convergence {
  import opened Basics
  import opened ByteOrder
  import opened Crdt
  import opened Folding
  import opened Replication
  import opened CrdtReadings
  import opened Agreement

  // ----- Repeats

  ghost predicate Repeats(ops: seq<Op>, x: Op) {
    exists i, j :: 0 <= i < j < |ops| && ops[i] == x && ops[j] == x
  }

  /** Applying the operation once more changes nothing: it adds to no counter, or to a full one. */
  predicate Settled(ops: seq<Op>, x: Op) {
    SlotOf(x).None? || x.kind.amount == 0 || Sum(ops, SlotOf(x).value) >= MAX_U64
  }

  /** Registers, maps, sets and arrays take a repeat for what it is. */
  lemma RepeatIsIdle(cells: Cells, x: Op)
    requires SlotOf(x).None? || x.kind.amount == 0
    ensures Apply(Apply(cells, x), x) == Apply(cells, x)
  {
    var t := TargetOf(x);
    IdleCell(CellAt(cells, t), x);
    assert CellAt(Apply(cells, x), t) == ApplyCell(CellAt(cells, t), x.origin, x.kind);
  }

  lemma IdleCell(c: Cell, x: Op)
    requires SlotOf(x).None? || x.kind.amount == 0
    ensures ApplyCell(ApplyCell(c, x.origin, x.kind), x.origin, x.kind) == ApplyCell(c, x.origin, x.kind)
  {
    WriterOrder(x.origin, x.origin, x.origin);
    match x.kind
    case MapSet(_, value, _) => WriterOrder(value, value, value);
    case SetAdd(element, tag) => if c.OrSet? { IdleTags(c.adds, element, {tag}); }
    case SetRemove(element, observed) => if c.OrSet? { IdleTags(c.removes, element, observed); }
    case RgaDelete(element) => if c.Rga? { assert c.tombstones + {element} + {element} == c.tombstones + {element}; }
    case _ =>
  }

  lemma IdleTags(tags: map<Bytes, set<Bytes>>, e: Bytes, s: set<Bytes>)
    ensures AddTags(AddTags(tags, e, s), e, s) == AddTags(tags, e, s)
  {
    var had := if e in tags then tags[e] else {};
    assert had + s + s == had + s;
  }

  /** A full slot stays as it is. */
  /** Appending an operation that is there already decides no clash. */
  lemma RepeatKeepsWinners(ops: seq<Op>, x: Op)
    requires x in ops
    ensures SameOps(ops + [x], ops) && SameWinners(ops + [x], ops)
  {
    var more := ops + [x];
    forall a | a in more ensures Prevails(more, a) <==> Prevails(ops, a) {
      BeatenAlike(more, ops, a);
      var k :| 0 <= k < |ops| && ops[k] == a;
      assert Agrees(ops[k], a) && forall j :: 0 <= j < |ops| ==> more[j] == ops[j];
    }
  }

  /** An operation that is there already may be repeated without a trace exactly when it is settled. */
  lemma RepeatChangesNothing(ops: seq<Op>, x: Op)
    requires x in ops
    ensures Outcome(ops + [x]) == Outcome(ops) <==> Settled(ops, x)
  {
    var more := ops + [x];
    assert more[..|ops|] == ops;
    RepeatKeepsWinners(ops, x);
    OutcomesAgree(more, ops);
    assert forall slot :: Sum(more, slot) == Sum(ops, slot) + Amount(x, slot);
    if !Settled(ops, x) {
      assert Capped(more, SlotOf(x).value) != Capped(ops, SlotOf(x).value);
    }
  }

  // ----- Sums

  lemma {:induction false} SumSplits(before: seq<Op>, x: Op, behind: seq<Op>, slot: Slot)
    ensures Sum(before + [x] + behind, slot) == Sum(before + behind, slot) + Amount(x, slot)
  {
    if behind == [] {
      assert before + [x] + behind == before + [x] && before + behind == before;
      assert (before + [x])[..|before|] == before;
    } else {
      var last, rest := behind[|behind| - 1], behind[..|behind| - 1];
      assert (before + [x] + behind)[..|before| + |behind|] == before + [x] + rest;
      assert (before + behind)[..|before| + |rest|] == before + rest;
      SumSplits(before, x, rest, slot);
    }
  }

  /** A list that holds every operation adds up to no less. */
  lemma {:induction false} SumCovers(ops: seq<Op>, list: seq<Op>, slot: Slot)
    requires Distinct(ops) && forall x :: x in ops ==> x in list
    ensures Sum(ops, slot) <= Sum(list, slot)
  {
    if ops == [] {
    } else {
      var last, rest := ops[|ops| - 1], ops[..|ops| - 1];
      assert ops == rest + [last] && last in ops;
      var j :| 0 <= j < |list| && list[j] == last;
      var others := list[..j] + list[j + 1..];
      assert list == list[..j] + [last] + list[j + 1..];
      SumSplits(list[..j], last, list[j + 1..], slot);
      forall x | x in rest ensures x in others { assert x in ops && x != last; }
      SumCovers(rest, others, slot);
    }
  }

  // ----- What repeats do to an outcome

  /** Taking out one of two occurrences leaves the same operations. */
  lemma WithoutOne(list: seq<Op>, ops: seq<Op>, i: nat, j: nat)
    requires SameOps(list, ops) && i < j < |list| && list[i] == list[j]
    ensures var less := list[..j] + list[j + 1..];
            && list == list[..j] + [list[j]] + list[j + 1..]
            && list[j] in less && SameOps(less, ops) && forall x :: Repeats(less, x) ==> Repeats(list, x)
  {
    var less := list[..j] + list[j + 1..];
    assert less[i] == list[j];
    forall x ensures x in less <==> x in list {
      if x in list {
        var k :| 0 <= k < |list| && list[k] == x;
        assert k != j ==> less[if k < j then k else k - 1] == x;
      }
    }
    forall x | Repeats(less, x) ensures Repeats(list, x) {
      var k, l :| 0 <= k < l < |less| && less[k] == x && less[l] == x;
      assert list[if k < j then k else k + 1] == x && list[if l < j then l else l + 1] == x;
    }
  }

  /** Settled repeats add nothing that shows. */
  lemma {:induction false} SettledRepeatsAddNothing(list: seq<Op>, ops: seq<Op>, slot: Slot)
    requires Distinct(ops) && SameOps(list, ops)
    requires forall x :: Repeats(list, x) ==> Settled(ops, x)
    ensures Capped(list, slot) == Capped(ops, slot)
    decreases |list|
  {
    SumCovers(ops, list, slot);
    if Distinct(list) {
      SumCovers(list, ops, slot);
    } else {
      var i, j :| 0 <= i < j < |list| && list[i] == list[j];
      WithoutOne(list, ops, i, j);
      assert Repeats(list, list[j]);
      SumSplits(list[..j], list[j], list[j + 1..], slot);
      SettledRepeatsAddNothing(list[..j] + list[j + 1..], ops, slot);
    }
  }

  /** A repeat that is not settled counts twice, and shows. */
  lemma UnsettledRepeatShows(list: seq<Op>, ops: seq<Op>, x: Op)
    requires Distinct(ops) && SameOps(list, ops) && Repeats(list, x) && !Settled(ops, x)
    ensures Outcome(list) != Outcome(ops)
  {
    var slot := SlotOf(x).value;
    var i, j :| 0 <= i < j < |list| && list[i] == x && list[j] == x;
    WithoutOne(list, ops, i, j);
    SumSplits(list[..j], x, list[j + 1..], slot);
    SumCovers(ops, list[..j] + list[j + 1..], slot);
    CounterReading(list, slot);
    CounterReading(ops, slot);
  }

  /**
   A list of operations has the outcome of each taken once, exactly when the same operations
   prevail and all its repeats are settled.
   */
  lemma OutcomeIsExact(list: seq<Op>, ops: seq<Op>)
    requires Distinct(ops) && SameOps(list, ops)
    ensures Outcome(list) == Outcome(ops) <==>
            SameWinners(list, ops) && forall x :: Repeats(list, x) ==> Settled(ops, x)
  {
    OutcomesAgree(list, ops);
    if forall x :: Repeats(list, x) ==> Settled(ops, x) {
      forall slot ensures Capped(list, slot) == Capped(ops, slot) { SettledRepeatsAddNothing(list, ops, slot); }
    } else {
      var x :| Repeats(list, x) && !Settled(ops, x);
      UnsettledRepeatShows(list, ops, x);
    }
  }

  // ----- Orders

  /** All orders of some operations have one outcome if and only if every clash among them is resolved. */
  lemma EveryOrderAgrees(ops: seq<Op>)
    requires Distinct(ops)
    ensures (forall list :: SameOps(list, ops) && Distinct(list) ==> Outcome(list) == Outcome(ops)) <==> Resolved(ops)
  {
    if Resolved(ops) {
      forall list | SameOps(list, ops) && Distinct(list) ensures Outcome(list) == Outcome(ops) {
        ResolvedHasWinners(ops, list);
        OutcomeIsExact(ops, list);
      }
    } else {
      var a, b :| a in ops && b in ops && Clash(a, b) && !Beaten(ops, a);
      var others, rest := TwoOrders(ops, a, b);
      assert SameOps([a] + others, ops) && SameOps([b] + rest, ops);
    }
  }

  /** An open clash: two orders of the operations with different outcomes. */
  lemma TwoOrders(ops: seq<Op>, a: Op, b: Op) returns (others: seq<Op>, rest: seq<Op>)
    requires Distinct(ops) && a in ops && b in ops && Clash(a, b) && !Beaten(ops, a)
    ensures SameOps([a] + others, ops) && Distinct([a] + others)
    ensures SameOps([b] + rest, ops) && Distinct([b] + rest)
    ensures Distinct(Ids(ops)) ==> Distinct(Ids([a] + others)) && Distinct(Ids([b] + rest))
    ensures Outcome([a] + others) != Outcome([b] + rest)
  {
    others := StartWith(ops, a);
    rest := StartWith(ops, b);
    BeatenAlike([a] + others, ops, a);
    OpenClashShows(a, others, b, rest);
  }

  /** Some order of the operations starts with a given one. */
  lemma StartWith(ops: seq<Op>, x: Op) returns (others: seq<Op>)
    requires Distinct(ops) && x in ops
    ensures SameOps([x] + others, ops) && Distinct([x] + others) && |others| + 1 == |ops|
    ensures Distinct(Ids(ops)) ==> Distinct(Ids([x] + others))
  {
    var i :| 0 <= i < |ops| && ops[i] == x;
    others := ops[..i] + ops[i + 1..];
    assert ops == ops[..i] + [x] + ops[i + 1..];
    FrontIsDistinct(ops, i);
    if Distinct(Ids(ops)) {
      FrontIsDistinct(Ids(ops), i);
      assert Ids([x] + others) == [Ids(ops)[i]] + (Ids(ops)[..i] + Ids(ops)[i + 1..]);
    }
  }

  lemma FrontIsDistinct<T>(s: seq<T>, n: nat)
    requires Distinct(s) && n < |s|
    ensures Distinct([s[n]] + (s[..n] + s[n + 1..]))
  {
    var front := [s[n]] + (s[..n] + s[n + 1..]);
    forall i, j | 0 <= i < j < |front| ensures front[i] != front[j] {
      assert front[i] == s[if i == 0 then n else if i <= n then i - 1 else i];
      assert front[j] == s[if j <= n then j - 1 else j];
    }
  }

  // ----- Deliveries

  ghost predicate Delivered(batches: seq<seq<Op>>, op: Op) {
    exists i :: 0 <= i < |batches| && op in batches[i]
  }

  /** The batches carry exactly these operations. */
  ghost predicate Sends(batches: seq<seq<Op>>, ops: seq<Op>) {
    forall op :: Delivered(batches, op) <==> op in ops
  }

  lemma DeliveredSplits(batches: seq<seq<Op>>, op: Op)
    requires batches != []
    ensures Delivered(batches, op) <==> Delivered(batches[..|batches| - 1], op) || op in batches[|batches| - 1]
  {
    var before := batches[..|batches| - 1];
    if Delivered(before, op) {
      var i :| 0 <= i < |before| && op in before[i];
      assert op in batches[i];
    }
  }

  /** Identifiers tell operations apart. */
  ghost predicate Identified(ops: seq<Op>) {
    forall a, b :: a in ops && b in ops && a.id == b.id ==> a == b
  }

  lemma DistinctIdsIdentify(ops: seq<Op>)
    requires Distinct(Ids(ops))
    ensures Distinct(ops) && Identified(ops)
  {
    var ids := Ids(ops);
    forall i, j | 0 <= i < j < |ops| ensures ops[i] != ops[j] { assert ids[i] != ids[j]; }
    forall a, b | a in ops && b in ops && a.id == b.id ensures a == b {
      var i :| 0 <= i < |ops| && ops[i] == a;
      var j :| 0 <= j < |ops| && ops[j] == b;
      assert ids[i] == ids[j];
    }
  }

  /** With unique identifiers, an operation of a batch is new exactly when its identifier is not remembered. */
  lemma FreshExactly(seen: seq<Bytes>, batch: seq<Op>, ops: seq<Op>, x: Op)
    requires Identified(ops) && (forall y :: y in batch ==> y in ops)
    ensures x in Fresh(seen, batch) <==> x in batch && x.id !in seen
  {
    FreshHolds(seen, batch);
    if x in batch && x.id !in seen {
      var found := Fresh(seen, batch);
      var i :| 0 <= i < |found| && Ids(found)[i] == x.id;
      assert found[i] in found && found[i] in batch;
    }
  }

  /** Whatever its memory, a replica applies every operation it is sent, and no other. */
  lemma {:induction false} AppliesAll(limit: nat, batches: seq<seq<Op>>, ops: seq<Op>)
    requires Identified(ops) && forall op :: Delivered(batches, op) ==> op in ops
    ensures forall op :: op in Applied(limit, batches) <==> Delivered(batches, op)
  {
    if batches == [] {
    } else {
      var before, batch := batches[..|batches| - 1], batches[|batches| - 1];
      forall op ensures Delivered(batches, op) <==> Delivered(before, op) || op in batch { DeliveredSplits(batches, op); }
      AppliesAll(limit, before, ops);
      var applied := Applied(limit, before);
      var seen := Newest(Ids(applied), limit);
      forall x ensures x in applied + Fresh(seen, batch) <==> x in applied || x in batch {
        FreshExactly(seen, batch, ops, x);
        if x in batch && x.id in seen { RememberedIsApplied(applied, limit, ops, x); }
      }
    }
  }

  lemma RememberedIsApplied(applied: seq<Op>, limit: nat, ops: seq<Op>, x: Op)
    requires Identified(ops) && x in ops && (forall y :: y in applied ==> y in ops)
    requires x.id in Newest(Ids(applied), limit)
    ensures x in applied
  {
    var ids := Ids(applied);
    var kept := Newest(ids, limit);
    var j :| 0 <= j < |kept| && kept[j] == x.id;
    var i := if |ids| <= limit then j else |ids| - limit + j;
    assert ids[i] == x.id && applied[i] in applied;
  }

  /**
   A replica ends with the outcome of every operation taken once, exactly when the same operations
   prevail at it and each operation it applied again was settled.
   */
  lemma ReplicaIsExact(limit: nat, batches: seq<seq<Op>>, ops: seq<Op>)
    requires Distinct(ops) && Identified(ops) && Sends(batches, ops)
    ensures var applied := Applied(limit, batches);
            Outcome(applied) == Outcome(ops) <==>
              SameWinners(applied, ops) && forall x :: Repeats(applied, x) ==> Settled(ops, x)
  {
    AppliesAll(limit, batches, ops);
    OutcomeIsExact(Applied(limit, batches), ops);
  }

  /**
   Replicas that were sent the same operations agree exactly when the same operations prevail at
   both and their counters add up alike. With every clash resolved and no unsettled counter
   operation applied again this is so, whatever the limits of their memories and however
   deliveries were ordered, cut or repeated.
   */
  lemma ReplicasConverge(limitA: nat, a: seq<seq<Op>>, limitB: nat, b: seq<seq<Op>>, ops: seq<Op>)
    requires Distinct(ops) && Identified(ops) && Sends(a, ops) && Sends(b, ops)
    ensures var left, right := Applied(limitA, a), Applied(limitB, b);
            && (Outcome(left) == Outcome(right) <==> SameWinners(left, right) && SameSums(left, right))
            && (Resolved(ops) && (forall x :: Repeats(left, x) || Repeats(right, x) ==> Settled(ops, x)) ==>
                  Outcome(left) == Outcome(right))
  {
    var left, right := Applied(limitA, a), Applied(limitB, b);
    AppliesAll(limitA, a, ops);
    AppliesAll(limitB, b, ops);
    OutcomesAgree(left, right);
    if Resolved(ops) {
      ResolvedConverges(left, ops);
      ResolvedConverges(right, ops);
    }
  }

  lemma ResolvedConverges(list: seq<Op>, ops: seq<Op>)
    requires Distinct(ops) && SameOps(list, ops) && Resolved(ops)
    ensures (forall x :: Repeats(list, x) ==> Settled(ops, x)) ==> Outcome(list) == Outcome(ops)
  {
    ResolvedHasWinners(ops, list);
    OutcomeIsExact(list, ops);
  }

  // ----- The window

  lemma InNewest<T>(s: seq<T>, limit: nat, i: nat)
    requires i < |s| && s[i] !in s[i + 1..]
    ensures s[i] in Newest(s, limit) <==> |s| - i <= limit
  {
    var kept := Newest(s, limit);
    if |s| > limit {
      var from := |s| - limit;
      assert forall j :: 0 <= j < |kept| ==> kept[j] == s[from + j];
      if i >= from {
        assert kept[i - from] == s[i];
      } else {
        assert forall j :: 0 <= j < |kept| ==> kept[j] == s[i + 1..][from + j - i - 1];
      }
    }
  }

  /** A repeat is recognised exactly while fewer than `limit` operations have been applied since its last time. */
  lemma RecognisedWhileRecent(applied: seq<Op>, limit: nat, i: nat)
    requires i < |applied| && applied[i].id !in Ids(applied)[i + 1..]
    ensures Fresh(Newest(Ids(applied), limit), [applied[i]]) == (if |applied| - i <= limit then [] else [applied[i]])
  {
    var ids := Ids(applied);
    var seen := Newest(ids, limit);
    InNewest(ids, limit, i);
    var batch := [applied[i]];
    assert batch[..0] == [] && Fresh(seen, []) == [];
  }

  /** One batch more applies an operation again exactly when it comes after the window has closed on it. */
  lemma RepeatedExactly(limit: nat, batches: seq<seq<Op>>, batch: seq<Op>, ops: seq<Op>, x: Op)
    requires Identified(ops) && (forall op :: Delivered(batches, op) || op in batch ==> op in ops)
    ensures var applied := Applied(limit, batches);
            Repeats(Applied(limit, batches + [batch]), x) <==>
              Repeats(applied, x) || (x in applied && x in batch && x.id !in Newest(Ids(applied), limit))
  {
    var applied := Applied(limit, batches);
    var seen := Newest(Ids(applied), limit);
    var more := Fresh(seen, batch);
    AppliedMore(limit, batches, batch);
    FreshExactly(seen, batch, ops, x);
    FreshHolds(seen, batch);
    RepeatsOfConcat(applied, more, x);
  }

  lemma RepeatsOfConcat(a: seq<Op>, b: seq<Op>, x: Op)
    requires Distinct(Ids(b))
    ensures Repeats(a + b, x) <==> Repeats(a, x) || (x in a && x in b)
  {
    var s := a + b;
    forall i, j | |a| <= i < j < |s| ensures s[i] != s[j] { assert Ids(b)[i - |a|] != Ids(b)[j - |a|]; }
    if Repeats(a, x) {
      var i, j :| 0 <= i < j < |a| && a[i] == x && a[j] == x;
      assert s[i] == x && s[j] == x;
    }
    if x in a && x in b {
      var i :| 0 <= i < |a| && a[i] == x;
      var j :| 0 <= j < |b| && b[j] == x;
      assert s[i] == x && s[|a| + j] == x;
    }
    if Repeats(s, x) {
      var i, j :| 0 <= i < j < |s| && s[i] == x && s[j] == x;
      assert i < |a| && s[i] == a[i];
      assert j < |a| ==> s[j] == a[j];
      assert j >= |a| ==> s[j] == b[j - |a|];
    }
  }

  // ----- Every delivery

  /** While the memory holds all identifiers, nothing is applied twice. */
  lemma {:induction false} AppliedOnce(limit: nat, batches: seq<seq<Op>>, ops: seq<Op>)
    requires Identified(ops) && (forall op :: Delivered(batches, op) ==> op in ops) && |ops| <= limit
    ensures Distinct(Ids(Applied(limit, batches)))
  {
    if batches == [] {
    } else {
      var before, batch := batches[..|batches| - 1], batches[|batches| - 1];
      forall op | Delivered(before, op) ensures Delivered(batches, op) { DeliveredSplits(batches, op); }
      AppliedOnce(limit, before, ops);
      AppliesAll(limit, before, ops);
      var applied := Applied(limit, before);
      DistinctIdsIdentify(applied);
      DistinctFits(applied, ops);
      assert Newest(Ids(applied), limit) == Ids(applied);
      FreshHolds(Ids(applied), batch);
      FreshIdsAreNew(Ids(applied), batch);
      IdsOfConcat(applied, Fresh(Ids(applied), batch));
      DistinctJoin(Ids(applied), Ids(Fresh(Ids(applied), batch)));
    }
  }

  lemma NoRepeatsWhenDistinct(ops: seq<Op>, x: Op)
    requires Distinct(Ids(ops))
    ensures !Repeats(ops, x)
  {
    DistinctIdsIdentify(ops);
  }

  lemma {:induction false} AllFresh(ops: seq<Op>)
    requires Distinct(Ids(ops))
    ensures Fresh([], ops) == ops
  {
    if ops == [] {
    } else {
      var rest := ops[..|ops| - 1];
      var ids := Ids(ops);
      assert forall i :: 0 <= i < |rest| ==> Ids(rest)[i] == ids[i];
      AllFresh(rest);
      assert ops == rest + [ops[|ops| - 1]];
    }
  }

  /** All operations at once, then the first of them again. */
  function OnceMore(x: Op, others: seq<Op>): seq<seq<Op>> {
    [[x] + others, [x]]
  }

  lemma OneBatchApplies(limit: nat, ops: seq<Op>)
    requires Distinct(Ids(ops))
    ensures Applied(limit, [ops]) == ops
  {
    AllFresh(ops);
    var none: seq<seq<Op>> := [];
    AppliedMore(limit, none, ops);
    assert none + [ops] == [ops] && Ids(Applied(limit, none)) == [];
  }

  lemma OnceMoreApplies(limit: nat, x: Op, others: seq<Op>)
    requires Distinct(Ids([x] + others)) && |others| >= limit
    ensures Applied(limit, OnceMore(x, others)) == [x] + others + [x]
  {
    var all := [x] + others;
    OneBatchApplies(limit, all);
    AppliedMore(limit, [all], [x]);
    assert [all] + [[x]] == OnceMore(x, others);
    FirstIsForgotten(limit, all);
  }

  lemma FirstIsForgotten(limit: nat, ops: seq<Op>)
    requires Distinct(Ids(ops)) && |ops| > limit
    ensures Fresh(Newest(Ids(ops), limit), [ops[0]]) == [ops[0]]
  {
    var ids := Ids(ops);
    assert forall i :: 0 <= i < |ids[1..]| ==> ids[1..][i] == ids[i + 1] != ids[0];
    RecognisedWhileRecent(ops, limit, 0);
  }

  lemma SendsOnceMore(x: Op, others: seq<Op>)
    ensures Sends([[x] + others], [x] + others) && Sends(OnceMore(x, others), [x] + others)
  {
    var all := [x] + others;
    forall op ensures Delivered([all], op) <==> op in all {
      if op in all { assert op in [all][0]; }
    }
    forall op ensures Delivered(OnceMore(x, others), op) <==> op in all {
      if op in all { assert op in OnceMore(x, others)[0]; }
      assert x in all;
    }
  }

  /**
   Too many operations for the memory and one unsettled counter operation among them: two
   replicas are sent the same operations and disagree.
   */
  lemma ForgetfulReplicasDisagree(limit: nat, x: Op, others: seq<Op>)
    requires Distinct(Ids([x] + others)) && |others| >= limit && !Settled([x] + others, x)
    ensures Sends([[x] + others], [x] + others) && Sends(OnceMore(x, others), [x] + others)
    ensures Outcome(Applied(limit, OnceMore(x, others))) != Outcome(Applied(limit, [[x] + others]))
  {
    var ops := [x] + others;
    SendsOnceMore(x, others);
    OnceMoreApplies(limit, x, others);
    OneBatchApplies(limit, ops);
    RepeatChangesNothing(ops, x);
  }

  /**
   Given the operations and the limit, every delivery of them leads to the same outcome if and
   only if every clash among them is resolved and the memory can hold them all, or all of them
   are settled.
   */
  lemma EveryDeliveryConverges(limit: nat, ops: seq<Op>)
    requires Distinct(Ids(ops))
    ensures (forall batches :: Sends(batches, ops) ==> Outcome(Applied(limit, batches)) == Outcome(ops)) <==>
            Resolved(ops) && (|ops| <= limit || forall x :: x in ops ==> Settled(ops, x))
  {
    DistinctIdsIdentify(ops);
    if Resolved(ops) && (|ops| <= limit || forall x :: x in ops ==> Settled(ops, x)) {
      forall batches | Sends(batches, ops) ensures Outcome(Applied(limit, batches)) == Outcome(ops) {
        DeliveryConverges(limit, ops, batches);
      }
    } else if !Resolved(ops) {
      var left, right := OpenClashDiffers(limit, ops);
      assert Sends(left, ops) && Sends(right, ops);
    } else {
      var x :| x in ops && !Settled(ops, x);
      var batches := DeliveryDiffers(limit, ops, x);
      assert Sends(batches, ops);
    }
  }

  lemma DeliveryConverges(limit: nat, ops: seq<Op>, batches: seq<seq<Op>>)
    requires Distinct(Ids(ops)) && Resolved(ops) && Sends(batches, ops)
    requires |ops| <= limit || forall x :: x in ops ==> Settled(ops, x)
    ensures Outcome(Applied(limit, batches)) == Outcome(ops)
  {
    var applied := Applied(limit, batches);
    DistinctIdsIdentify(ops);
    AppliesAll(limit, batches, ops);
    ResolvedConverges(applied, ops);
    if |ops| <= limit {
      AppliedOnce(limit, batches, ops);
      forall x ensures !Repeats(applied, x) { NoRepeatsWhenDistinct(applied, x); }
    } else {
      forall x | Repeats(applied, x) ensures Settled(ops, x) {
        var i, j :| 0 <= i < j < |applied| && applied[i] == x && applied[j] == x;
        assert x in applied;
      }
    }
  }

  lemma SendsInOne(list: seq<Op>, ops: seq<Op>)
    requires SameOps(list, ops)
    ensures Sends([list], ops)
  {
    forall op ensures Delivered([list], op) <==> op in ops {
      if op in list { assert op in [list][0]; }
    }
  }

  lemma OpenClashDiffers(limit: nat, ops: seq<Op>) returns (left: seq<seq<Op>>, right: seq<seq<Op>>)
    requires Distinct(Ids(ops)) && !Resolved(ops)
    ensures Sends(left, ops) && Sends(right, ops)
    ensures Outcome(Applied(limit, left)) != Outcome(Applied(limit, right))
  {
    DistinctIdsIdentify(ops);
    var a, b :| a in ops && b in ops && Clash(a, b) && !Beaten(ops, a);
    var others, rest := TwoOrders(ops, a, b);
    left, right := [[a] + others], [[b] + rest];
    SendsInOne([a] + others, ops);
    SendsInOne([b] + rest, ops);
    OneBatchApplies(limit, [a] + others);
    OneBatchApplies(limit, [b] + rest);
  }

  lemma DeliveryDiffers(limit: nat, ops: seq<Op>, x: Op) returns (batches: seq<seq<Op>>)
    requires Distinct(Ids(ops)) && x in ops && |ops| > limit && !Settled(ops, x)
    ensures Sends(batches, ops) && Outcome(Applied(limit, batches)) != Outcome(ops)
  {
    DistinctIdsIdentify(ops);
    var others := StartWith(ops, x);
    var list := [x] + others + [x];
    batches := OnceMore(x, others);
    SendsOnceMore(x, others);
    OnceMoreApplies(limit, x, others);
    assert list[0] == x && list[|others| + 1] == x;
    assert Repeats(list, x) && SameOps(list, ops);
    UnsettledRepeatShows(list, ops, x);
  }
}
