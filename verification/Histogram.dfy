/**
 The lock-free duration histogram: any number of recorders, each making its three atomic updates
 one at a time, interleaved with a scrape that reads counter after counter. Counters are
 unbounded; steps are sequentially consistent.
 */
module Histogram {
  import opened Basics

  /** Upper bounds of the finite buckets, in nanoseconds. */
  const REMOTE_OP_APPLY_BUCKETS: seq<nat> :=
    [100_000, 250_000, 500_000, 1_000_000, 2_500_000, 5_000_000, 10_000_000, 25_000_000, 50_000_000,
     100_000_000, 250_000_000, 500_000_000, 1_000_000_000, 2_500_000_000, 5_000_000_000]

  predicate Rising(bounds: seq<nat>) {
    forall i, j :: 0 <= i < j < |bounds| ==> bounds[i] < bounds[j]
  }

  /** From a tenth of a millisecond to five seconds, 1, 2.5 and 5 of each power of ten. */
  lemma BucketsRise(k: nat)
    ensures Rising(REMOTE_OP_APPLY_BUCKETS) && |REMOTE_OP_APPLY_BUCKETS| == 15 && REMOTE_OP_APPLY_BUCKETS[0] == 100_000
    ensures k < 5 ==> var b := REMOTE_OP_APPLY_BUCKETS; 2 * b[3 * k + 1] == 5 * b[3 * k] && b[3 * k + 2] == 5 * b[3 * k]
    ensures k < 4 ==> REMOTE_OP_APPLY_BUCKETS[3 * k + 3] == 10 * REMOTE_OP_APPLY_BUCKETS[3 * k]
  {
  }

  /** The first bucket whose bound takes the duration; past the end when none does. */
  function IndexOf(bounds: seq<nat>, ns: nat): (k: nat)
    ensures k <= |bounds|
    ensures forall j :: 0 <= j < k ==> bounds[j] < ns
    ensures k < |bounds| ==> ns <= bounds[k]
  {
    if bounds == [] || ns <= bounds[0] then 0 else 1 + IndexOf(bounds[1..], ns)
  }

  // ----- Counting records

  datatype Phase = Counted | Summed | Done

  datatype Record = Entry(ns: nat, phase: Phase)

  function One(b: bool): nat { if b then 1 else 0 }

  /** Records that have reached the bucket with this index. */
  function DoneIn(bounds: seq<nat>, records: seq<Record>, k: nat): nat {
    if records == [] then 0
    else DoneIn(bounds, records[1..], k) + One(records[0].phase.Done? && IndexOf(bounds, records[0].ns) == k)
  }

  /** Records that have reached one of the first `n` buckets. */
  function DoneBelow(bounds: seq<nat>, records: seq<Record>, n: nat): (c: nat)
    ensures c <= |records|
  {
    if records == [] then 0
    else DoneBelow(bounds, records[1..], n) + One(records[0].phase.Done? && IndexOf(bounds, records[0].ns) < n)
  }

  function SumOf(records: seq<Record>): nat {
    if records == [] then 0 else SumOf(records[1..]) + (if records[0].phase.Counted? then 0 else records[0].ns)
  }

  /** How many durations lie within a bound. */
  function Within(records: seq<Record>, bound: nat): nat {
    if records == [] then 0 else Within(records[1..], bound) + One(records[0].ns <= bound)
  }

  function Sum(s: seq<nat>): nat {
    if s == [] then 0 else Sum(s[..|s| - 1]) + s[|s| - 1]
  }

  lemma {:induction false} DoneBelowGrows(bounds: seq<nat>, records: seq<Record>, n: nat)
    ensures DoneBelow(bounds, records, n + 1) == DoneBelow(bounds, records, n) + DoneIn(bounds, records, n)
    ensures DoneBelow(bounds, records, 0) == 0
  {
    if records == [] {
    } else {
      DoneBelowGrows(bounds, records[1..], n);
    }
  }

  /** A change of one record's phase moves the counts by that record alone. */
  lemma {:induction false} CountsOfUpdate(bounds: seq<nat>, records: seq<Record>, i: nat, phase: Phase, k: nat)
    requires i < |records|
    ensures var r := records[i];
            var after := records[i := r.(phase := phase)];
            && DoneIn(bounds, after, k) + One(r.phase.Done? && IndexOf(bounds, r.ns) == k)
               == DoneIn(bounds, records, k) + One(phase.Done? && IndexOf(bounds, r.ns) == k)
            && SumOf(after) + (if r.phase.Counted? then 0 else r.ns) == SumOf(records) + (if phase.Counted? then 0 else r.ns)
  {
    var after := records[i := records[i].(phase := phase)];
    if i == 0 {
      assert after[1..] == records[1..];
    } else {
      assert after[1..] == records[1..][i - 1 := records[i].(phase := phase)];
      CountsOfUpdate(bounds, records[1..], i - 1, phase, k);
    }
  }

  lemma {:induction false} CountsOfNew(bounds: seq<nat>, records: seq<Record>, ns: nat, k: nat)
    ensures var after := records + [Entry(ns, Counted)];
            DoneIn(bounds, after, k) == DoneIn(bounds, records, k) && SumOf(after) == SumOf(records)
  {
    if records == [] {
    } else {
      CountsOfNew(bounds, records[1..], ns, k);
      assert (records + [Entry(ns, Counted)])[1..] == records[1..] + [Entry(ns, Counted)];
    }
  }

  // ----- The state machine

  /** What a scrape has read so far: buckets in order, then the sum, then the count. */
  datatype Scrape = Scrape(buckets: seq<nat>, sum: Option<nat>, count: Option<nat>)

  datatype State = State(buckets: seq<nat>, sum: nat, count: nat, records: seq<Record>, scrape: Scrape)

  datatype Step =
    | Begin(ns: nat)
    | AddSum(i: nat)
    | AddBucket(i: nat)
    | StartScrape
    | ReadBucket
    | ReadSum
    | ReadCount

  predicate Initial(bounds: seq<nat>, s: State) {
    && |s.buckets| == |bounds| && (forall k :: 0 <= k < |bounds| ==> s.buckets[k] == 0)
    && s.sum == 0 && s.count == 0 && s.records == [] && s.scrape == Scrape([], None, None)
  }

  predicate Enabled(bounds: seq<nat>, s: State, step: Step) {
    match step
    case Begin(_) => true
    case AddSum(i) => i < |s.records| && s.records[i].phase.Counted?
    case AddBucket(i) => i < |s.records| && s.records[i].phase.Summed?
    case StartScrape => true
    case ReadBucket => |s.scrape.buckets| < |bounds| && |s.scrape.buckets| < |s.buckets|
    case ReadSum => |s.scrape.buckets| == |bounds| && s.scrape.sum.None?
    case ReadCount => s.scrape.sum.Some? && s.scrape.count.None?
  }

  function Bump(buckets: seq<nat>, k: nat): seq<nat> {
    if k < |buckets| then buckets[k := buckets[k] + 1] else buckets
  }

  function Apply(bounds: seq<nat>, s: State, step: Step): State
    requires Enabled(bounds, s, step)
  {
    match step
    case Begin(ns) => s.(count := s.count + 1, records := s.records + [Entry(ns, Counted)])
    case AddSum(i) =>
      s.(sum := s.sum + s.records[i].ns, records := s.records[i := s.records[i].(phase := Summed)])
    case AddBucket(i) =>
      s.(buckets := Bump(s.buckets, IndexOf(bounds, s.records[i].ns)),
         records := s.records[i := s.records[i].(phase := Done)])
    case StartScrape => s.(scrape := Scrape([], None, None))
    case ReadBucket => s.(scrape := s.scrape.(buckets := s.scrape.buckets + [s.buckets[|s.scrape.buckets|]]))
    case ReadSum => s.(scrape := s.scrape.(sum := Some(s.sum)))
    case ReadCount => s.(scrape := s.scrape.(count := Some(s.count)))
  }

  /** The counters are exact for what the recorders have done so far. */
  ghost predicate CountersInv(bounds: seq<nat>, buckets: seq<nat>, sum: nat, count: nat, records: seq<Record>) {
    && |buckets| == |bounds| && count == |records| && sum == SumOf(records)
    && forall k :: 0 <= k < |bounds| ==> buckets[k] == DoneIn(bounds, records, k)
  }

  /** What was read is not ahead of the counters, and the count was read last. */
  ghost predicate ScrapeInv(bounds: seq<nat>, buckets: seq<nat>, scrape: Scrape) {
    && |scrape.buckets| <= |bounds| == |buckets|
    && (forall k :: 0 <= k < |scrape.buckets| ==> scrape.buckets[k] <= buckets[k])
    && (scrape.sum.Some? ==> |scrape.buckets| == |bounds|)
    && (scrape.count.Some? ==> scrape.sum.Some? && Sum(scrape.buckets) <= scrape.count.value)
  }

  ghost predicate Inv(bounds: seq<nat>, s: State) {
    CountersInv(bounds, s.buckets, s.sum, s.count, s.records) && ScrapeInv(bounds, s.buckets, s.scrape)
  }

  lemma {:induction false} SumIsMonotone(a: seq<nat>, b: seq<nat>)
    requires |a| == |b| && forall k :: 0 <= k < |a| ==> a[k] <= b[k]
    ensures Sum(a) <= Sum(b)
  {
    if a == [] {
    } else {
      SumIsMonotone(a[..|a| - 1], b[..|b| - 1]);
    }
  }

  /** The first buckets add up to the records that have reached them. */
  lemma {:induction false} BucketsAddUp(bounds: seq<nat>, buckets: seq<nat>, records: seq<Record>, n: nat)
    requires |buckets| == |bounds| && (forall k :: 0 <= k < |bounds| ==> buckets[k] == DoneIn(bounds, records, k))
    requires n <= |bounds|
    ensures Sum(buckets[..n]) == DoneBelow(bounds, records, n)
  {
    DoneBelowGrows(bounds, records, 0);
    if n == 0 {
    } else {
      BucketsAddUp(bounds, buckets, records, n - 1);
      DoneBelowGrows(bounds, records, n - 1);
      assert buckets[..n][..n - 1] == buckets[..n - 1];
    }
  }

  lemma RecorderKeepsCounters(bounds: seq<nat>, s: State, step: Step)
    requires Inv(bounds, s) && Enabled(bounds, s, step) && (step.Begin? || step.AddSum? || step.AddBucket?)
    ensures var t := Apply(bounds, s, step);
            CountersInv(bounds, t.buckets, t.sum, t.count, t.records)
  {
    var t := Apply(bounds, s, step);
    forall k | 0 <= k < |bounds| ensures t.buckets[k] == DoneIn(bounds, t.records, k) && t.sum == SumOf(t.records) {
      match step
      case Begin(ns) => CountsOfNew(bounds, s.records, ns, k);
      case AddSum(i) => CountsOfUpdate(bounds, s.records, i, Summed, k);
      case AddBucket(i) => CountsOfUpdate(bounds, s.records, i, Done, k);
    }
    match step
    case Begin(ns) => CountsOfNew(bounds, s.records, ns, 0);
    case AddSum(i) => CountsOfUpdate(bounds, s.records, i, Summed, 0);
    case AddBucket(i) => CountsOfUpdate(bounds, s.records, i, Done, 0);
  }

  lemma ReadCountIsEnough(bounds: seq<nat>, s: State)
    requires Inv(bounds, s) && |s.scrape.buckets| == |bounds|
    ensures Sum(s.scrape.buckets) <= s.count
  {
    SumIsMonotone(s.scrape.buckets, s.buckets);
    BucketsAddUp(bounds, s.buckets, s.records, |bounds|);
    assert s.buckets[..|bounds|] == s.buckets;
  }

  lemma StepKeepsInv(bounds: seq<nat>, s: State, step: Step)
    requires Inv(bounds, s) && Enabled(bounds, s, step)
    ensures Inv(bounds, Apply(bounds, s, step))
  {
    if step.Begin? || step.AddSum? || step.AddBucket? {
      RecorderKeepsCounters(bounds, s, step);
    } else if step.ReadCount? {
      ReadCountIsEnough(bounds, s);
    }
  }

  ghost predicate IsRun(bounds: seq<nat>, states: seq<State>, steps: seq<Step>) {
    && |states| == |steps| + 1 && Initial(bounds, states[0])
    && forall i :: 0 <= i < |steps| ==> Enabled(bounds, states[i], steps[i]) && states[i + 1] == Apply(bounds, states[i], steps[i])
  }

  lemma {:induction false} InvAlways(bounds: seq<nat>, states: seq<State>, steps: seq<Step>, i: nat)
    requires IsRun(bounds, states, steps) && i < |states|
    ensures Inv(bounds, states[i])
  {
    if i == 0 {
    } else {
      InvAlways(bounds, states, steps, i - 1);
      StepKeepsInv(bounds, states[i - 1], steps[i - 1]);
    }
  }

  // ----- Rendering

  /** The cumulative lines of the rendering, with the saturating addition of the renderer. */
  method RenderBuckets(buckets: seq<nat>) returns (lines: seq<nat>)
    ensures |lines| == |buckets|
    ensures forall k :: 0 <= k < |buckets| ==> lines[k] == Min(Sum(buckets[..k + 1]), MAX_U64)
  {
    lines := [];
    var cumulative := 0;
    for i := 0 to |buckets|
      invariant |lines| == i && cumulative == Min(Sum(buckets[..i]), MAX_U64)
      invariant forall k :: 0 <= k < i ==> lines[k] == Min(Sum(buckets[..k + 1]), MAX_U64)
    {
      assert buckets[..i + 1][..i] == buckets[..i];
      cumulative := SaturatingAdd(cumulative, buckets[i], MAX_U64);
      lines := lines + [cumulative];
    }
  }

  lemma {:induction false} SumOfPrefix(s: seq<nat>, m: nat, n: nat)
    requires m <= n <= |s|
    ensures Sum(s[..m]) <= Sum(s[..n])
  {
    if m == n {
    } else {
      SumOfPrefix(s, m, n - 1);
      assert s[..n][..n - 1] == s[..n - 1];
    }
  }

  /**
   Whatever the interleaving, a completed scrape renders cumulative buckets that never decrease
   and never exceed the `+Inf` count.
   */
  lemma RenderedIsConsistent(bounds: seq<nat>, states: seq<State>, steps: seq<Step>, i: nat, j: nat, k: nat)
    requires IsRun(bounds, states, steps) && i < |states| && states[i].scrape.count.Some? && j <= k < |bounds|
    ensures |states[i].scrape.buckets| == |bounds|
    ensures var read := states[i].scrape;
            Sum(read.buckets[..j + 1]) <= Sum(read.buckets[..k + 1]) <= read.count.value
  {
    InvAlways(bounds, states, steps, i);
    var read := states[i].scrape.buckets;
    SumOfPrefix(read, j + 1, k + 1);
    SumOfPrefix(read, k + 1, |read|);
    assert read[..|read|] == read;
  }

  ghost predicate Quiet(s: State) {
    forall i :: 0 <= i < |s.records| ==> s.records[i].phase.Done?
  }

  lemma {:induction false} QuietCounts(bounds: seq<nat>, records: seq<Record>, k: nat)
    requires Rising(bounds) && k < |bounds| && (forall i :: 0 <= i < |records| ==> records[i].phase.Done?)
    ensures DoneBelow(bounds, records, k + 1) == Within(records, bounds[k])
  {
    if records == [] {
    } else {
      QuietCounts(bounds, records[1..], k);
      var n := IndexOf(bounds, records[0].ns);
      assert n <= k ==> bounds[n] <= bounds[k];
    }
  }

  /** All durations together. */
  function Nanoseconds(records: seq<Record>): nat {
    if records == [] then 0 else records[0].ns + Nanoseconds(records[1..])
  }

  lemma {:induction false} QuietSum(records: seq<Record>)
    requires forall i :: 0 <= i < |records| ==> records[i].phase.Done?
    ensures SumOf(records) == Nanoseconds(records)
  {
    if records == [] {
    } else {
      QuietSum(records[1..]);
    }
  }

  /** A scrape from start to end while no recorder is under way is exact. */
  lemma QuietScrapeIsExact(bounds: seq<nat>, states: seq<State>, steps: seq<Step>, from: nat, to: nat, k: nat)
    requires Rising(bounds) && IsRun(bounds, states, steps) && from < to < |states| && k < |bounds|
    requires Quiet(states[from]) && steps[from] == StartScrape && states[to].scrape.count.Some?
    requires forall i :: from < i < to ==> steps[i].ReadBucket? || steps[i].ReadSum? || steps[i].ReadCount?
    ensures |states[to].scrape.buckets| == |bounds|
    ensures Sum(states[to].scrape.buckets[..k + 1]) == Within(states[from].records, bounds[k])
    ensures states[to].scrape.count.value == |states[from].records|
    ensures states[to].scrape.sum == Some(Nanoseconds(states[from].records))
  {
    QuietSum(states[from].records);
    ReadsSeeOneState(bounds, states, steps, from, to);
    InvAlways(bounds, states, steps, from);
    InvAlways(bounds, states, steps, to);
    var s := states[from];
    assert states[to].scrape.buckets == s.buckets;
    BucketsAddUp(bounds, s.buckets, s.records, k + 1);
    QuietCounts(bounds, s.records, k);
  }

  lemma {:induction false} ReadsSeeOneState(bounds: seq<nat>, states: seq<State>, steps: seq<Step>, from: nat, to: nat)
    requires IsRun(bounds, states, steps) && from < to < |states| && steps[from] == StartScrape
    requires forall i :: from < i < to ==> steps[i].ReadBucket? || steps[i].ReadSum? || steps[i].ReadCount?
    ensures var s, t := states[from], states[to];
            && t.(scrape := s.scrape) == s
            && |t.scrape.buckets| <= |s.buckets| && t.scrape.buckets == s.buckets[..|t.scrape.buckets|]
            && (t.scrape.sum.Some? ==> t.scrape.sum.value == s.sum)
            && (t.scrape.count.Some? ==> t.scrape.count.value == s.count)
  {
    assert states[to - 1 + 1] == Apply(bounds, states[to - 1], steps[to - 1]);
    if to == from + 1 {
    } else {
      ReadsSeeOneState(bounds, states, steps, from, to - 1);
    }
  }

  // ----- The histogram itself

  class DurationHistogram {
    const bounds: seq<nat>
    var buckets: seq<nat>
    var sum: nat
    var count: nat
    ghost var records: seq<Record>

    /** Exact for everything recorded, once no recorder is under way. */
    ghost predicate Valid()
      reads this
    {
      && CountersInv(bounds, buckets, sum, count, records)
      && forall i :: 0 <= i < |records| ==> records[i].phase.Done?
    }

    constructor (bounds: seq<nat>)
      ensures Valid() && this.bounds == bounds && records == []
    {
      this.bounds, buckets, sum, count, records := bounds, seq(|bounds|, _ => 0), 0, 0, [];
    }

    /** The three updates of one recorder, in the order of the source. */
    method Record(ns: nat)
      requires Valid()
      modifies this
      ensures Valid() && records == old(records) + [Entry(ns, Done)]
      ensures count == old(count) + 1 && sum == old(sum) + ns
      ensures forall k :: 0 <= k < |bounds| ==>
                buckets[k] == old(buckets)[k] + if ns <= bounds[k] && (forall j :: 0 <= j < k ==> bounds[j] < ns) then 1 else 0
    {
      ghost var s := State(buckets, sum, count, records, Scrape([], None, None));
      ghost var i := |records|;
      ghost var s1 := Apply(bounds, s, Begin(ns));
      RecorderKeepsCounters(bounds, s, Begin(ns));
      count := count + 1;
      ghost var s2 := Apply(bounds, s1, AddSum(i));
      RecorderKeepsCounters(bounds, s1, AddSum(i));
      sum := sum + ns;
      RecorderKeepsCounters(bounds, s2, AddBucket(i));
      var index := Position(bounds, ns);
      if index < |buckets| { buckets := buckets[index := buckets[index] + 1]; }
      records := Apply(bounds, s2, AddBucket(i)).records;
      assert records == old(records) + [Entry(ns, Done)];
    }
  }

  method Position(bounds: seq<nat>, ns: nat) returns (index: nat)
    ensures index == IndexOf(bounds, ns)
  {
    for i := 0 to |bounds|
      invariant forall j :: 0 <= j < i ==> bounds[j] < ns
    {
      if ns <= bounds[i] { return i; }
    }
    return |bounds|;
  }
}
