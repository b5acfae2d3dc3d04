/**
 The histogram read with loads that may be stale, as relaxed atomics allow: a scrape gets each
 bucket, and the count, as they were at any past moments of the run.
 */
module StaleScrape {
  import opened Basics
  import opened Histogram

  /** The moments of a run at which the buckets were current that the scrape read. */
  ghost predicate Moments(bounds: seq<nat>, states: seq<State>, at: seq<nat>, count: nat) {
    |at| == |bounds| && count < |states| && forall k :: 0 <= k < |at| ==> at[k] < |states|
  }

  ghost predicate WellFormed(bounds: seq<nat>, states: seq<State>) {
    forall i :: 0 <= i < |states| ==> |states[i].buckets| == |bounds|
  }

  ghost function Loaded(bounds: seq<nat>, states: seq<State>, at: seq<nat>, count: nat): (read: seq<nat>)
    requires Moments(bounds, states, at, count) && WellFormed(bounds, states)
    ensures |read| == |bounds| && forall k :: 0 <= k < |read| ==> read[k] == states[at[k]].buckets[k]
  {
    seq(|bounds|, k requires 0 <= k < |bounds| => states[at[k]].buckets[k])
  }

  lemma RunIsWellFormed(bounds: seq<nat>, states: seq<State>, steps: seq<Step>)
    requires IsRun(bounds, states, steps)
    ensures WellFormed(bounds, states)
  {
    forall i | 0 <= i < |states| ensures |states[i].buckets| == |bounds| { InvAlways(bounds, states, steps, i); }
  }

  /** Counters only grow. */
  lemma {:induction false} BucketsGrow(bounds: seq<nat>, states: seq<State>, steps: seq<Step>, i: nat, j: nat, k: nat)
    requires IsRun(bounds, states, steps) && WellFormed(bounds, states) && i <= j < |states| && k < |bounds|
    ensures states[i].buckets[k] <= states[j].buckets[k]
  {
    if i == j {
    } else {
      BucketsGrow(bounds, states, steps, i, j - 1, k);
      assert states[j - 1 + 1] == Apply(bounds, states[j - 1], steps[j - 1]);
    }
  }

  /** The records begun by some moment, followed by ones that have not reached a bucket. */
  ghost predicate Behind(records: seq<Record>, begun: nat, phases: set<Phase>) {
    begun <= |records| && forall i :: begun <= i < |records| ==> records[i].phase in phases
  }

  /** A record needs three steps: two steps on, no new record has reached its bucket. */
  lemma TwoStepsBehind(bounds: seq<nat>, states: seq<State>, steps: seq<Step>, count: nat, m: nat)
    requires IsRun(bounds, states, steps) && count <= m < |states| && m <= count + 2
    ensures Behind(states[m].records, |states[count].records|, {Counted, Summed})
  {
    var begun := |states[count].records|;
    assert Behind(states[count].records, begun, {});
    if m > count {
      assert states[count + 1] == Apply(bounds, states[count], steps[count]);
      assert Behind(states[count + 1].records, begun, {Counted});
      if m > count + 1 { assert states[count + 1 + 1] == Apply(bounds, states[count + 1], steps[count + 1]); }
    }
  }

  lemma {:induction false} OnlyBegunAreDone(bounds: seq<nat>, records: seq<Record>, begun: nat, n: nat)
    requires Behind(records, begun, {Counted, Summed})
    ensures DoneBelow(bounds, records, n) <= begun
  {
    if records == [] {
    } else {
      var rest := records[1..];
      assert forall i :: 0 <= i < |rest| ==> rest[i] == records[i + 1];
      OnlyBegunAreDone(bounds, rest, if begun == 0 then 0 else begun - 1, n);
    }
  }

  /** Buckets read at most two steps after the count add up to no more than it. */
  lemma FreshCountIsEnough(bounds: seq<nat>, states: seq<State>, steps: seq<Step>, at: seq<nat>, count: nat)
    requires IsRun(bounds, states, steps) && WellFormed(bounds, states) && Moments(bounds, states, at, count)
    requires forall k :: 0 <= k < |at| ==> at[k] <= count + 2
    ensures Sum(Loaded(bounds, states, at, count)) <= states[count].count
  {
    var m := if count + 2 < |states| then count + 2 else |states| - 1;
    InvAlways(bounds, states, steps, m);
    InvAlways(bounds, states, steps, count);
    var s := states[m];
    forall k | 0 <= k < |bounds| ensures Loaded(bounds, states, at, count)[k] <= s.buckets[k] {
      BucketsGrow(bounds, states, steps, at[k], m, k);
    }
    SumIsMonotone(Loaded(bounds, states, at, count), s.buckets);
    BucketsAddUp(bounds, s.buckets, s.records, |bounds|);
    assert s.buckets[..|bounds|] == s.buckets;
    TwoStepsBehind(bounds, states, steps, count, m);
    OnlyBegunAreDone(bounds, s.records, |states[count].records|, |bounds|);
  }

  // ----- A stale count

  function Zeros(n: nat): seq<nat> { seq(n, _ => 0) }

  /** One record into bucket `k`, begun right after the moment `count`. */
  function LateRecord(bounds: seq<nat>, k: nat, count: nat, i: nat): State
    requires k < |bounds|
  {
    var none := Scrape([], None, None);
    var zero := Zeros(|bounds|);
    if i <= count then State(zero, 0, 0, [], none)
    else if i == count + 1 then State(zero, 0, 1, [Entry(bounds[k], Counted)], none)
    else if i == count + 2 then State(zero, bounds[k], 1, [Entry(bounds[k], Summed)], none)
    else State(zero[k := 1], bounds[k], 1, [Entry(bounds[k], Done)], none)
  }

  function LateStep(bounds: seq<nat>, k: nat, count: nat, i: nat): Step
    requires k < |bounds|
  {
    if i == count then Begin(bounds[k])
    else if i == count + 1 then AddSum(0)
    else if i == count + 2 then AddBucket(0)
    else StartScrape
  }

  lemma LateRecordRuns(bounds: seq<nat>, k: nat, count: nat, n: nat) returns (states: seq<State>, steps: seq<Step>)
    requires Rising(bounds) && k < |bounds|
    ensures IsRun(bounds, states, steps) && |states| == n + 1
    ensures forall i :: 0 <= i < |states| ==> states[i] == LateRecord(bounds, k, count, i)
  {
    states := seq(n + 1, i requires 0 <= i => LateRecord(bounds, k, count, i));
    steps := seq(n, i requires 0 <= i => LateStep(bounds, k, count, i));
    assert IndexOf(bounds, bounds[k]) == k;
    forall i | 0 <= i < n
      ensures Enabled(bounds, states[i], steps[i]) && states[i + 1] == Apply(bounds, states[i], steps[i])
    {
      LateStepApplies(bounds, k, count, i);
    }
  }

  lemma LateStepApplies(bounds: seq<nat>, k: nat, count: nat, i: nat)
    requires k < |bounds| && IndexOf(bounds, bounds[k]) == k
    ensures Enabled(bounds, LateRecord(bounds, k, count, i), LateStep(bounds, k, count, i))
    ensures Apply(bounds, LateRecord(bounds, k, count, i), LateStep(bounds, k, count, i))
         == LateRecord(bounds, k, count, i + 1)
  {
  }

  lemma {:induction false} OneOfSum(s: seq<nat>, k: nat)
    requires k < |s|
    ensures s[k] <= Sum(s)
  {
    if k == |s| - 1 {
    } else {
      OneOfSum(s[..|s| - 1], k);
    }
  }

  /** A bucket read three steps or more after the count can show what the count does not. */
  lemma StaleCountShows(bounds: seq<nat>, at: seq<nat>, count: nat, k: nat, n: nat)
    returns (states: seq<State>, steps: seq<Step>)
    requires Rising(bounds) && |at| == |bounds| && k < |bounds| && at[k] >= count + 3
    requires count <= n && forall j :: 0 <= j < |at| ==> at[j] <= n
    ensures IsRun(bounds, states, steps) && WellFormed(bounds, states) && Moments(bounds, states, at, count)
    ensures |states| == n + 1 && Sum(Loaded(bounds, states, at, count)) > states[count].count
  {
    states, steps := LateRecordRuns(bounds, k, count, n);
    RunIsWellFormed(bounds, states, steps);
    OneOfSum(Loaded(bounds, states, at, count), k);
  }

  /** The scrape is consistent in every run of this length. */
  ghost predicate Consistent(bounds: seq<nat>, at: seq<nat>, count: nat, n: nat) {
    forall states: seq<State>, steps: seq<Step> ::
      IsRun(bounds, states, steps) && |states| == n + 1 && WellFormed(bounds, states) && Moments(bounds, states, at, count) ==>
        Sum(Loaded(bounds, states, at, count)) <= states[count].count
  }

  /**
   Stale loads keep the cumulative buckets within the `+Inf` count in every run, if and only if no
   bucket is read more than two steps later than the count.
   */
  lemma ConsistentIffCountIsFresh(bounds: seq<nat>, at: seq<nat>, count: nat, n: nat)
    requires Rising(bounds) && |at| == |bounds| && count <= n && forall j :: 0 <= j < |at| ==> at[j] <= n
    ensures Consistent(bounds, at, count, n) <==> forall k :: 0 <= k < |at| ==> at[k] <= count + 2
  {
    if forall k :: 0 <= k < |at| ==> at[k] <= count + 2 {
      forall states: seq<State>, steps: seq<Step> | IsRun(bounds, states, steps) && |states| == n + 1 && WellFormed(bounds, states) && Moments(bounds, states, at, count)
        ensures Sum(Loaded(bounds, states, at, count)) <= states[count].count
      {
        FreshCountIsEnough(bounds, states, steps, at, count);
      }
    } else {
      var k :| 0 <= k < |at| && at[k] > count + 2;
      var states, steps := StaleCountShows(bounds, at, count, k, n);
    }
  }
}
