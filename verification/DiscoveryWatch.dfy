/**
 A watch on a discovery provider: an atomic snapshot followed by a bounded ring of events. The
 ring forgets its oldest events when a receiver lags; the watch must never hide such a hole.
 */
module DiscoveryWatch {
  import opened Basics

  datatype Snapshot = Snapshot(revision: nat, peers: seq<string>)

  datatype Change =
    | Added(endpoint: string)
    | Removed(endpoint: string)
    | Replaced(peers: seq<string>)
    | Observed(snapshot: Snapshot)

  datatype Event = Event(revision: nat, change: Change)

  datatype Outcome =
    | Delivered(event: Event)
    | WatchRevision(previous: nat, received: nat)
    | WatchOverflow(missed: nat)
    | WatchInvalidated
    | WatchClosed

  /** Everything ever sent; only the last `capacity` events are still in the ring. */
  datatype Ring = Ring(capacity: nat, log: seq<Event>, closed: bool)

  function Oldest(ring: Ring): nat {
    if |ring.log| > ring.capacity then |ring.log| - ring.capacity else 0
  }

  datatype Receiver = Receiver(next: nat, lastRevision: nat, invalidated: bool)

  /** A receive returns at once: there is something to read, or there never will be. */
  predicate Ready(w: Receiver, ring: Ring) {
    w.invalidated || w.next < |ring.log| || ring.closed
  }

  /** An event that contradicts itself or does not follow the last one. */
  predicate Misfit(e: Event, lastRevision: nat) {
    || (e.change.Observed? && e.change.snapshot.revision != e.revision)
    || lastRevision >= MAX_U64
    || lastRevision + 1 != e.revision
  }

  /** The next event in line, and a complete view of its own revision if it carries one. */
  predicate Follows(e: Event, lastRevision: nat) {
    && lastRevision < 0xFFFF_FFFF_FFFF_FFFF && e.revision == lastRevision + 1
    && (e.change.Observed? ==> e.change.snapshot.revision == e.revision)
  }

  function ReceivedRevision(e: Event): nat {
    if e.change.Observed? && e.change.snapshot.revision != e.revision then e.change.snapshot.revision else e.revision
  }

  function Receive(w: Receiver, ring: Ring): (Receiver, Outcome)
    requires Ready(w, ring)
  {
    if w.invalidated then (w, WatchInvalidated)
    else if w.next < Oldest(ring) then
      (w.(next := Oldest(ring), invalidated := true), WatchOverflow(Oldest(ring) - w.next))
    else if w.next < |ring.log| then
      var e := ring.log[w.next];
      if Misfit(e, w.lastRevision) then
        (w.(next := w.next + 1, invalidated := true), WatchRevision(w.lastRevision, ReceivedRevision(e)))
      else (w.(next := w.next + 1, lastRevision := e.revision), Delivered(e))
    else (w, WatchClosed)
  }

  /** The watch itself, updated in place. */
  class Watch {
    const snapshot: Snapshot
    var next: nat
    var lastRevision: nat
    var invalidated: bool

    function State(): Receiver
      reads this
    {
      Receiver(next, lastRevision, invalidated)
    }

    constructor (snapshot: Snapshot, position: nat)
      ensures this.snapshot == snapshot && State() == Receiver(position, snapshot.revision, false)
    {
      this.snapshot, next, lastRevision, invalidated := snapshot, position, snapshot.revision, false;
    }

    /** Taking from the ring: a lagging receiver is moved to the oldest event still there. */
    method Take(ring: Ring) returns (missed: nat, event: Option<Event>)
      requires next < |ring.log| || ring.closed
      modifies this`next
      ensures missed == if old(next) < Oldest(ring) then Oldest(ring) - old(next) else 0
      ensures event == if missed == 0 && old(next) < |ring.log| then Some(ring.log[old(next)]) else None
      ensures next == if missed > 0 then Oldest(ring) else if event.Some? then old(next) + 1 else old(next)
    {
      if next < Oldest(ring) {
        missed, event := Oldest(ring) - next, None;
        next := Oldest(ring);
      } else if next < |ring.log| {
        missed, event := 0, Some(ring.log[next]);
        next := next + 1;
      } else {
        missed, event := 0, None;
      }
    }

    method Recv(ring: Ring) returns (r: Outcome)
      requires Ready(State(), ring)
      modifies this
      ensures (State(), r) == Receive(old(State()), ring)
      ensures r == WatchInvalidated <==> old(invalidated)
      ensures r.WatchOverflow? <==> !old(invalidated) && old(next) + ring.capacity < |ring.log|
      ensures r.WatchOverflow? ==> r.missed == |ring.log| - ring.capacity - old(next) && next == |ring.log| - ring.capacity
      ensures r.WatchClosed? <==> !old(invalidated) && old(next) >= |ring.log| && old(next) + ring.capacity >= |ring.log|
      ensures r.Delivered? ==>
                && r.event == ring.log[old(next)] && next == old(next) + 1 && lastRevision == r.event.revision
                && Follows(r.event, old(lastRevision))
      ensures r.WatchRevision? ==>
                var e := ring.log[old(next)];
                && !Follows(e, old(lastRevision)) && r.previous == old(lastRevision) == lastRevision && next == old(next) + 1
                && r.received == if e.change.Observed? && e.change.snapshot.revision != e.revision
                                 then e.change.snapshot.revision else e.revision
      ensures invalidated <==> old(invalidated) || r.WatchOverflow? || r.WatchRevision?
    {
      if invalidated { return WatchInvalidated; }
      var missed, event := Take(ring);
      if missed > 0 {
        invalidated := true;
        return WatchOverflow(missed);
      }
      if event.None? { return WatchClosed; }
      var e := event.value;
      if e.change.Observed? && e.change.snapshot.revision != e.revision {
        invalidated := true;
        return WatchRevision(lastRevision, e.change.snapshot.revision);
      }
      if lastRevision >= MAX_U64 || lastRevision + 1 != e.revision {
        invalidated := true;
        return WatchRevision(lastRevision, e.revision);
      }
      lastRevision := e.revision;
      r := Delivered(e);
    }
  }

  // ----- Runs

  /** The provider sends or closes; the watch receives. `accepted` collects what was delivered. */
  datatype Step = Send(event: Event) | Close | Recv

  datatype State = State(ring: Ring, watch: Receiver, accepted: seq<Event>)

  predicate Enabled(s: State, step: Step) {
    match step
    case Send(_) => !s.ring.closed
    case Close => !s.ring.closed
    case Recv => Ready(s.watch, s.ring)
  }

  function Apply(s: State, step: Step): State
    requires Enabled(s, step)
  {
    match step
    case Send(e) => s.(ring := s.ring.(log := s.ring.log + [e]))
    case Close => s.(ring := s.ring.(closed := true))
    case Recv =>
      var (watch, outcome) := Receive(s.watch, s.ring);
      s.(watch := watch, accepted := if outcome.Delivered? then s.accepted + [outcome.event] else s.accepted)
  }

  /** Subscribing takes the snapshot at the end of the log. */
  predicate Initial(s: State, snapshot: Snapshot) {
    s.watch == Receiver(|s.ring.log|, snapshot.revision, false) && s.accepted == []
  }

  ghost predicate IsRun(states: seq<State>, steps: seq<Step>, snapshot: Snapshot) {
    && |states| == |steps| + 1 && Initial(states[0], snapshot)
    && forall i :: 0 <= i < |steps| ==> Enabled(states[i], steps[i]) && states[i + 1] == Apply(states[i], steps[i])
  }

  /** What was accepted is an unbroken piece of the log, numbered without a gap from the snapshot on. */
  ghost predicate Inv(s: State, start: nat, snapshot: Snapshot) {
    && start + |s.accepted| <= |s.ring.log|
    && s.accepted == s.ring.log[start..start + |s.accepted|]
    && s.watch.lastRevision == snapshot.revision + |s.accepted|
    && (forall i :: 0 <= i < |s.accepted| ==> s.accepted[i].revision == snapshot.revision + 1 + i)
    && (!s.watch.invalidated ==> s.watch.next == start + |s.accepted|)
  }

  lemma StepKeepsInv(s: State, step: Step, start: nat, snapshot: Snapshot)
    requires Inv(s, start, snapshot) && Enabled(s, step)
    ensures Inv(Apply(s, step), start, snapshot)
  {
    var n := start + |s.accepted|;
    match step
    case Send(e) => assert (s.ring.log + [e])[start..n] == s.ring.log[start..n];
    case Close =>
    case Recv =>
      if n < |s.ring.log| { assert s.ring.log[start..n + 1] == s.ring.log[start..n] + [s.ring.log[n]]; }
  }

  lemma {:induction false} InvAlways(states: seq<State>, steps: seq<Step>, snapshot: Snapshot, i: nat)
    requires IsRun(states, steps, snapshot) && i < |states|
    ensures Inv(states[i], |states[0].ring.log|, snapshot)
  {
    if i == 0 {
    } else {
      InvAlways(states, steps, snapshot, i - 1);
      StepKeepsInv(states[i - 1], steps[i - 1], |states[0].ring.log|, snapshot);
    }
  }

  /** A complete view that was accepted is that of its event's revision. */
  lemma {:induction false} AcceptedViewsFit(states: seq<State>, steps: seq<Step>, snapshot: Snapshot, i: nat, k: nat)
    requires IsRun(states, steps, snapshot) && i < |states| && k < |states[i].accepted|
    ensures var e := states[i].accepted[k];
            e.change.Observed? ==> e.change.snapshot.revision == e.revision == snapshot.revision + 1 + k
  {
    InvAlways(states, steps, snapshot, i);
    if i == 0 {
    } else {
      assert states[i - 1 + 1] == Apply(states[i - 1], steps[i - 1]);
      if k < |states[i - 1].accepted| { AcceptedViewsFit(states, steps, snapshot, i - 1, k); }
    }
  }

  /** An invalidated watch delivers nothing ever again. */
  lemma {:induction false} InvalidatedForGood(states: seq<State>, steps: seq<Step>, snapshot: Snapshot, i: nat, j: nat)
    requires IsRun(states, steps, snapshot) && i <= j < |states| && states[i].watch.invalidated
    ensures states[j].watch.invalidated && states[j].accepted == states[i].accepted
  {
    if i == j {
    } else {
      InvalidatedForGood(states, steps, snapshot, i, j - 1);
      assert states[j - 1 + 1] == Apply(states[j - 1], steps[j - 1]);
    }
  }

  /** After a reported overflow or revision gap every receive fails and nothing more is accepted. */
  lemma NothingAfterError(states: seq<State>, steps: seq<Step>, snapshot: Snapshot, i: nat, j: nat)
    requires IsRun(states, steps, snapshot) && i < j < |states| && steps[i] == Recv
    requires var outcome := Receive(states[i].watch, states[i].ring).1; outcome.WatchOverflow? || outcome.WatchRevision?
    ensures states[j].accepted == states[i].accepted
    ensures Ready(states[j].watch, states[j].ring) && Receive(states[j].watch, states[j].ring).1 == WatchInvalidated
  {
    assert states[i + 1] == Apply(states[i], steps[i]);
    InvalidatedForGood(states, steps, snapshot, i + 1, j);
  }

  // ----- Bursts

  /** The provider sends these events one after the other. */
  function Sent(s: State, events: seq<Event>): (r: State)
    requires !s.ring.closed
    ensures !r.ring.closed
  {
    if events == [] then s else Apply(Sent(s, events[..|events| - 1]), Send(events[|events| - 1]))
  }

  lemma {:induction false} SentIsLogged(s: State, events: seq<Event>)
    requires !s.ring.closed
    ensures Sent(s, events) == s.(ring := s.ring.(log := s.ring.log + events))
  {
    if events == [] {
      assert s.ring.log + events == s.ring.log;
    } else {
      SentIsLogged(s, events[..|events| - 1]);
      assert events == events[..|events| - 1] + [events[|events| - 1]];
    }
  }

  /** So many receives lead from the one state to the other. */
  ghost predicate Receives(s: State, n: nat, end: State)
    decreases n
  {
    if n == 0 then s == end else Enabled(s, Recv) && Receives(Apply(s, Recv), n - 1, end)
  }

  /** Everything in the ring that the watch has not seen goes on from its revision. */
  ghost predicate InStep(s: State) {
    forall k :: s.watch.next <= k < |s.ring.log| ==> Follows(s.ring.log[k], s.watch.lastRevision + (k - s.watch.next))
  }

  lemma ReceivesMore(s: State, t: State, n: nat, end: State)
    requires Enabled(s, Recv) && t == Apply(s, Recv) && Receives(t, n, end)
    ensures Receives(s, n + 1, end)
  {
  }

  lemma OneReceived(s: State) returns (t: State)
    requires !s.watch.invalidated && s.watch.next < |s.ring.log| <= s.watch.next + s.ring.capacity && InStep(s)
    ensures Enabled(s, Recv) && t == Apply(s, Recv)
    ensures var e := s.ring.log[s.watch.next];
            && t.ring == s.ring && t.watch == Receiver(s.watch.next + 1, e.revision, false)
            && t.accepted == s.accepted + [e] && InStep(t)
  {
    assert Follows(s.ring.log[s.watch.next], s.watch.lastRevision);
    t := Apply(s, Recv);
  }

  lemma {:induction false} CatchesUp(s: State) returns (end: State)
    requires !s.watch.invalidated && s.watch.next <= |s.ring.log| <= s.watch.next + s.ring.capacity && InStep(s)
    ensures Receives(s, |s.ring.log| - s.watch.next, end)
    ensures end.accepted == s.accepted + s.ring.log[s.watch.next..] && !end.watch.invalidated
    decreases |s.ring.log| - s.watch.next
  {
    if s.watch.next == |s.ring.log| {
      end := s;
    } else {
      var t := OneReceived(s);
      end := CatchesUp(t);
      ReceivesMore(s, t, |t.ring.log| - t.watch.next, end);
      assert s.ring.log[s.watch.next..] == [s.ring.log[s.watch.next]] + s.ring.log[s.watch.next + 1..];
    }
  }

  /**
   A burst of events to a watch that has seen all before: if the ring can hold it, the watch
   accepts every one of them; if not, the next receive reports how many were lost.
   */
  lemma BurstIsReceivedOrReported(s: State, events: seq<Event>) returns (end: State)
    requires !s.ring.closed && !s.watch.invalidated && s.watch.next == |s.ring.log|
    requires forall k :: 0 <= k < |events| ==> Follows(events[k], s.watch.lastRevision + k)
    ensures |events| <= s.ring.capacity ==>
              Receives(Sent(s, events), |events|, end) && end.accepted == s.accepted + events && !end.watch.invalidated
    ensures |events| > s.ring.capacity ==>
              var t := Sent(s, events);
              Ready(t.watch, t.ring) && Receive(t.watch, t.ring).1 == WatchOverflow(|events| - s.ring.capacity)
  {
    var t := Sent(s, events);
    SentIsLogged(s, events);
    end := t;
    if |events| <= s.ring.capacity {
      assert forall k :: |s.ring.log| <= k < |t.ring.log| ==> t.ring.log[k] == events[k - |s.ring.log|];
      end := CatchesUp(t);
      assert t.ring.log[|s.ring.log|..] == events;
    }
  }

  /** A watch that has seen all learns that its provider is gone. */
  lemma CloseIsReported(s: State)
    requires !s.ring.closed && !s.watch.invalidated && s.watch.next == |s.ring.log|
    ensures var t := Apply(s, Close); Ready(t.watch, t.ring) && Receive(t.watch, t.ring).1 == WatchClosed
  {
  }

  // ----- Views

  /** Folding changes over a view, for any reading of what a change does to a view. */
  function Fold<V>(apply: (V, Change) -> V, view: V, events: seq<Event>): V {
    if events == [] then view
    else apply(Fold(apply, view, events[..|events| - 1]), events[|events| - 1].change)
  }

  /**
   A provider that keeps its contract: from the snapshot on it numbers its events one by one,
   each event leads from its view at the previous revision to its view at the new one, and a
   complete view carries the revision of its event.
   */
  ghost predicate Abides<V>(log: seq<Event>, start: nat, snapshot: Snapshot, view: nat -> V, apply: (V, Change) -> V) {
    forall k :: start <= k < |log| ==>
      var revision := snapshot.revision + 1 + (k - start);
      && log[k].revision == revision && revision <= MAX_U64
      && view(revision) == apply(view(revision - 1), log[k].change)
      && (log[k].change.Observed? ==> log[k].change.snapshot.revision == revision)
  }

  lemma {:induction false} FoldIsView<V>(log: seq<Event>, start: nat, snapshot: Snapshot, view: nat -> V,
                                         apply: (V, Change) -> V, n: nat)
    requires Abides(log, start, snapshot, view, apply) && start + n <= |log|
    ensures Fold(apply, view(snapshot.revision), log[start..start + n]) == view(snapshot.revision + n)
  {
    if n > 0 {
      FoldIsView(log, start, snapshot, view, apply, n - 1);
      var events := log[start..start + n];
      assert events[..n - 1] == log[start..start + (n - 1)];
      assert events[n - 1] == log[start + n - 1];
    } else {
      assert log[start..start + n] == [];
    }
  }

  /**
   Along every run, folding what was accepted over the snapshot gives the provider's own view at
   `lastRevision`. Only lag can invalidate a watch on such a provider.
   */
  lemma AcceptedIsProviderView<V>(states: seq<State>, steps: seq<Step>, snapshot: Snapshot, view: nat -> V,
                                  apply: (V, Change) -> V, i: nat)
    requires IsRun(states, steps, snapshot) && i < |states|
    requires Abides(states[i].ring.log, |states[0].ring.log|, snapshot, view, apply)
    ensures Fold(apply, view(snapshot.revision), states[i].accepted) == view(states[i].watch.lastRevision)
    ensures Ready(states[i].watch, states[i].ring) ==>
              var outcome := Receive(states[i].watch, states[i].ring).1;
              && !outcome.WatchRevision?
              && (outcome.WatchOverflow? ==> |states[i].ring.log| - states[i].watch.next > states[i].ring.capacity)
  {
    InvAlways(states, steps, snapshot, i);
    FoldIsView(states[i].ring.log, |states[0].ring.log|, snapshot, view, apply, |states[i].accepted|);
  }
}
