/**
 What holds over every run of the peer protocol, whatever the interleaving of dials, accepts,
 writers, readers and shutdowns, including shutdowns cancelled at any await and retried.
 */
module PeerRuns {
  import opened Basics
  import opened PeerProtocol

  lemma DialStepKeeps(s: State, d: DialId, step: DialStep)
    requires Inv(s) && DialEnabled(s, d, step)
    ensures Inv(ApplyDial(s, d, step))
  {
    match step
    case Lookup => LookupKeeps(s, d);
    case Guard => GuardKeeps(s, d);
    case TakeAttemptSlot => TakeAttemptSlotKeeps(s, d);
    case TakePermit => TakePermitKeeps(s, d);
    case InsertOutbound(peer) => InsertOutboundKeeps(s, d, peer);
    case AdmitReader => AdmitReaderKeeps(s, d);
    case EndDial => EndDialKeeps(s, d);
  }

  lemma TaskStepKeeps(s: State, t: TaskId, step: TaskStep)
    requires Inv(s) && TaskEnabled(s, t, step)
    ensures Inv(ApplyTask(s, t, step))
  {
    match step
    case AcceptSocket => AcceptSocketKeeps(s, t);
    case Serve(a) => ServeKeeps(s, t, a);
    case InsertInbound(peer) => InsertInboundKeeps(s, t, peer);
    case Cleanup => CleanupKeeps(s, t);
    case EndTask => EndTaskKeeps(s, t);
  }

  lemma StopStepKeeps(s: State, step: StopStep)
    requires Inv(s) && StopEnabled(s, step)
    ensures Inv(ApplyStop(s, step))
  {
    match step
    case CloseRegistry => CloseRegistryKeeps(s);
    case RaiseFlag => RaiseFlagKeeps(s);
    case CloseSlots => CloseSlotsKeeps(s);
    case JoinNext(t) => JoinNextKeeps(s, t);
    case JoinDone => JoinDoneKeeps(s);
    case ClearPeers => ClearPeersKeeps(s);
    case CancelShutdown => CancelShutdownKeeps(s);
  }

  lemma StepKeepsInv(s: State, step: Step)
    requires Inv(s) && Enabled(s, step)
    ensures Inv(Apply(s, step))
  {
    match step
    case StartDial(a) => StartDialKeeps(s, a);
    case OfDial(d, st) => DialStepKeeps(s, d, st);
    case StartListener => StartListenerKeeps(s);
    case OfTask(t, st) => TaskStepKeeps(s, t, st);
    case TakeWriter(a) => TakeWriterKeeps(s, a);
    case WriteFailed(a, g) => WriteFailedKeeps(s, a, g);
    case Deliver(n) => DeliverKeeps(s, n);
    case Lose(n) => LoseKeeps(s, n);
    case OfShutdown(st) => StopStepKeeps(s, st);
  }

  lemma {:induction false} InvAlways(limit: nat, states: seq<State>, steps: seq<Step>, k: nat)
    requires IsRun(limit, states, steps) && k < |states|
    ensures Inv(states[k])
  {
    if k == 0 {
    } else {
      InvAlways(limit, states, steps, k - 1);
      StepKeepsInv(states[k - 1], steps[k - 1]);
      assert states[k - 1 + 1] == Apply(states[k - 1], steps[k - 1]);
    }
  }

  // ----- shutdown is final -----

  lemma StepIsMonotone(s: State, step: Step)
    requires Enabled(s, step)
    ensures s.stop.returned ==> Apply(s, step).stop.returned
    ensures Apply(s, step).permits.limit == s.permits.limit
  {
    match step
    case OfDial(d, st) => assert ApplyDial(s, d, st).stop == s.stop;
    case OfTask(t, st) => assert ApplyTask(s, t, st).stop == s.stop;
    case _ =>
  }

  lemma {:induction false} LimitIsFixed(limit: nat, states: seq<State>, steps: seq<Step>, k: nat)
    requires IsRun(limit, states, steps) && k < |states|
    ensures states[k].permits.limit == limit
  {
    if k == 0 {
    } else {
      LimitIsFixed(limit, states, steps, k - 1);
      StepIsMonotone(states[k - 1], steps[k - 1]);
      assert states[k - 1 + 1] == Apply(states[k - 1], steps[k - 1]);
    }
  }

  lemma {:induction false} ReturnedStays(limit: nat, states: seq<State>, steps: seq<Step>, i: nat, k: nat)
    requires IsRun(limit, states, steps) && i <= k < |states| && states[i].stop.returned
    ensures states[k].stop.returned
  {
    if i == k {
    } else {
      ReturnedStays(limit, states, steps, i, k - 1);
      StepIsMonotone(states[k - 1], steps[k - 1]);
      assert states[k - 1 + 1] == Apply(states[k - 1], steps[k - 1]);
    }
  }

  /**
   Once a shutdown has returned, no later state with the lock free has a peer, and no task is
   left. While the lock is held, the only entry is that of the dial holding it, and the
   admission that releases the lock is refused and takes the entry back out.
   */
  lemma ShutdownIsFinal(limit: nat, states: seq<State>, steps: seq<Step>, i: nat, k: nat)
    requires IsRun(limit, states, steps) && i <= k < |states| && states[i].stop.returned
    ensures states[k].tasks.live == map[]
    ensures states[k].dials.lock.None? ==> states[k].table.peers == map[]
    ensures states[k].dials.lock.Some? ==> LateDialRollsBack(states[k], states[k].dials.lock.value)
  {
    InvAlways(limit, states, steps, k);
    ReturnedStays(limit, states, steps, i, k);
  }

  ghost predicate LateDialRollsBack(s: State, d: DialId) {
    && d in s.dials.calls && s.dials.calls[d].Inserted?
    && s.table.peers.Keys == {s.dials.calls[d].addr}
    && DialEnabled(s, d, AdmitReader)
    && var s' := ApplyDial(s, d, AdmitReader);
       && s'.dials.lock.None? && s'.table.peers == map[]
       && s.dials.calls[d].gen in s'.table.closed
       && s'.permits.free == s.permits.free + 1
  }

  // ----- slots -----

  function InFlight(s: State): set<Holder> {
    (set d | d in s.dials.calls && s.dials.calls[d].Dialing? :: ByDial(d)) +
    (set t | t in s.tasks.live && HoldsPermit(s.tasks.live[t]) :: ByTask(t))
  }

  lemma HoldersAreInFlight(s: State)
    requires Inv(s)
    ensures s.permits.holders == InFlight(s)
  {
    forall h ensures h in InFlight(s) <==> h in s.permits.holders {
      match h
      case ByDial(d) =>
      case ByTask(t) =>
    }
  }

  lemma EveryEntryIsConnected(s: State)
    requires Inv(s)
    ensures ConnectedCount(s.table.peers) == |s.table.peers|
  {
    assert (set a | a in s.table.peers && s.table.peers[a].state == Connected) == s.table.peers.Keys;
  }

  /** Slot conservation: replacement never leaks or doubles a permit, and the limit is never exceeded. */
  lemma SlotsAreConserved(limit: nat, states: seq<State>, steps: seq<Step>, k: nat)
    requires IsRun(limit, states, steps) && k < |states|
    ensures states[k].permits.free + |InFlight(states[k])| + |states[k].table.peers| == limit
    ensures ConnectedCount(states[k].table.peers) == |states[k].table.peers| <= limit
  {
    InvAlways(limit, states, steps, k);
    LimitIsFixed(limit, states, steps, k);
    HoldersAreInFlight(states[k]);
    EveryEntryIsConnected(states[k]);
  }

  lemma HolderHasRoom(s: State, h: Holder, addr: Addr)
    requires Inv(s) && h in s.permits.holders
    ensures SlotAvailable(s.table.peers, s.permits.limit, addr)
  {
    EveryEntryIsConnected(s);
    assert |s.permits.holders| > 0;
  }

  /** The peer-limit check never refuses a handshake that holds a permit: the permit is the limit. */
  lemma LimitCheckNeverRefuses(limit: nat, states: seq<State>, steps: seq<Step>, k: nat, h: Holder, addr: Addr)
    requires IsRun(limit, states, steps) && k < |states| && h in InFlight(states[k])
    ensures SlotAvailable(states[k].table.peers, limit, addr)
  {
    InvAlways(limit, states, steps, k);
    LimitIsFixed(limit, states, steps, k);
    HoldersAreInFlight(states[k]);
    HolderHasRoom(states[k], h, addr);
  }

  /** One outbound attempt at a time, and one guard per endpoint. */
  lemma DialsExcludeEachOther(limit: nat, states: seq<State>, steps: seq<Step>, k: nat, d: DialId, e: DialId)
    requires IsRun(limit, states, steps) && k < |states| && d != e
    requires d in states[k].dials.calls && e in states[k].dials.calls
    ensures !(HasAttemptSlot(states[k].dials.calls[d]) && HasAttemptSlot(states[k].dials.calls[e]))
    ensures HasGuard(states[k].dials.calls[d]) && HasGuard(states[k].dials.calls[e]) ==>
              states[k].dials.calls[d].addr != states[k].dials.calls[e].addr
  {
    InvAlways(limit, states, steps, k);
  }

  // ----- instances and their disconnects -----

  /** The closed flag of an instance is up exactly when it was inserted and is not a current entry. */
  lemma ClosedFlagIsExact(limit: nat, states: seq<State>, steps: seq<Step>, k: nat, g: Gen)
    requires IsRun(limit, states, steps) && k < |states|
    ensures var t := states[k].table;
            g in t.closed <==> g in t.home && !exists a :: a in t.peers && t.peers[a].gen == g
  {
    InvAlways(limit, states, steps, k);
    var t := states[k].table;
    if g in t.home && g !in t.closed {
      assert t.home[g] in t.peers && t.peers[t.home[g]].gen == g;
    }
  }

  /** At most one disconnect per instance, and none at all for an instance that was replaced. */
  lemma OneDisconnectPerInstance(limit: nat, states: seq<State>, steps: seq<Step>, k: nat)
    requires IsRun(limit, states, steps) && k < |states|
    ensures var e := states[k].events;
            && (forall i, j :: 0 <= i < j < |e.delivered| ==> e.delivered[i].gen != e.delivered[j].gen)
            && (forall i :: 0 <= i < |e.delivered| ==> e.delivered[i].gen !in states[k].table.replaced)
  {
    InvAlways(limit, states, steps, k);
  }

  /** The ways an instance can stop being current: its own removal, a replacement, a rollback, a shutdown. */
  ghost predicate Ends(s: State, step: Step, a: Addr, g: Gen) {
    || step == WriteFailed(a, g)
    || (step.OfTask? && step.taskStep.Cleanup? && step.t in s.tasks.live && s.tasks.live[step.t] == Reading(a, g))
    || (step.OfTask? && step.taskStep.InsertInbound? && step.t in s.tasks.live && s.tasks.live[step.t].Incoming? &&
        s.tasks.live[step.t].addr == a)
    || (step.OfDial? && step.dialStep.AdmitReader? && s.tasks.closed && step.d in s.dials.calls &&
        s.dials.calls[step.d] == Inserted(a, g))
    || step == OfShutdown(ClearPeers)
  }

  /** A failure or cleanup for a stale instance never touches the replacement: no other step ends an entry. */
  lemma OnlyItsOwnStepEndsAnInstance(s: State, step: Step, a: Addr)
    requires Inv(s) && Enabled(s, step) && a in s.table.peers
    ensures var g := s.table.peers[a].gen;
            !Ends(s, step, a, g) ==> a in Apply(s, step).table.peers && Apply(s, step).table.peers[a] == s.table.peers[a]
                                     && g !in Apply(s, step).table.closed
  {
    assert s.table.peers[a].gen !in s.table.closed;
    match step
    case OfDial(d, st) => DialEndsOnlyItsOwn(s, d, st, a);
    case OfTask(t, st) => TaskEndsOnlyItsOwn(s, t, st, a);
    case OfShutdown(st) => assert !st.ClearPeers? ==> ApplyStop(s, st).table == s.table;
    case _ =>
  }

  lemma DialEndsOnlyItsOwn(s: State, d: DialId, st: DialStep, a: Addr)
    requires Inv(s) && DialEnabled(s, d, st) && a in s.table.peers
    ensures var g := s.table.peers[a].gen;
            !Ends(s, OfDial(d, st), a, g) ==>
              a in ApplyDial(s, d, st).table.peers && ApplyDial(s, d, st).table.peers[a] == s.table.peers[a] &&
              g !in ApplyDial(s, d, st).table.closed
  {
    assert s.table.peers[a].gen !in s.table.closed;
    if s.dials.calls[d].addr in s.table.peers {
      assert s.table.home[s.table.peers[s.dials.calls[d].addr].gen] == s.dials.calls[d].addr;
      assert s.table.home[s.table.peers[a].gen] == a;
    }
  }

  lemma TaskEndsOnlyItsOwn(s: State, t: TaskId, st: TaskStep, a: Addr)
    requires Inv(s) && TaskEnabled(s, t, st) && a in s.table.peers
    ensures var g := s.table.peers[a].gen;
            !Ends(s, OfTask(t, st), a, g) ==>
              a in ApplyTask(s, t, st).table.peers && ApplyTask(s, t, st).table.peers[a] == s.table.peers[a] &&
              g !in ApplyTask(s, t, st).table.closed
  {
    assert s.table.peers[a].gen !in s.table.closed;
    if !st.InsertInbound? && !st.Cleanup? {
      assert ApplyTask(s, t, st).table == s.table;
    } else if s.tasks.live[t].addr in s.table.peers {
      assert s.table.home[s.table.peers[s.tasks.live[t].addr].gen] == s.tasks.live[t].addr;
      assert s.table.home[s.table.peers[a].gen] == a;
    }
  }

  /** The step from `s` to `s'` removed the instance of `n`, and `n` counts what it left behind. */
  ghost predicate RemovedBy(s: State, s': State, n: Notice) {
    && IsCurrent(s.table, n.addr, n.gen)
    && s.table.peers[n.addr].peer == n.peer
    && s'.table.peers == s.table.peers - {n.addr}
    && n.count == ConnectedCount(s'.table.peers)
  }

  lemma FreshNotice(s: State, step: Step, n: Notice)
    requires Enabled(s, step) && n !in s.events.pending && n !in s.events.delivered
    ensures n in Apply(s, step).events.pending || n in Apply(s, step).events.delivered ==>
              RemovedBy(s, Apply(s, step), n)
  {
    match step
    case OfDial(d, st) => assert ApplyDial(s, d, st).events == s.events;
    case OfTask(t, st) => assert !st.Cleanup? ==> ApplyTask(s, t, st).events == s.events;
    case OfShutdown(st) => assert ApplyStop(s, st).events == s.events;
    case _ =>
  }

  /** Every disconnect event was computed by the step that removed its instance, with the count left behind. */
  lemma {:induction false} DisconnectCountsTheRest(limit: nat, states: seq<State>, steps: seq<Step>, k: nat, n: Notice)
    requires IsRun(limit, states, steps) && k < |states|
    requires n in states[k].events.pending || n in states[k].events.delivered
    ensures exists j :: 0 <= j < k && RemovedBy(states[j], states[j + 1], n)
  {
    if k == 0 {
    } else {
      var s, step := states[k - 1], steps[k - 1];
      assert states[k - 1 + 1] == Apply(s, step);
      if n in s.events.pending || n in s.events.delivered {
        DisconnectCountsTheRest(limit, states, steps, k - 1, n);
      } else {
        FreshNotice(s, step, n);
        assert RemovedBy(states[k - 1], states[k - 1 + 1], n);
      }
    }
  }

  // ----- who is connected -----

  /** The step is a handshake with `p` at `a` that ends in an insertion. */
  ghost predicate Joins(s: State, step: Step, a: Addr, p: NodeId) {
    || (step.OfDial? && step.dialStep == InsertOutbound(p) && step.d in s.dials.calls && s.dials.calls[step.d].addr == a)
    || (step.OfTask? && step.taskStep == InsertInbound(p) && step.t in s.tasks.live &&
        s.tasks.live[step.t].Incoming? && s.tasks.live[step.t].addr == a)
  }

  /** An entry that a step did not leave as it was is the fresh instance of that step's handshake. */
  lemma FreshEntry(s: State, step: Step, a: Addr)
    requires Enabled(s, step) && a in Apply(s, step).table.peers
    ensures var c := Apply(s, step).table.peers[a];
            (a in s.table.peers && s.table.peers[a] == c) || (Joins(s, step, a, c.peer) && c.gen == s.table.next)
  {
    match step
    case OfDial(d, st) => FreshDialEntry(s, d, st, a);
    case OfTask(t, st) => FreshTaskEntry(s, t, st, a);
    case OfShutdown(st) => assert !st.ClearPeers? ==> ApplyStop(s, st).table == s.table;
    case _ =>
  }

  lemma FreshDialEntry(s: State, d: DialId, st: DialStep, a: Addr)
    requires DialEnabled(s, d, st) && a in ApplyDial(s, d, st).table.peers
    ensures var c := ApplyDial(s, d, st).table.peers[a];
            (a in s.table.peers && s.table.peers[a] == c) || (Joins(s, OfDial(d, st), a, c.peer) && c.gen == s.table.next)
  {
  }

  lemma FreshTaskEntry(s: State, t: TaskId, st: TaskStep, a: Addr)
    requires TaskEnabled(s, t, st) && a in ApplyTask(s, t, st).table.peers
    ensures var c := ApplyTask(s, t, st).table.peers[a];
            (a in s.table.peers && s.table.peers[a] == c) || (Joins(s, OfTask(t, st), a, c.peer) && c.gen == s.table.next)
  {
  }

  /** Every entry carries the identity that the handshake of its instance brought. */
  lemma {:induction false} EntryNamesItsPeer(limit: nat, states: seq<State>, steps: seq<Step>, k: nat, a: Addr)
    requires IsRun(limit, states, steps) && k < |states| && a in states[k].table.peers
    ensures var c := states[k].table.peers[a];
            exists j :: 0 <= j < k && Joins(states[j], steps[j], a, c.peer) && c.gen == states[j].table.next
  {
    if k == 0 {
    } else {
      assert states[k - 1 + 1] == Apply(states[k - 1], steps[k - 1]);
      FreshEntry(states[k - 1], steps[k - 1], a);
      if a in states[k - 1].table.peers && states[k - 1].table.peers[a] == states[k].table.peers[a] {
        EntryNamesItsPeer(limit, states, steps, k - 1, a);
      }
    }
  }

  /** So does every disconnect event. */
  lemma NoticeNamesItsPeer(limit: nat, states: seq<State>, steps: seq<Step>, k: nat, n: Notice)
    requires IsRun(limit, states, steps) && k < |states|
    requires n in states[k].events.pending || n in states[k].events.delivered
    ensures exists j :: 0 <= j < k && Joins(states[j], steps[j], n.addr, n.peer) && n.gen == states[j].table.next
  {
    DisconnectCountsTheRest(limit, states, steps, k, n);
    var i :| 0 <= i < k && RemovedBy(states[i], states[i + 1], n);
    EntryNamesItsPeer(limit, states, steps, i, n.addr);
  }

  function NoticeOf(peers: map<Addr, Conn>, a: Addr): Notice
    requires a in peers
  {
    Notice(peers[a].gen, a, peers[a].peer, |peers| - 1)
  }

  lemma OthersLeft(peers: map<Addr, Conn>, a: Addr)
    requires a in peers && forall b :: b in peers ==> peers[b].state == Connected
    ensures ConnectedCount(peers - {a}) == |peers| - 1
  {
    var left := peers - {a};
    assert (set b | b in left && left[b].state == Connected) == left.Keys;
  }

  lemma RemovalIsExact(s: State, a: Addr)
    requires TableOk(s.table) && a in s.table.peers
    ensures var c := s.table.peers[a];
            var s' := RemoveIfCurrent(s, a, c.gen);
            && s'.table.peers == s.table.peers - {a} && s'.permits == s.permits.(free := s.permits.free + 1)
            && s'.events == s.events.(pending := s.events.pending + {NoticeOf(s.table.peers, a)})
  {
    OthersLeft(s.table.peers, a);
  }

  /** The removal of a live instance by its writer or its reader is announced, and nothing else is. */
  lemma RemovalIsAnnounced(s: State, step: Step, a: Addr, g: Gen)
    requires Inv(s) && Enabled(s, step) && IsCurrent(s.table, a, g)
    requires step == WriteFailed(a, g) ||
             (step.OfTask? && step.taskStep.Cleanup? && s.tasks.live[step.t] == Reading(a, g))
    ensures var s' := Apply(s, step);
            s'.events.pending == s.events.pending + {Notice(g, a, s.table.peers[a].peer, |s.table.peers| - 1)}
  {
    RemovalIsExact(s, a);
  }

  // ----- latches -----

  /** What a shutdown has closed stays closed: no dial starts, no task is admitted, no permit is taken. */
  ghost predicate Latched(s: State, s': State) {
    && (s.stop.flag ==> s'.stop.flag && s'.dials.next == s.dials.next)
    && (s.tasks.closed ==> s'.tasks.closed && s'.tasks.next == s.tasks.next)
    && (s.permits.closed ==> s'.permits.closed && |s'.permits.holders| <= |s.permits.holders|)
    && (s.permits.closed && s'.dials.slot.Some? ==> s'.dials.slot == s.dials.slot)
  }

  lemma DialIsLatched(s: State, d: DialId, st: DialStep)
    requires Inv(s) && DialEnabled(s, d, st)
    ensures Latched(s, ApplyDial(s, d, st))
  {
    Fewer(s.permits.holders, ByDial(d));
  }

  lemma TaskIsLatched(s: State, t: TaskId, st: TaskStep)
    requires Inv(s) && TaskEnabled(s, t, st)
    ensures Latched(s, ApplyTask(s, t, st))
  {
    Fewer(s.permits.holders, ByTask(t));
  }

  lemma StopIsLatched(s: State, st: StopStep)
    requires StopEnabled(s, st)
    ensures Latched(s, ApplyStop(s, st))
  {
  }

  lemma Fewer<T>(s: set<T>, x: T)
    ensures |s - {x}| <= |s| && (x in s ==> |s - {x}| + 1 == |s|)
  {
    if x !in s { assert s - {x} == s; }
  }

  lemma StepIsLatched(s: State, step: Step)
    requires Inv(s) && Enabled(s, step)
    ensures Latched(s, Apply(s, step))
  {
    match step
    case OfDial(d, st) => DialIsLatched(s, d, st);
    case OfTask(t, st) => TaskIsLatched(s, t, st);
    case OfShutdown(st) => StopIsLatched(s, st);
    case _ =>
  }

  lemma {:induction false} LatchesHold(limit: nat, states: seq<State>, steps: seq<Step>, i: nat, k: nat)
    requires IsRun(limit, states, steps) && i <= k < |states|
    ensures Latched(states[i], states[k])
  {
    if i == k {
    } else {
      LatchesHold(limit, states, steps, i, k - 1);
      InvAlways(limit, states, steps, k - 1);
      StepIsLatched(states[k - 1], steps[k - 1]);
      assert states[k - 1 + 1] == Apply(states[k - 1], steps[k - 1]);
    }
  }

  // ----- task ownership -----

  /**
   Every admitted and unfinished task is owned by exactly one of the registry and the running
   shutdown. Whenever a shutdown can be cancelled, the registry it hands its tasks back to is
   empty: nothing is overwritten, and no unfinished task is dropped.
   */
  lemma TasksHaveOneOwner(limit: nat, states: seq<State>, steps: seq<Step>, k: nat)
    requires IsRun(limit, states, steps) && k < |states|
    ensures var s := states[k];
            && (forall t :: t in s.tasks.live ==> (t in s.tasks.registry) != (t in Held(s.stop.phase)))
            && (StopEnabled(s, CancelShutdown) ==>
                  s.tasks.registry == {} && s.tasks.live.Keys <= ApplyStop(s, CancelShutdown).tasks.registry)
  {
    InvAlways(limit, states, steps, k);
  }

  // ----- a running shutdown can always be brought to its end -----

  ghost predicate Leads(s: State, steps: seq<Step>, end: State)
    decreases |steps|
  {
    if steps == [] then s == end
    else Enabled(s, steps[0]) && Leads(Apply(s, steps[0]), steps[1..], end)
  }

  lemma {:induction false} LeadsThrough(s: State, first: seq<Step>, mid: State, rest: seq<Step>, end: State)
    requires Leads(s, first, mid) && Leads(mid, rest, end)
    ensures Leads(s, first + rest, end)
    decreases |first|
  {
    if first == [] {
      assert first + rest == rest;
    } else {
      LeadsThrough(Apply(s, first[0]), first[1..], mid, rest, end);
      assert (first + rest)[1..] == first[1..] + rest;
    }
  }

  lemma LeadsByOne(s: State, step: Step)
    requires Enabled(s, step)
    ensures Leads(s, [step], Apply(s, step))
  {
    assert Leads(Apply(s, step), [], Apply(s, step));
  }

  /** One taken task can be ended, if it has not yet, and joined. */
  lemma OneJoin(s: State, t: TaskId) returns (steps: seq<Step>, end: State)
    requires Inv(s) && s.stop.phase.Joining? && t in s.stop.phase.held
    ensures Leads(s, steps, end) && Inv(end) && end.stop.phase == Joining(s.stop.phase.held - {t})
  {
    var first, mid := [], s;
    if t in s.tasks.live {
      first, mid := [OfTask(t, EndTask)], ApplyTask(s, t, EndTask);
      LeadsByOne(s, first[0]);
      EndTaskKeeps(s, t);
    }
    JoinNextKeeps(mid, t);
    end := ApplyStop(mid, JoinNext(t));
    LeadsByOne(mid, OfShutdown(JoinNext(t)));
    LeadsThrough(s, first, mid, [OfShutdown(JoinNext(t))], end);
    steps := first + [OfShutdown(JoinNext(t))];
  }

  lemma {:induction false} AllJoin(s: State) returns (steps: seq<Step>, end: State)
    requires Inv(s) && s.stop.phase.Joining?
    ensures Leads(s, steps, end) && Inv(end) && end.stop.phase == Joining({})
    decreases |s.stop.phase.held|
  {
    if s.stop.phase.held == {} {
      steps, end := [], s;
    } else {
      var t :| t in s.stop.phase.held;
      var first, mid := OneJoin(s, t);
      var rest, done := AllJoin(mid);
      LeadsThrough(s, first, mid, rest, done);
      steps, end := first + rest, done;
    }
  }

  /** With all tasks joined, the lock is released and the map cleared. */
  lemma ClearingEnds(s: State) returns (steps: seq<Step>, end: State)
    requires Inv(s) && s.stop.phase.Clearing?
    ensures Leads(s, steps, end) && end.stop.returned && end.stop.phase.Idle? && end.table.peers == map[]
  {
    steps, end := [], s;
    if end.dials.lock.Some? {
      var unlock := OfDial(end.dials.lock.value, AdmitReader);
      LeadsByOne(end, unlock);
      steps, end := [unlock], Apply(end, unlock);
    }
    LeadsByOne(end, OfShutdown(ClearPeers));
    LeadsThrough(s, steps, end, [OfShutdown(ClearPeers)], ApplyStop(end, ClearPeers));
    steps, end := steps + [OfShutdown(ClearPeers)], ApplyStop(end, ClearPeers);
  }

  lemma JoiningEnds(s: State) returns (steps: seq<Step>, end: State)
    requires Inv(s) && s.stop.phase.Joining?
    ensures Leads(s, steps, end) && end.stop.returned && end.stop.phase.Idle? && end.table.peers == map[]
  {
    var joins, joined := AllJoin(s);
    var cleared := ApplyStop(joined, JoinDone);
    LeadsByOne(joined, OfShutdown(JoinDone));
    LeadsThrough(s, joins, joined, [OfShutdown(JoinDone)], cleared);
    JoinDoneKeeps(joined);
    var rest, last := ClearingEnds(cleared);
    LeadsThrough(s, joins + [OfShutdown(JoinDone)], cleared, rest, last);
    steps, end := joins + [OfShutdown(JoinDone)] + rest, last;
  }

  /** The two regions before the tasks are joined. */
  lemma ReachesJoining(s: State) returns (steps: seq<Step>, end: State)
    requires Inv(s) && (s.stop.phase.Closed? || s.stop.phase.Signalled?)
    ensures Leads(s, steps, end) && Inv(end) && end.stop.phase.Joining?
  {
    steps, end := [], s;
    if s.stop.phase.Closed? {
      LeadsByOne(s, OfShutdown(RaiseFlag));
      RaiseFlagKeeps(s);
      steps, end := [OfShutdown(RaiseFlag)], ApplyStop(s, RaiseFlag);
    }
    LeadsByOne(end, OfShutdown(CloseSlots));
    CloseSlotsKeeps(end);
    LeadsThrough(s, steps, end, [OfShutdown(CloseSlots)], ApplyStop(end, CloseSlots));
    steps, end := steps + [OfShutdown(CloseSlots)], ApplyStop(end, CloseSlots);
  }

  /** No reachable state wedges a running shutdown: from every phase some continuation lets it return. */
  lemma ShutdownCanReturn(limit: nat, states: seq<State>, steps: seq<Step>, k: nat)
    returns (more: seq<Step>, end: State)
    requires IsRun(limit, states, steps) && k < |states| && !states[k].stop.phase.Idle?
    ensures Leads(states[k], more, end) && end.stop.returned && end.stop.phase.Idle? && end.table.peers == map[]
  {
    InvAlways(limit, states, steps, k);
    var s := states[k];
    if s.stop.phase.Clearing? {
      more, end := ClearingEnds(s);
    } else if s.stop.phase.Joining? {
      more, end := JoiningEnds(s);
    } else {
      var first, mid := ReachesJoining(s);
      var rest, last := JoiningEnds(mid);
      LeadsThrough(s, first, mid, rest, last);
      more, end := first + rest, last;
    }
  }
}
