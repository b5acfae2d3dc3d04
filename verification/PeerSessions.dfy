/**
 What connections go through when nothing comes between: a dial and an accepted socket end in the
 map, a failed writer and a finished reader are reported, a lost notice stays lost, and a
 cancelled shutdown can be taken up again.
 */
module PeerSessions {
  import opened Basics
  import opened PeerProtocol
  import opened PeerRuns

  lemma OneMore(s: State, steps: seq<Step>, mid: State, step: Step)
    requires Leads(s, steps, mid) && Enabled(mid, step)
    ensures Leads(s, steps + [step], Apply(mid, step))
  {
    LeadsByOne(mid, step);
    LeadsThrough(s, steps, mid, [step], Apply(mid, step));
  }

  // ----- A dial

  /** Nothing keeps a dial to this address from going ahead. */
  predicate Unhindered(s: State, a: Addr) {
    && !s.stop.flag && !s.permits.closed && !s.tasks.closed && s.permits.free > 0
    && s.dials.lock.None? && s.dials.slot.None? && a !in s.dials.attempts && a !in s.table.peers
  }

  lemma DialBegins(s: State, a: Addr) returns (end: State)
    requires DialsOk(s.dials) && Unhindered(s, a)
    ensures var d := s.dials.next;
            && Leads(s, [StartDial(a), OfDial(d, Lookup), OfDial(d, Guard)], end)
            && end == s.(dials := s.dials.(calls := s.dials.calls[d := Guarded(a)],
                                           attempts := s.dials.attempts[a := d], next := d + 1))
  {
    var d := s.dials.next;
    LeadsByOne(s, StartDial(a));
    var s1 := Apply(s, StartDial(a));
    OneMore(s, [StartDial(a)], s1, OfDial(d, Lookup));
    var s2 := Apply(s1, OfDial(d, Lookup));
    OneMore(s, [StartDial(a), OfDial(d, Lookup)], s2, OfDial(d, Guard));
    end := Apply(s2, OfDial(d, Guard));
    assert s.dials.calls[d := Started(a)][d := Checked(a)][d := Guarded(a)] == s.dials.calls[d := Guarded(a)];
    assert [StartDial(a), OfDial(d, Lookup)] == [StartDial(a)] + [OfDial(d, Lookup)];
    assert [StartDial(a), OfDial(d, Lookup), OfDial(d, Guard)] == [StartDial(a), OfDial(d, Lookup)] + [OfDial(d, Guard)];
  }

  lemma DialReserves(s: State, a: Addr, d: DialId) returns (end: State)
    requires d in s.dials.calls && s.dials.calls[d] == Guarded(a) && s.dials.slot.None?
    requires !s.permits.closed && s.permits.free > 0
    ensures Leads(s, [OfDial(d, TakeAttemptSlot), OfDial(d, TakePermit)], end)
    ensures end == s.(dials := s.dials.(calls := s.dials.calls[d := Dialing(a)], slot := Some(d)),
                      permits := s.permits.(free := s.permits.free - 1, holders := s.permits.holders + {ByDial(d)}))
  {
    LeadsByOne(s, OfDial(d, TakeAttemptSlot));
    var s1 := Apply(s, OfDial(d, TakeAttemptSlot));
    OneMore(s, [OfDial(d, TakeAttemptSlot)], s1, OfDial(d, TakePermit));
    end := Apply(s1, OfDial(d, TakePermit));
    assert s.dials.calls[d := Attempting(a)][d := Dialing(a)] == s.dials.calls[d := Dialing(a)];
    assert [OfDial(d, TakeAttemptSlot), OfDial(d, TakePermit)] == [OfDial(d, TakeAttemptSlot)] + [OfDial(d, TakePermit)];
  }

  lemma DialEnters(s: State, a: Addr, d: DialId, peer: NodeId) returns (end: State)
    requires d in s.dials.calls && s.dials.calls[d] == Dialing(a) && s.dials.lock.None?
    requires a !in s.table.peers && ConnectedCount(s.table.peers) < s.permits.limit
    ensures Leads(s, [OfDial(d, InsertOutbound(peer))], end)
    ensures end.table.peers == s.table.peers[a := Conn(s.table.next, peer, Connected)]
    ensures end.permits == s.permits.(holders := s.permits.holders - {ByDial(d)})
    ensures end.dials == s.dials.(calls := s.dials.calls[d := Inserted(a, s.table.next)], lock := Some(d))
    ensures end.tasks == s.tasks && end.events == s.events && end.stop == s.stop
  {
    LeadsByOne(s, OfDial(d, InsertOutbound(peer)));
    end := Apply(s, OfDial(d, InsertOutbound(peer)));
  }

  lemma DialSettles(s: State, a: Addr, d: DialId, gen: Gen) returns (end: State)
    requires d in s.dials.calls && s.dials.calls[d] == Inserted(a, gen) && s.dials.lock == Some(d) && !s.tasks.closed
    ensures Leads(s, [OfDial(d, AdmitReader), OfDial(d, EndDial)], end)
    ensures end.table == s.table && end.permits == s.permits && end.events == s.events && end.stop == s.stop
    ensures end.dials == s.dials.(calls := s.dials.calls - {d}, attempts := s.dials.attempts - {a}, slot := None, lock := None)
    ensures end.tasks.live == s.tasks.live[s.tasks.next := Reading(a, gen)] && s.tasks.next in end.tasks.registry
  {
    LeadsByOne(s, OfDial(d, AdmitReader));
    var s1 := Apply(s, OfDial(d, AdmitReader));
    OneMore(s, [OfDial(d, AdmitReader)], s1, OfDial(d, EndDial));
    end := Apply(s1, OfDial(d, EndDial));
    assert s.dials.calls[d := Announcing(a)] - {d} == s.dials.calls - {d};
    assert [OfDial(d, AdmitReader), OfDial(d, EndDial)] == [OfDial(d, AdmitReader)] + [OfDial(d, EndDial)];
  }

  /** Up to the handshake. */
  lemma DialPrepares(s: State, a: Addr) returns (steps: seq<Step>, end: State)
    requires DialsOk(s.dials) && Unhindered(s, a)
    ensures Leads(s, steps, end)
    ensures var d := s.dials.next;
            end == s.(dials := s.dials.(calls := s.dials.calls[d := Dialing(a)], attempts := s.dials.attempts[a := d],
                                        slot := Some(d), next := d + 1),
                      permits := s.permits.(free := s.permits.free - 1, holders := s.permits.holders + {ByDial(d)}))
  {
    var d := s.dials.next;
    var mid := DialBegins(s, a);
    end := DialReserves(mid, a, d);
    var first := [StartDial(a), OfDial(d, Lookup), OfDial(d, Guard)];
    var last := [OfDial(d, TakeAttemptSlot), OfDial(d, TakePermit)];
    LeadsThrough(s, first, mid, last, end);
    steps := first + last;
    assert s.dials.calls[d := Guarded(a)][d := Dialing(a)] == s.dials.calls[d := Dialing(a)];
  }

  /** From the handshake on. */
  lemma DialFinishes(s: State, a: Addr, d: DialId, peer: NodeId) returns (steps: seq<Step>, end: State)
    requires d in s.dials.calls && s.dials.calls[d] == Dialing(a) && s.dials.lock.None? && !s.tasks.closed
    requires a !in s.table.peers && ConnectedCount(s.table.peers) < s.permits.limit
    ensures Leads(s, steps, end)
    ensures end.table.peers == s.table.peers[a := Conn(s.table.next, peer, Connected)]
    ensures end.tasks.live == s.tasks.live[s.tasks.next := Reading(a, s.table.next)] && s.tasks.next in end.tasks.registry
    ensures end.permits == s.permits.(holders := s.permits.holders - {ByDial(d)})
    ensures end.dials == s.dials.(calls := s.dials.calls - {d}, attempts := s.dials.attempts - {a}, slot := None)
    ensures end.events == s.events && end.stop == s.stop
  {
    var mid := DialEnters(s, a, d, peer);
    end := DialSettles(mid, a, d, s.table.next);
    var first, last := [OfDial(d, InsertOutbound(peer))], [OfDial(d, AdmitReader), OfDial(d, EndDial)];
    LeadsThrough(s, first, mid, last, end);
    steps := first + last;
    assert s.dials.calls[d := Inserted(a, s.table.next)] - {d} == s.dials.calls - {d};
  }

  /**
   A dial that nothing hinders connects: the map gains the peer under the address, its reader runs
   and is owned by the registry, one permit is gone, and the guard, the attempt slot and the lock
   are free again.
   */
  lemma DialConnects(s: State, a: Addr, peer: NodeId) returns (steps: seq<Step>, end: State)
    requires Inv(s) && Unhindered(s, a)
    ensures Leads(s, steps, end)
    ensures end.table.peers == s.table.peers[a := Conn(s.table.next, peer, Connected)]
    ensures end.tasks.live == s.tasks.live[s.tasks.next := Reading(a, s.table.next)] && s.tasks.next in end.tasks.registry
    ensures end.permits == s.permits.(free := s.permits.free - 1)
    ensures end.dials == s.dials.(next := s.dials.next + 1) && end.events == s.events && end.stop == s.stop
  {
    RoomForAll(s);
    DialIsNew(s, s.dials.next);
    AddedAndGone(s.dials.calls, s.dials.next, Dialing(a));
    AddedAndGone(s.dials.attempts, a, s.dials.next);
    var first, mid := DialPrepares(s, a);
    var last;
    last, end := DialFinishes(mid, a, s.dials.next, peer);
    LeadsThrough(s, first, mid, last, end);
    steps := first + last;
    assert s.permits.holders + {ByDial(s.dials.next)} - {ByDial(s.dials.next)} == s.permits.holders;
  }

  lemma RoomForAll(s: State)
    requires Inv(s) && s.permits.free > 0
    ensures ConnectedCount(s.table.peers) < s.permits.limit
  {
    EveryEntryIsConnected(s);
  }

  lemma DialIsNew(s: State, d: DialId)
    requires Inv(s) && d == s.dials.next
    ensures d !in s.dials.calls && ByDial(d) !in s.permits.holders
  {
  }

  lemma AddedAndGone<K, V>(m: map<K, V>, k: K, v: V)
    requires k !in m
    ensures m[k := v] - {k} == m
  {
  }

  /** A dial is never stuck: it can end at once, or after the region it is in, and leaves nothing behind. */
  lemma DialCanEnd(s: State, d: DialId) returns (steps: seq<Step>, end: State)
    requires Inv(s) && d in s.dials.calls
    ensures Leads(s, steps, end) && d !in end.dials.calls && LeftNothing(end, d)
  {
    var first, mid := [], s;
    if s.dials.calls[d].Inserted? {
      first, mid := [OfDial(d, AdmitReader)], Apply(s, OfDial(d, AdmitReader));
      LeadsByOne(s, first[0]);
      AdmitReaderKeeps(s, d);
    }
    steps, end := first, mid;
    if d in mid.dials.calls {
      OneMore(s, first, mid, OfDial(d, EndDial));
      EndDialKeeps(mid, d);
      steps, end := first + [OfDial(d, EndDial)], Apply(mid, OfDial(d, EndDial));
    }
    GoneOwnsNothing(end, d);
  }

  predicate LeftNothing(s: State, d: DialId) {
    && (forall a :: a in s.dials.attempts ==> s.dials.attempts[a] != d)
    && s.dials.slot != Some(d) && s.dials.lock != Some(d) && ByDial(d) !in s.permits.holders
  }

  lemma GoneOwnsNothing(s: State, d: DialId)
    requires Inv(s) && d !in s.dials.calls
    ensures LeftNothing(s, d)
  {
  }

  // ----- An accepted socket

  lemma SocketIsServed(s: State, t: TaskId, a: Addr) returns (end: State)
    requires t in s.tasks.live && s.tasks.live[t] == Listening && s.tasks.next !in s.tasks.live
    requires !s.permits.closed && !s.tasks.closed && s.permits.free > 0 && ByTask(t) !in s.permits.holders
    ensures Leads(s, [OfTask(t, AcceptSocket), OfTask(t, Serve(a))], end)
    ensures end.tasks.live == s.tasks.live[s.tasks.next := Incoming(a)] && s.tasks.next in end.tasks.registry
    ensures end.permits == s.permits.(free := s.permits.free - 1, holders := s.permits.holders + {ByTask(s.tasks.next)})
    ensures end.table == s.table && end.dials == s.dials && end.events == s.events && end.stop == s.stop
  {
    LeadsByOne(s, OfTask(t, AcceptSocket));
    var s1 := Apply(s, OfTask(t, AcceptSocket));
    OneMore(s, [OfTask(t, AcceptSocket)], s1, OfTask(t, Serve(a)));
    end := Apply(s1, OfTask(t, Serve(a)));
    assert s.tasks.live[t := Accepted][t := Listening] == s.tasks.live;
    assert [OfTask(t, AcceptSocket), OfTask(t, Serve(a))] == [OfTask(t, AcceptSocket)] + [OfTask(t, Serve(a))];
  }

  lemma PeerIsEntered(s: State, t: TaskId, a: Addr, peer: NodeId) returns (end: State)
    requires t in s.tasks.live && s.tasks.live[t] == Incoming(a) && s.dials.lock.None?
    requires SlotAvailable(s.table.peers, s.permits.limit, a)
    ensures Leads(s, [OfTask(t, InsertInbound(peer))], end)
    ensures end.table.peers == s.table.peers[a := Conn(s.table.next, peer, Connected)]
    ensures end.tasks == s.tasks.(live := s.tasks.live[t := Reading(a, s.table.next)])
    ensures end.permits == s.permits.(free := s.permits.free + (if a in s.table.peers then 1 else 0),
                                      holders := s.permits.holders - {ByTask(t)})
    ensures end.dials == s.dials && end.events == s.events && end.stop == s.stop
  {
    LeadsByOne(s, OfTask(t, InsertInbound(peer)));
    end := Apply(s, OfTask(t, InsertInbound(peer)));
  }

  /**
   An accepted socket that nothing hinders connects: the map holds the peer under the address, in
   place of what was there, its task reads from then on, and the listener listens again.
   */
  lemma AcceptConnects(s: State, t: TaskId, a: Addr, peer: NodeId) returns (steps: seq<Step>, end: State)
    requires Inv(s) && t in s.tasks.live && s.tasks.live[t] == Listening
    requires !s.permits.closed && !s.tasks.closed && s.permits.free > 0 && s.dials.lock.None?
    ensures Leads(s, steps, end)
    ensures end.table.peers == s.table.peers[a := Conn(s.table.next, peer, Connected)]
    ensures end.tasks.live == s.tasks.live[s.tasks.next := Reading(a, s.table.next)] && s.tasks.next in end.tasks.registry
    ensures end.permits == s.permits.(free := if a in s.table.peers then s.permits.free else s.permits.free - 1)
    ensures end.dials == s.dials && end.events == s.events && end.stop == s.stop
  {
    RoomForAll(s);
    TaskIsNew(s, t);
    var s1 := SocketIsServed(s, t, a);
    var u := s.tasks.next;
    end := PeerIsEntered(s1, u, a, peer);
    var first, last := [OfTask(t, AcceptSocket), OfTask(t, Serve(a))], [OfTask(u, InsertInbound(peer))];
    LeadsThrough(s, first, s1, last, end);
    steps := first + last;
    assert s.permits.holders + {ByTask(u)} - {ByTask(u)} == s.permits.holders;
  }

  lemma TaskIsNew(s: State, t: TaskId)
    requires Inv(s) && t in s.tasks.live && s.tasks.live[t] == Listening
    ensures s.tasks.next !in s.tasks.live && ByTask(s.tasks.next) !in s.permits.holders && ByTask(t) !in s.permits.holders
  {
  }

  /** A socket accepted as the registry closes is given up: its permit comes back and the listener ends. */
  lemma SocketIsRefused(s: State, t: TaskId, a: Addr)
    requires Inv(s) && t in s.tasks.live && s.tasks.live[t] == Accepted && s.tasks.closed
    ensures Enabled(s, OfTask(t, Serve(a)))
    ensures var s' := Apply(s, OfTask(t, Serve(a)));
            && t !in s'.tasks.live && s'.permits.free == s.permits.free + 1 && ByTask(t) !in s'.permits.holders
            && s'.table == s.table
  {
  }

  // ----- The end of a connection

  lemma WriterFails(s: State, a: Addr) returns (steps: seq<Step>, end: State)
    requires TableOk(s.table) && a in s.table.peers && s.dials.lock.None?
    ensures Leads(s, steps, end)
    ensures end.table.peers == s.table.peers - {a} && end.permits.free == s.permits.free + 1
    ensures end.events == s.events.(pending := s.events.pending + {NoticeOf(s.table.peers, a)})
  {
    var g := s.table.peers[a].gen;
    LeadsByOne(s, TakeWriter(a));
    var mid := Apply(s, TakeWriter(a));
    RemovalIsExact(mid, a);
    OneMore(s, [TakeWriter(a)], mid, WriteFailed(a, g));
    steps, end := [TakeWriter(a)] + [WriteFailed(a, g)], Apply(mid, WriteFailed(a, g));
  }

  lemma ReaderEnds(s: State, t: TaskId, a: Addr) returns (end: State)
    requires TableOk(s.table) && a in s.table.peers && s.dials.lock.None?
    requires t in s.tasks.live && s.tasks.live[t] == Reading(a, s.table.peers[a].gen)
    ensures Leads(s, [OfTask(t, Cleanup)], end)
    ensures end.table.peers == s.table.peers - {a} && end.permits == s.permits.(free := s.permits.free + 1)
    ensures end.tasks == s.tasks.(live := s.tasks.live[t := Finishing])
    ensures end.events == s.events.(pending := s.events.pending + {NoticeOf(s.table.peers, a)})
  {
    LeadsByOne(s, OfTask(t, Cleanup));
    RemovalIsExact(s, a);
    end := Apply(s, OfTask(t, Cleanup));
  }

  lemma ReaderIsDone(s: State, t: TaskId, n: Notice) returns (steps: seq<Step>, end: State)
    requires t in s.tasks.live && s.tasks.live[t] == Finishing && n in s.events.pending
    ensures Leads(s, steps, end)
    ensures end.table == s.table && end.permits == s.permits && end.tasks == s.tasks.(live := s.tasks.live - {t})
    ensures end.events.delivered == s.events.delivered + [n]
  {
    LeadsByOne(s, Deliver(n));
    var mid := Apply(s, Deliver(n));
    OneMore(s, [Deliver(n)], mid, OfTask(t, EndTask));
    steps, end := [Deliver(n)] + [OfTask(t, EndTask)], Apply(mid, OfTask(t, EndTask));
  }

  /** A writer that fails takes its own instance out; the notice names it and counts the others. */
  lemma FailureIsReported(s: State, a: Addr) returns (steps: seq<Step>, end: State)
    requires TableOk(s.table) && a in s.table.peers && s.dials.lock.None?
    ensures Leads(s, steps, end)
    ensures end.table.peers == s.table.peers - {a} && end.permits.free == s.permits.free + 1
    ensures var c := s.table.peers[a];
            end.events.delivered == s.events.delivered + [Notice(c.gen, a, c.peer, |s.table.peers| - 1)]
  {
    var n := NoticeOf(s.table.peers, a);
    var first, mid := WriterFails(s, a);
    OneMore(s, first, mid, Deliver(n));
    steps, end := first + [Deliver(n)], Apply(mid, Deliver(n));
  }

  /** So does a reader that comes to its end, and its task goes. */
  lemma ReaderIsReported(s: State, t: TaskId, a: Addr) returns (steps: seq<Step>, end: State)
    requires TableOk(s.table) && a in s.table.peers && s.dials.lock.None?
    requires t in s.tasks.live && s.tasks.live[t] == Reading(a, s.table.peers[a].gen)
    ensures Leads(s, steps, end)
    ensures end.table.peers == s.table.peers - {a} && end.permits.free == s.permits.free + 1
    ensures end.tasks == s.tasks.(live := s.tasks.live - {t})
    ensures var c := s.table.peers[a];
            end.events.delivered == s.events.delivered + [Notice(c.gen, a, c.peer, |s.table.peers| - 1)]
  {
    var mid := ReaderEnds(s, t, a);
    var last;
    last, end := ReaderIsDone(mid, t, NoticeOf(s.table.peers, a));
    LeadsThrough(s, [OfTask(t, Cleanup)], mid, last, end);
    steps := [OfTask(t, Cleanup)] + last;
    assert s.tasks.live[t := Finishing] - {t} == s.tasks.live - {t};
  }

  // ----- Lost notices

  /** The instance is closed and no notice of it is on its way or was delivered. */
  ghost predicate Silent(s: State, g: Gen) {
    && g in s.table.closed
    && (forall n :: n in s.events.pending ==> n.gen != g)
    && (forall i :: 0 <= i < |s.events.delivered| ==> s.events.delivered[i].gen != g)
  }

  lemma StaysSilent(s: State, step: Step, g: Gen, s': State)
    requires Inv(s) && Enabled(s, step) && Silent(s, g) && s' == Apply(s, step)
    ensures Silent(s', g)
  {
    match step
    case OfDial(d, st) => assert ApplyDial(s, d, st).events == s.events && s.table.closed <= ApplyDial(s, d, st).table.closed;
    case OfTask(t, st) => TaskStaysSilent(s, t, st, g);
    case OfShutdown(st) => assert ApplyStop(s, st).events == s.events && s.table.closed <= ApplyStop(s, st).table.closed;
    case _ =>
  }

  lemma TaskStaysSilent(s: State, t: TaskId, st: TaskStep, g: Gen)
    requires Inv(s) && TaskEnabled(s, t, st) && Silent(s, g)
    ensures Silent(ApplyTask(s, t, st), g)
  {
    assert !st.Cleanup? ==> ApplyTask(s, t, st).events == s.events;
  }

  lemma LossSilences(s: State, n: Notice, s': State)
    requires Inv(s) && Enabled(s, Lose(n)) && s' == Apply(s, Lose(n))
    ensures Silent(s', n.gen)
  {
  }

  lemma LossAt(limit: nat, states: seq<State>, steps: seq<Step>, i: nat, n: Notice)
    requires IsRun(limit, states, steps) && i < |steps| && steps[i] == Lose(n)
    ensures Silent(states[i + 1], n.gen)
  {
    InvAlways(limit, states, steps, i);
    LossSilences(states[i], n, states[i + 1]);
  }

  lemma SilentAt(limit: nat, states: seq<State>, steps: seq<Step>, i: nat, g: Gen)
    requires IsRun(limit, states, steps) && i < |steps| && Silent(states[i], g)
    ensures Silent(states[i + 1], g)
  {
    InvAlways(limit, states, steps, i);
    StaysSilent(states[i], steps[i], g, states[i + 1]);
  }

  /** A notice that was lost is never delivered, then or later, nor another one of its instance. */
  lemma {:induction false} LostStaysLost(limit: nat, states: seq<State>, steps: seq<Step>, i: nat, k: nat, n: Notice)
    requires IsRun(limit, states, steps) && i < k < |states| && steps[i] == Lose(n)
    ensures Silent(states[k], n.gen)
  {
    if k == i + 1 {
      LossAt(limit, states, steps, i, n);
    } else {
      LostStaysLost(limit, states, steps, i, k - 1, n);
      SilentAt(limit, states, steps, k - 1, n.gen);
    }
  }

  // ----- Writers

  /** A writer can only fail on an instance that was current when it was taken. */
  lemma {:induction false} WriterWasTaken(limit: nat, states: seq<State>, steps: seq<Step>, k: nat, a: Addr, g: Gen)
    requires IsRun(limit, states, steps) && k < |states| && (a, g) in states[k].snapshots
    ensures exists j :: 0 <= j < k && steps[j] == TakeWriter(a) && IsCurrent(states[j].table, a, g)
  {
    if k == 0 {
    } else {
      assert states[k - 1 + 1] == Apply(states[k - 1], steps[k - 1]);
      SnapshotsGrow(states[k - 1], steps[k - 1], a, g);
      if (a, g) in states[k - 1].snapshots { WriterWasTaken(limit, states, steps, k - 1, a, g); }
    }
  }

  lemma SnapshotsGrow(s: State, step: Step, a: Addr, g: Gen)
    requires Enabled(s, step)
    ensures (a, g) in Apply(s, step).snapshots ==>
              (a, g) in s.snapshots || (step == TakeWriter(a) && IsCurrent(s.table, a, g))
  {
    match step
    case OfDial(d, st) => assert ApplyDial(s, d, st).snapshots == s.snapshots;
    case OfTask(t, st) => assert ApplyTask(s, t, st).snapshots == s.snapshots;
    case OfShutdown(st) => assert ApplyStop(s, st).snapshots == s.snapshots;
    case _ =>
  }

  lemma FailedWriterWasTaken(limit: nat, states: seq<State>, steps: seq<Step>, k: nat, a: Addr, g: Gen)
    requires IsRun(limit, states, steps) && k < |steps| && steps[k] == WriteFailed(a, g)
    ensures exists j :: 0 <= j < k && steps[j] == TakeWriter(a) && IsCurrent(states[j].table, a, g)
  {
    WriterWasTaken(limit, states, steps, k, a, g);
  }

  /** A dial goes past its lookup, and into the map, only while nobody is connected at its address. */
  lemma DialMeetsNobody(limit: nat, states: seq<State>, steps: seq<Step>, k: nat, d: DialId)
    requires IsRun(limit, states, steps) && k < |steps|
    requires steps[k] == OfDial(d, Lookup) || (steps[k].OfDial? && steps[k].d == d && steps[k].dialStep.InsertOutbound?)
    ensures d in states[k].dials.calls && states[k].dials.calls[d].addr !in states[k].table.peers
    ensures states[k + 1].table.replaced == states[k].table.replaced
  {
    InvAlways(limit, states, steps, k);
  }

  // ----- A shutdown given up and taken up again

  /** Cancelled while it waits, a shutdown can be called again, and takes over exactly its tasks. */
  lemma RetryTakesOver(s: State) returns (end: State)
    requires Inv(s) && (s.stop.phase.Joining? || s.stop.phase.Clearing?)
    ensures Leads(s, [OfShutdown(CancelShutdown), OfShutdown(CloseRegistry)], end)
    ensures end.stop.phase == Closed(if s.stop.phase.Joining? then s.stop.phase.held else {})
    ensures end.table == s.table && end.permits == s.permits && end.tasks.live == s.tasks.live && end.tasks.registry == {}
  {
    LeadsByOne(s, OfShutdown(CancelShutdown));
    var s1 := Apply(s, OfShutdown(CancelShutdown));
    OneMore(s, [OfShutdown(CancelShutdown)], s1, OfShutdown(CloseRegistry));
    end := Apply(s1, OfShutdown(CloseRegistry));
    assert [OfShutdown(CancelShutdown), OfShutdown(CloseRegistry)] == [OfShutdown(CancelShutdown)] + [OfShutdown(CloseRegistry)];
  }
}
