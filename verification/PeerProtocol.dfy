/**
 The life of peer connections inside one node: outbound dials, inbound accepts, failing
 writers, reader cleanup and shutdown, interleaved at the granularity of the locks and
 atomics they share.

 A `State` is everything those activities share plus their own control points. A `Step` is
 one lock-protected region (or one atomic operation). The write lock on the peer map is
 explicit, because a dial holds it across two regions: the insertion of its connection and
 the admission of the task that will own it.
 */
module PeerProtocol {
  import opened Basics

  type Addr = string
  type NodeId = string
  /** Identity of one connection instance: the pointer identity of its shared token. */
  type Gen = nat
  type DialId = nat
  type TaskId = nat

  datatype PeerState = Disconnected | Connecting | Handshaking | Connected | Failed

  datatype Conn = Conn(gen: Gen, peer: NodeId, state: PeerState)

  /** The peer map, with the history of connection instances and their closed flags. */
  datatype Table = Table(
    peers: map<Addr, Conn>,
    home: map<Gen, Addr>,             // every instance ever inserted, and where
    closed: set<Gen>,                 // instances whose closed flag is set
    replaced: set<Gen>,               // instances displaced by a later insertion
    next: Gen
  )

  /** A `PeerDisconnected` event computed by a removal. */
  datatype Notice = Notice(gen: Gen, addr: Addr, peer: NodeId, count: nat)

  datatype Events = Events(pending: set<Notice>, delivered: seq<Notice>)

  /** The connection semaphore, with the handshakes in flight that hold its permits. */
  datatype Holder = ByDial(dial: DialId) | ByTask(task: TaskId)
  datatype Permits = Permits(limit: nat, free: nat, holders: set<Holder>, closed: bool)

  /** Control point of one call to `connect_to_peer`. */
  datatype Dial =
    | Started(addr: Addr)             // saw the shutdown flag down
    | Checked(addr: Addr)             // saw no live connection at the address
    | Guarded(addr: Addr)             // owns the attempt guard of the address
    | Attempting(addr: Addr)          // also owns the outbound attempt slot
    | Dialing(addr: Addr)             // also owns a connection permit; handshake in flight
    | Inserted(addr: Addr, gen: Gen)  // owns the peer-map lock; the permit moved into the map
    | Announcing(addr: Addr)          // reader admitted; waits for its announcement

  datatype Dials = Dials(
    calls: map<DialId, Dial>,
    attempts: map<Addr, DialId>,      // guarded endpoints, each with its owner
    slot: Option<DialId>,             // owner of the single outbound attempt slot
    lock: Option<DialId>,             // owner of the peer-map lock between its two regions
    next: DialId
  )

  /** Control point of one task owned by the registry. */
  datatype Task =
    | Listening
    | Accepted                        // the listener owns a permit for an accepted socket
    | Incoming(addr: Addr)            // inbound handshake, owns a permit
    | Reading(addr: Addr, gen: Gen)   // reader of one connection instance
    | Finishing                       // cleanup done, hands its notice to the event queue

  /** The task registry, with the admitted and unfinished tasks. */
  datatype Tasks = Tasks(live: map<TaskId, Task>, registry: set<TaskId>, closed: bool, next: TaskId)

  datatype Phase =
    | Idle
    | Closed(held: set<TaskId>)       // registry closed, tasks taken
    | Signalled(held: set<TaskId>)    // shutdown flag raised
    | Joining(held: set<TaskId>)      // slots closed, waiting for the taken tasks
    | Clearing                        // all joined, waiting for the peer-map lock

  /** `returned` says that some call of `shutdown` has run to its end. */
  datatype Shutdown = Shutdown(flag: bool, phase: Phase, returned: bool)

  datatype State = State(
    table: Table,
    events: Events,
    permits: Permits,
    dials: Dials,
    tasks: Tasks,
    stop: Shutdown,
    snapshots: set<(Addr, Gen)>       // writers taken by broadcasts and sends
  )

  datatype DialStep =
    | Lookup
    | Guard
    | TakeAttemptSlot
    | TakePermit
    | InsertOutbound(peer: NodeId)
    | AdmitReader
    | EndDial                         // success, error or cancellation at an await

  datatype TaskStep =
    | AcceptSocket
    | Serve(addr: Addr)
    | InsertInbound(peer: NodeId)
    | Cleanup
    | EndTask                         // end, error or abort at an await

  datatype StopStep =
    | CloseRegistry
    | RaiseFlag
    | CloseSlots
    | JoinNext(t: TaskId)
    | JoinDone
    | ClearPeers
    | CancelShutdown                  // the caller drops the future at an await

  datatype Step =
    | StartDial(addr: Addr)
    | OfDial(d: DialId, dialStep: DialStep)
    | StartListener
    | OfTask(t: TaskId, taskStep: TaskStep)
    | TakeWriter(addr: Addr)
    | WriteFailed(addr: Addr, gen: Gen)
    | Deliver(n: Notice)
    | Lose(n: Notice)
    | OfShutdown(stopStep: StopStep)

  // ----- the shared data structures -----

  function ConnectedCount(peers: map<Addr, Conn>): nat {
    |set a | a in peers && peers[a].state == Connected|
  }

  predicate IsConnected(peers: map<Addr, Conn>, addr: Addr) {
    addr in peers && peers[addr].state == Connected
  }

  /** `ensure_peer_slot_available` with a replacing address. */
  predicate SlotAvailable(peers: map<Addr, Conn>, limit: nat, addr: Addr) {
    addr in peers || ConnectedCount(peers) < limit
  }

  predicate IsCurrent(t: Table, addr: Addr, gen: Gen) {
    addr in t.peers && t.peers[addr].gen == gen
  }

  predicate HasGuard(d: Dial) {
    d.Guarded? || d.Attempting? || d.Dialing? || d.Inserted? || d.Announcing?
  }

  predicate HasAttemptSlot(d: Dial) {
    d.Attempting? || d.Dialing? || d.Inserted? || d.Announcing?
  }

  predicate HoldsPermit(t: Task) {
    t.Accepted? || t.Incoming?
  }

  function Held(phase: Phase): set<TaskId> {
    if phase.Idle? || phase.Clearing? then {} else phase.held
  }

  /** Removing a connection drops it, which sets its closed flag. */
  function Remove(t: Table, addr: Addr): Table
    requires addr in t.peers
  {
    t.(peers := t.peers - {addr}, closed := t.closed + {t.peers[addr].gen})
  }

  /** The instance an insertion at this address displaces and drops. */
  function Displaced(t: Table, addr: Addr): set<Gen> {
    if addr in t.peers then {t.peers[addr].gen} else {}
  }

  /** Insertion of a fresh instance; a connection already at the address is displaced and dropped. */
  function Put(t: Table, addr: Addr, peer: NodeId): Table {
    Table(t.peers[addr := Conn(t.next, peer, Connected)], t.home[t.next := addr],
          t.closed + Displaced(t, addr), t.replaced + Displaced(t, addr), t.next + 1)
  }

  /** Permits come back when the connections that carry them are dropped. */
  function Return(p: Permits, n: nat): Permits {
    p.(free := p.free + n)
  }

  /** A holder gives its permit away: back to the semaphore, or into a map entry. */
  function Spend(p: Permits, h: Holder): Permits {
    p.(holders := p.holders - {h})
  }

  function Take(p: Permits, h: Holder): Permits
    requires p.free > 0
  {
    p.(free := p.free - 1, holders := p.holders + {h})
  }

  /** `remove_connection_if_current`, with the notice and the permit its callers let go. */
  function RemoveIfCurrent(s: State, addr: Addr, gen: Gen): State {
    if !IsCurrent(s.table, addr, gen) then s else
      var removed := s.table.peers[addr];
      var table := Remove(s.table, addr);
      var events := if removed.state == Connected
                    then s.events.(pending := s.events.pending +
                                              {Notice(gen, addr, removed.peer, ConnectedCount(table.peers))})
                    else s.events;
      s.(table := table, events := events, permits := Return(s.permits, 1))
  }

  /** A dial moves to its next control point. */
  function Move(ds: Dials, d: DialId, to: Dial): Dials {
    ds.(calls := ds.calls[d := to])
  }

  /** A dial goes away: guard, attempt slot and lock are dropped with it. */
  function Forget(ds: Dials, d: DialId): Dials
    requires d in ds.calls
  {
    var dial := ds.calls[d];
    ds.(calls := ds.calls - {d},
        attempts := if HasGuard(dial) then ds.attempts - {dial.addr} else ds.attempts,
        slot := if HasAttemptSlot(dial) then None else ds.slot,
        lock := if dial.Inserted? then None else ds.lock)
  }

  /** `TaskRegistry::spawn` on an open registry: reap finished handles, then own the new task. */
  function Spawn(ts: Tasks, task: Task): Tasks {
    ts.(live := ts.live[ts.next := task], registry := ts.registry * ts.live.Keys + {ts.next}, next := ts.next + 1)
  }

  function Become(ts: Tasks, t: TaskId, to: Task): Tasks {
    ts.(live := ts.live[t := to])
  }

  // ----- the transition system -----

  predicate Init(s: State, limit: nat) {
    s == State(Table(map[], map[], {}, {}, 0), Events({}, []), Permits(limit, limit, {}, false),
               Dials(map[], map[], None, None, 0), Tasks(map[], {}, false, 0), Shutdown(false, Idle, false), {})
  }

  predicate DialEnabled(s: State, d: DialId, step: DialStep) {
    d in s.dials.calls &&
    var dial, peers := s.dials.calls[d], s.table.peers;
    match step
    case Lookup => dial.Started? && s.dials.lock.None? && !IsConnected(peers, dial.addr)
    case Guard => dial.Checked? && dial.addr !in s.dials.attempts
    case TakeAttemptSlot => dial.Guarded? && s.dials.slot.None? && !s.permits.closed
    case TakePermit => dial.Attempting? && s.permits.free > 0 && !s.permits.closed
    case InsertOutbound(_) =>
      dial.Dialing? && s.dials.lock.None? && !IsConnected(peers, dial.addr) &&
      SlotAvailable(peers, s.permits.limit, dial.addr)
    case AdmitReader => dial.Inserted? && s.dials.lock == Some(d)
    case EndDial => !dial.Inserted?
  }

  function ApplyDial(s: State, d: DialId, step: DialStep): State
    requires DialEnabled(s, d, step)
  {
    var dial := s.dials.calls[d];
    match step
    case Lookup => s.(dials := Move(s.dials, d, Checked(dial.addr)))
    case Guard =>
      s.(dials := Move(s.dials, d, Guarded(dial.addr)).(attempts := s.dials.attempts[dial.addr := d]))
    case TakeAttemptSlot => s.(dials := Move(s.dials, d, Attempting(dial.addr)).(slot := Some(d)))
    case TakePermit =>
      s.(dials := Move(s.dials, d, Dialing(dial.addr)), permits := Take(s.permits, ByDial(d)))
    case InsertOutbound(peer) =>
      s.(dials := Move(s.dials, d, Inserted(dial.addr, s.table.next)).(lock := Some(d)),
         table := Put(s.table, dial.addr, peer),
         permits := Return(Spend(s.permits, ByDial(d)), |Displaced(s.table, dial.addr)|))
    case AdmitReader =>
      if !s.tasks.closed then
        s.(dials := Move(s.dials, d, Announcing(dial.addr)).(lock := None),
           tasks := Spawn(s.tasks, Reading(dial.addr, dial.gen)))
      else if IsCurrent(s.table, dial.addr, dial.gen) then
        // Refused: the insertion is rolled back before the lock is released.
        s.(dials := Forget(s.dials, d), table := Remove(s.table, dial.addr), permits := Return(s.permits, 1))
      else
        s.(dials := Forget(s.dials, d))
    case EndDial =>
      s.(dials := Forget(s.dials, d),
         permits := if dial.Dialing? then Return(Spend(s.permits, ByDial(d)), 1) else s.permits)
  }

  predicate TaskEnabled(s: State, t: TaskId, step: TaskStep) {
    t in s.tasks.live &&
    var task := s.tasks.live[t];
    match step
    case AcceptSocket => task.Listening? && s.permits.free > 0 && !s.permits.closed
    case Serve(_) => task.Accepted?
    case InsertInbound(_) =>
      task.Incoming? && s.dials.lock.None? && SlotAvailable(s.table.peers, s.permits.limit, task.addr)
    case Cleanup => task.Reading? && s.dials.lock.None?
    case EndTask => true
  }

  function EndOfTask(s: State, t: TaskId): State
    requires t in s.tasks.live
  {
    s.(tasks := s.tasks.(live := s.tasks.live - {t}),
       permits := if HoldsPermit(s.tasks.live[t]) then Return(Spend(s.permits, ByTask(t)), 1) else s.permits)
  }

  function ApplyTask(s: State, t: TaskId, step: TaskStep): State
    requires TaskEnabled(s, t, step)
  {
    var task := s.tasks.live[t];
    match step
    case AcceptSocket => s.(tasks := Become(s.tasks, t, Accepted), permits := Take(s.permits, ByTask(t)))
    case Serve(addr) =>
      if s.tasks.closed then EndOfTask(s, t) else
        s.(tasks := Spawn(Become(s.tasks, t, Listening), Incoming(addr)),
           permits := s.permits.(holders := s.permits.holders - {ByTask(t)} + {ByTask(s.tasks.next)}))
    case InsertInbound(peer) =>
      s.(tasks := Become(s.tasks, t, Reading(task.addr, s.table.next)),
         table := Put(s.table, task.addr, peer),
         permits := Return(Spend(s.permits, ByTask(t)), |Displaced(s.table, task.addr)|))
    case Cleanup => RemoveIfCurrent(s, task.addr, task.gen).(tasks := Become(s.tasks, t, Finishing))
    case EndTask => EndOfTask(s, t)
  }

  predicate StopEnabled(s: State, step: StopStep) {
    var phase := s.stop.phase;
    match step
    case CloseRegistry => phase.Idle?
    case RaiseFlag => phase.Closed?
    case CloseSlots => phase.Signalled?
    case JoinNext(t) => phase.Joining? && t in phase.held && t !in s.tasks.live
    case JoinDone => phase == Joining({})
    case ClearPeers => phase.Clearing? && s.dials.lock.None?
    case CancelShutdown => phase.Joining? || phase.Clearing?
  }

  function ApplyStop(s: State, step: StopStep): State
    requires StopEnabled(s, step)
  {
    var phase := s.stop.phase;
    match step
    case CloseRegistry =>
      s.(tasks := s.tasks.(closed := true, registry := {}), stop := s.stop.(phase := Closed(s.tasks.registry)))
    case RaiseFlag => s.(stop := s.stop.(flag := true, phase := Signalled(phase.held)))
    case CloseSlots => s.(permits := s.permits.(closed := true), stop := s.stop.(phase := Joining(phase.held)))
    case JoinNext(t) => s.(stop := s.stop.(phase := Joining(phase.held - {t})))
    case JoinDone => s.(stop := s.stop.(phase := Clearing))
    case ClearPeers =>
      s.(table := s.table.(peers := map[], closed := s.table.closed + CurrentGens(s.table.peers)),
         permits := Return(s.permits, |s.table.peers|),
         stop := s.stop.(phase := Idle, returned := true))
    case CancelShutdown =>
      s.(tasks := s.tasks.(registry := Held(phase)), stop := s.stop.(phase := Idle))
  }

  function CurrentGens(peers: map<Addr, Conn>): set<Gen> {
    set a | a in peers :: peers[a].gen
  }

  predicate Enabled(s: State, step: Step) {
    match step
    case StartDial(_) => !s.stop.flag
    case OfDial(d, st) => DialEnabled(s, d, st)
    case StartListener => !s.tasks.closed
    case OfTask(t, st) => TaskEnabled(s, t, st)
    case TakeWriter(a) => IsConnected(s.table.peers, a) && s.dials.lock.None?
    case WriteFailed(a, g) => (a, g) in s.snapshots && s.dials.lock.None?
    case Deliver(n) => n in s.events.pending
    case Lose(n) => n in s.events.pending
    case OfShutdown(st) => StopEnabled(s, st)
  }

  function Apply(s: State, step: Step): State
    requires Enabled(s, step)
  {
    match step
    case StartDial(a) =>
      s.(dials := s.dials.(calls := s.dials.calls[s.dials.next := Started(a)], next := s.dials.next + 1))
    case OfDial(d, st) => ApplyDial(s, d, st)
    case StartListener => s.(tasks := Spawn(s.tasks, Listening))
    case OfTask(t, st) => ApplyTask(s, t, st)
    case TakeWriter(a) => s.(snapshots := s.snapshots + {(a, s.table.peers[a].gen)})
    case WriteFailed(a, g) => RemoveIfCurrent(s, a, g)
    case Deliver(n) => s.(events := Events(s.events.pending - {n}, s.events.delivered + [n]))
    case Lose(n) => s.(events := s.events.(pending := s.events.pending - {n}))
    case OfShutdown(st) => ApplyStop(s, st)
  }

  /** A finite run from a fresh node: every interleaving of the steps above. */
  ghost predicate IsRun(limit: nat, states: seq<State>, steps: seq<Step>) {
    && |states| == |steps| + 1
    && Init(states[0], limit)
    && forall i :: 0 <= i < |steps| ==> Enabled(states[i], steps[i]) && states[i + 1] == Apply(states[i], steps[i])
  }

  // ----- invariants -----

  /** The closed flag of an instance is up exactly when it was inserted and is no longer current. */
  predicate TableOk(t: Table) {
    && (forall g :: g in t.home ==> g < t.next)
    && (forall a {:trigger a in t.peers} :: a in t.peers ==>
          t.peers[a].state == Connected && t.peers[a].gen in t.home && t.home[t.peers[a].gen] == a)
    && t.closed <= t.home.Keys
    && t.replaced <= t.closed
    && (forall g {:trigger g in t.closed} :: g in t.home ==> (g in t.closed <==> !IsCurrent(t, t.home[g], g)))
  }

  predicate IsRemoval(n: Notice, t: Table) {
    n.gen in t.home && t.home[n.gen] == n.addr && n.gen in t.closed && n.gen !in t.replaced
  }

  /** A notice belongs to a closed instance that was not displaced, and no instance has two. */
  predicate EventsOk(e: Events, t: Table) {
    && (forall n :: n in e.pending ==> IsRemoval(n, t))
    && (forall i :: 0 <= i < |e.delivered| ==> IsRemoval(e.delivered[i], t))
    && (forall m, n :: m in e.pending && n in e.pending && m.gen == n.gen ==> m == n)
    && (forall i, n :: 0 <= i < |e.delivered| && n in e.pending ==> e.delivered[i].gen != n.gen)
    && (forall i, j :: 0 <= i < j < |e.delivered| ==> e.delivered[i].gen != e.delivered[j].gen)
  }

  /** Every permit is free, held by one handshake in flight, or inside one map entry. */
  predicate PermitsAddUp(p: Permits, peers: map<Addr, Conn>) {
    p.free + |p.holders| + |peers| == p.limit
  }

  ghost predicate DialPermits(holders: set<Holder>, calls: map<DialId, Dial>) {
    forall d :: ByDial(d) in holders <==> d in calls && calls[d].Dialing?
  }

  ghost predicate TaskPermits(holders: set<Holder>, live: map<TaskId, Task>) {
    forall t :: ByTask(t) in holders <==> t in live && HoldsPermit(live[t])
  }

  /** Guarded endpoints and the dials that own them determine each other. */
  predicate Guards(calls: map<DialId, Dial>, attempts: map<Addr, DialId>) {
    && (forall d :: d in calls && HasGuard(calls[d]) ==> calls[d].addr in attempts && attempts[calls[d].addr] == d)
    && (forall a :: a in attempts ==>
          attempts[a] in calls && HasGuard(calls[attempts[a]]) && calls[attempts[a]].addr == a)
  }

  /** Guards, the single attempt slot and the lock all have exactly the owners they name. */
  predicate DialsOk(ds: Dials) {
    && (forall d :: d in ds.calls ==> d < ds.next)
    && Guards(ds.calls, ds.attempts)
    && (forall d :: d in ds.calls && HasAttemptSlot(ds.calls[d]) ==> ds.slot == Some(d))
    && (ds.slot.Some? ==> ds.slot.value in ds.calls && HasAttemptSlot(ds.calls[ds.slot.value]))
    && (forall d :: d in ds.calls && ds.calls[d].Inserted? ==> ds.lock == Some(d))
    && (ds.lock.Some? ==> ds.lock.value in ds.calls && ds.calls[ds.lock.value].Inserted?)
  }

  /** The entry of the lock owner is still its own. */
  predicate LockedEntry(ds: Dials, t: Table) {
    ds.lock.Some? && ds.lock.value in ds.calls && ds.calls[ds.lock.value].Inserted? ==>
      IsCurrent(t, ds.calls[ds.lock.value].addr, ds.calls[ds.lock.value].gen)
  }

  predicate Readers(live: map<TaskId, Task>, home: map<Gen, Addr>) {
    forall t :: t in live && live[t].Reading? ==> live[t].gen in home && home[live[t].gen] == live[t].addr
  }

  predicate Writers(snapshots: set<(Addr, Gen)>, home: map<Gen, Addr>) {
    forall p :: p in snapshots ==> p.1 in home && home[p.1] == p.0
  }

  /** Every unfinished task has exactly one owner: the registry or the running shutdown. */
  predicate TasksOk(ts: Tasks, phase: Phase) {
    && (forall t :: t in ts.registry + Held(phase) ==> t < ts.next)
    && ts.live.Keys <= ts.registry + Held(phase)
    && ts.registry !! Held(phase)
    && (!phase.Idle? ==> ts.closed && ts.registry == {})
    && (phase.Clearing? ==> ts.live == map[])
  }

  /** The flags a shutdown has raised by each of its phases, and for good once it has returned. */
  predicate StopOk(stop: Shutdown, ts: Tasks, slotsClosed: bool) {
    && (stop.flag ==> ts.closed)
    && (stop.phase.Signalled? || stop.phase.Joining? || stop.phase.Clearing? ==> stop.flag)
    && (stop.phase.Joining? || stop.phase.Clearing? ==> slotsClosed)
    && (stop.returned ==> stop.flag && slotsClosed && ts.live == map[])
  }

  /** After a completed shutdown only a dial still holding the lock can have an entry. */
  predicate EmptyAfter(returned: bool, ds: Dials, peers: map<Addr, Conn>) {
    returned ==>
      && (ds.lock.None? ==> peers == map[])
      && (ds.lock.Some? && ds.lock.value in ds.calls ==> peers.Keys == {ds.calls[ds.lock.value].addr})
  }

  /** The part of the invariant about connections, permits and events. */
  ghost predicate NetInv(s: State) {
    && TableOk(s.table)
    && EventsOk(s.events, s.table)
    && PermitsAddUp(s.permits, s.table.peers)
    && DialPermits(s.permits.holders, s.dials.calls)
    && TaskPermits(s.permits.holders, s.tasks.live)
    && Readers(s.tasks.live, s.table.home)
    && Writers(s.snapshots, s.table.home)
  }

  /** The part of the invariant about dials, tasks and shutdown. */
  ghost predicate OwnerInv(s: State) {
    && DialsOk(s.dials)
    && LockedEntry(s.dials, s.table)
    && TasksOk(s.tasks, s.stop.phase)
    && StopOk(s.stop, s.tasks, s.permits.closed)
    && EmptyAfter(s.stop.returned, s.dials, s.table.peers)
  }

  ghost predicate Inv(s: State) {
    NetInv(s) && OwnerInv(s)
  }

  // ----- preservation, structure by structure -----

  lemma RemoveOk(t: Table, a: Addr)
    requires TableOk(t) && a in t.peers
    ensures TableOk(Remove(t, a)) && t.peers[a].gen !in t.closed
    ensures |Remove(t, a).peers| + 1 == |t.peers|
  {
  }

  lemma PutClosesExactly(t: Table, a: Addr, peer: NodeId, g: Gen)
    requires TableOk(t) && g in Put(t, a, peer).home
    ensures g in Put(t, a, peer).closed <==> !IsCurrent(Put(t, a, peer), Put(t, a, peer).home[g], g)
  {
    assert g in t.closed ==> g in t.home;
    if a in t.peers { assert t.peers[a].gen in t.home; }
  }

  lemma PutOk(t: Table, a: Addr, peer: NodeId)
    requires TableOk(t)
    ensures TableOk(Put(t, a, peer))
  {
    var u := Put(t, a, peer);
    forall g | g in u.home ensures g in u.closed <==> !IsCurrent(u, u.home[g], g) {
      PutClosesExactly(t, a, peer, g);
    }
    assert u.closed <= u.home.Keys && u.replaced <= u.closed;
  }

  lemma PutGrows(t: Table, a: Addr, peer: NodeId)
    requires TableOk(t)
    ensures Extends(t, Put(t, a, peer)) && t.next !in t.home
    ensures |Put(t, a, peer).peers| + |Displaced(t, a)| == |t.peers| + 1
  {
  }

  lemma ClearOk(t: Table)
    requires TableOk(t)
    ensures TableOk(t.(peers := map[], closed := t.closed + CurrentGens(t.peers)))
    ensures CurrentGens(t.peers) !! t.replaced
  {
    var c := t.(peers := map[], closed := t.closed + CurrentGens(t.peers));
    forall g | g in c.home ensures g in c.closed {
      if g !in t.closed { assert IsCurrent(t, t.home[g], g); }
    }
    forall g | g in CurrentGens(t.peers) ensures g in t.home && g !in t.replaced {
      var a :| a in t.peers && t.peers[a].gen == g;
    }
  }

  /** Later insertions and removals leave the notices already computed as they are. */
  ghost predicate Extends(t: Table, u: Table) {
    && (forall g :: g in t.home ==> g in u.home && u.home[g] == t.home[g])
    && t.closed <= u.closed
    && u.replaced * t.closed <= t.replaced
  }

  lemma ExtendedEventsOk(e: Events, t: Table, u: Table)
    requires EventsOk(e, t) && Extends(t, u)
    ensures EventsOk(e, u)
  {
  }

  lemma AddedEventOk(e: Events, t: Table, n: Notice)
    requires EventsOk(e, t) && n.gen in t.home && t.home[n.gen] == n.addr && n.gen in t.closed && n.gen !in t.replaced
    requires forall m :: m in e.pending || m in e.delivered ==> m.gen != n.gen
    ensures EventsOk(e.(pending := e.pending + {n}), t)
  {
  }

  lemma ExtendedReadersOk(s: State, u: Table)
    requires Readers(s.tasks.live, s.table.home) && Writers(s.snapshots, s.table.home) && Extends(s.table, u)
    ensures Readers(s.tasks.live, u.home) && Writers(s.snapshots, u.home)
  {
  }

  /** A removal on behalf of an instance, current or stale, with everything its callers let go. */
  lemma RemoveIfCurrentOk(s: State, a: Addr, g: Gen)
    requires Inv(s) && s.dials.lock.None?
    ensures Inv(RemoveIfCurrent(s, a, g))
    ensures var r := RemoveIfCurrent(s, a, g);
            r == s.(table := r.table, events := r.events, permits := s.permits.(free := r.permits.free)) &&
            r.table.home == s.table.home
  {
    if IsCurrent(s.table, a, g) {
      RemoveOk(s.table, a);
      var table := Remove(s.table, a);
      ExtendedEventsOk(s.events, s.table, table);
      AddedEventOk(s.events, table, Notice(g, a, s.table.peers[a].peer, ConnectedCount(table.peers)));
    }
  }

  lemma StartOk(ds: Dials, a: Addr)
    requires DialsOk(ds)
    ensures DialsOk(ds.(calls := ds.calls[ds.next := Started(a)], next := ds.next + 1))
  {
  }

  /** A dial moves on without gaining or losing its guard, slot or lock. */
  lemma MoveOk(ds: Dials, d: DialId, to: Dial)
    requires DialsOk(ds) && d in ds.calls && !to.Inserted? && !ds.calls[d].Inserted?
    requires to.addr == ds.calls[d].addr
    requires HasGuard(to) == HasGuard(ds.calls[d]) && HasAttemptSlot(to) == HasAttemptSlot(ds.calls[d])
    ensures DialsOk(Move(ds, d, to))
  {
  }

  lemma GuardOk(ds: Dials, d: DialId)
    requires DialsOk(ds) && d in ds.calls && ds.calls[d].Checked? && ds.calls[d].addr !in ds.attempts
    ensures DialsOk(Move(ds, d, Guarded(ds.calls[d].addr)).(attempts := ds.attempts[ds.calls[d].addr := d]))
  {
  }

  lemma SlotOk(ds: Dials, d: DialId)
    requires DialsOk(ds) && d in ds.calls && ds.calls[d].Guarded? && ds.slot.None?
    ensures DialsOk(Move(ds, d, Attempting(ds.calls[d].addr)).(slot := Some(d)))
  {
  }

  lemma LockOk(ds: Dials, d: DialId, g: Gen)
    requires DialsOk(ds) && d in ds.calls && ds.calls[d].Dialing? && ds.lock.None?
    ensures DialsOk(Move(ds, d, Inserted(ds.calls[d].addr, g)).(lock := Some(d)))
  {
  }

  lemma UnlockOk(ds: Dials, d: DialId)
    requires DialsOk(ds) && d in ds.calls && ds.calls[d].Inserted?
    ensures DialsOk(Move(ds, d, Announcing(ds.calls[d].addr)).(lock := None))
  {
  }

  lemma ForgetOk(ds: Dials, d: DialId)
    requires DialsOk(ds) && d in ds.calls
    ensures DialsOk(Forget(ds, d))
  {
    var f := Forget(ds, d);
    forall a | a in f.attempts
      ensures f.attempts[a] in f.calls && HasGuard(f.calls[f.attempts[a]]) && f.calls[f.attempts[a]].addr == a
    {
      assert ds.attempts[a] in ds.calls;
    }
  }

  /** A permit leaves the semaphore for a handshake. */
  lemma TakeOk(p: Permits, peers: map<Addr, Conn>, h: Holder)
    requires PermitsAddUp(p, peers) && p.free > 0 && h !in p.holders
    ensures PermitsAddUp(Take(p, h), peers)
  {
  }

  /** The permit of a handshake moves into the map, or back, as the map grows by one or not. */
  lemma SpendOk(p: Permits, h: Holder)
    requires h in p.holders
    ensures |Spend(p, h).holders| + 1 == |p.holders|
  {
  }

  lemma DialPermitOk(holders: set<Holder>, calls: map<DialId, Dial>, d: DialId, to: Dial)
    requires DialPermits(holders, calls)
    ensures to.Dialing? ==> DialPermits(holders + {ByDial(d)}, calls[d := to])
    ensures !to.Dialing? ==> DialPermits(holders - {ByDial(d)}, calls[d := to])
    ensures DialPermits(holders - {ByDial(d)}, calls - {d})
  {
  }

  lemma TaskPermitOk(holders: set<Holder>, live: map<TaskId, Task>, t: TaskId, to: Task)
    requires TaskPermits(holders, live)
    ensures HoldsPermit(to) ==> TaskPermits(holders + {ByTask(t)}, live[t := to])
    ensures !HoldsPermit(to) ==> TaskPermits(holders - {ByTask(t)}, live[t := to])
    ensures TaskPermits(holders - {ByTask(t)}, live - {t})
  {
  }

  lemma OtherPermitOk(holders: set<Holder>, calls: map<DialId, Dial>, live: map<TaskId, Task>, d: DialId, t: TaskId)
    requires DialPermits(holders, calls) && TaskPermits(holders, live)
    ensures DialPermits(holders + {ByTask(t)}, calls) && DialPermits(holders - {ByTask(t)}, calls)
    ensures TaskPermits(holders + {ByDial(d)}, live) && TaskPermits(holders - {ByDial(d)}, live)
  {
  }

  lemma SpawnOk(ts: Tasks, task: Task, phase: Phase)
    requires TasksOk(ts, phase) && !ts.closed
    ensures TasksOk(Spawn(ts, task), phase) && ts.next !in ts.live
  {
  }

  lemma BecomeOk(ts: Tasks, t: TaskId, to: Task, phase: Phase)
    requires TasksOk(ts, phase) && t in ts.live
    ensures TasksOk(Become(ts, t, to), phase)
  {
    assert Become(ts, t, to).live.Keys == ts.live.Keys;
  }

  lemma ReaderOk(live: map<TaskId, Task>, t: TaskId, to: Task, home: map<Gen, Addr>)
    requires Readers(live, home)
    requires to.Reading? ==> to.gen in home && home[to.gen] == to.addr
    ensures Readers(live[t := to], home)
  {
  }

  // ----- preservation, step by step -----

  lemma StartDialKeeps(s: State, a: Addr)
    requires Inv(s) && Enabled(s, StartDial(a))
    ensures Inv(Apply(s, StartDial(a)))
  {
    StartOk(s.dials, a);
  }

  lemma LookupKeeps(s: State, d: DialId)
    requires Inv(s) && DialEnabled(s, d, Lookup)
    ensures Inv(ApplyDial(s, d, Lookup))
  {
    MoveOk(s.dials, d, Checked(s.dials.calls[d].addr));
  }

  lemma GuardKeeps(s: State, d: DialId)
    requires Inv(s) && DialEnabled(s, d, Guard)
    ensures Inv(ApplyDial(s, d, Guard))
  {
    GuardOk(s.dials, d);
  }

  lemma TakeAttemptSlotKeeps(s: State, d: DialId)
    requires Inv(s) && DialEnabled(s, d, TakeAttemptSlot)
    ensures Inv(ApplyDial(s, d, TakeAttemptSlot))
  {
    SlotOk(s.dials, d);
  }

  lemma TakePermitKeeps(s: State, d: DialId)
    requires Inv(s) && DialEnabled(s, d, TakePermit)
    ensures Inv(ApplyDial(s, d, TakePermit))
  {
    var to := Dialing(s.dials.calls[d].addr);
    MoveOk(s.dials, d, to);
    TakeOk(s.permits, s.table.peers, ByDial(d));
    DialPermitOk(s.permits.holders, s.dials.calls, d, to);
    OtherPermitOk(s.permits.holders, s.dials.calls, s.tasks.live, d, 0);
  }

  lemma InsertOutboundKeepsNet(s: State, d: DialId, peer: NodeId)
    requires Inv(s) && DialEnabled(s, d, InsertOutbound(peer))
    ensures NetInv(ApplyDial(s, d, InsertOutbound(peer)))
  {
    var addr, table := s.dials.calls[d].addr, s.table;
    PutOk(table, addr, peer);
    PutGrows(table, addr, peer);
    ExtendedEventsOk(s.events, table, Put(table, addr, peer));
    ExtendedReadersOk(s, Put(table, addr, peer));
    SpendOk(s.permits, ByDial(d));
    DialPermitOk(s.permits.holders, s.dials.calls, d, Inserted(addr, table.next));
    OtherPermitOk(s.permits.holders, s.dials.calls, s.tasks.live, d, 0);
  }

  lemma InsertOutboundKeeps(s: State, d: DialId, peer: NodeId)
    requires Inv(s) && DialEnabled(s, d, InsertOutbound(peer))
    ensures Inv(ApplyDial(s, d, InsertOutbound(peer)))
  {
    InsertOutboundKeepsNet(s, d, peer);
    LockOk(s.dials, d, s.table.next);
  }

  lemma RefusedReaderKeepsNet(s: State, d: DialId)
    requires Inv(s) && DialEnabled(s, d, AdmitReader) && s.tasks.closed
    ensures NetInv(ApplyDial(s, d, AdmitReader))
  {
    var addr := s.dials.calls[d].addr;
    RemoveOk(s.table, addr);
    ExtendedEventsOk(s.events, s.table, Remove(s.table, addr));
    DialPermitOk(s.permits.holders, s.dials.calls, d, s.dials.calls[d]);
    assert s.permits.holders - {ByDial(d)} == s.permits.holders;
  }

  /** A task that holds no permit joins the others. */
  lemma SpawnKeepsNet(s: State, task: Task)
    requires Inv(s) && !HoldsPermit(task)
    requires task.Reading? ==> task.gen in s.table.home && s.table.home[task.gen] == task.addr
    ensures TaskPermits(s.permits.holders, Spawn(s.tasks, task).live) && Readers(Spawn(s.tasks, task).live, s.table.home)
  {
    ReaderOk(s.tasks.live, s.tasks.next, task, s.table.home);
    TaskPermitOk(s.permits.holders, s.tasks.live, s.tasks.next, task);
    assert s.permits.holders - {ByTask(s.tasks.next)} == s.permits.holders;
  }

  lemma AdmittedReaderKeepsNet(s: State, d: DialId)
    requires Inv(s) && DialEnabled(s, d, AdmitReader) && !s.tasks.closed
    ensures NetInv(ApplyDial(s, d, AdmitReader))
  {
    var reading := Reading(s.dials.calls[d].addr, s.dials.calls[d].gen);
    SpawnKeepsNet(s, reading);
    DialPermitOk(s.permits.holders, s.dials.calls, d, Announcing(reading.addr));
    assert s.permits.holders - {ByDial(d)} == s.permits.holders;
  }

  lemma AdmitReaderKeeps(s: State, d: DialId)
    requires Inv(s) && DialEnabled(s, d, AdmitReader)
    ensures Inv(ApplyDial(s, d, AdmitReader))
  {
    if s.tasks.closed {
      RefusedReaderKeepsNet(s, d);
      ForgetOk(s.dials, d);
    } else {
      AdmittedReaderKeepsNet(s, d);
      UnlockOk(s.dials, d);
      SpawnOk(s.tasks, Reading(s.dials.calls[d].addr, s.dials.calls[d].gen), s.stop.phase);
    }
  }

  lemma EndDialKeeps(s: State, d: DialId)
    requires Inv(s) && DialEnabled(s, d, EndDial)
    ensures Inv(ApplyDial(s, d, EndDial))
  {
    ForgetOk(s.dials, d);
    DialPermitOk(s.permits.holders, s.dials.calls, d, s.dials.calls[d]);
    OtherPermitOk(s.permits.holders, s.dials.calls, s.tasks.live, d, 0);
    if s.dials.calls[d].Dialing? {
      SpendOk(s.permits, ByDial(d));
    } else {
      assert s.permits.holders - {ByDial(d)} == s.permits.holders;
    }
  }

  lemma StartListenerKeeps(s: State)
    requires Inv(s) && Enabled(s, StartListener)
    ensures Inv(Apply(s, StartListener))
  {
    SpawnOk(s.tasks, Listening, s.stop.phase);
    SpawnKeepsNet(s, Listening);
  }

  lemma AcceptSocketKeeps(s: State, t: TaskId)
    requires Inv(s) && TaskEnabled(s, t, AcceptSocket)
    ensures Inv(ApplyTask(s, t, AcceptSocket))
  {
    BecomeOk(s.tasks, t, Accepted, s.stop.phase);
    ReaderOk(s.tasks.live, t, Accepted, s.table.home);
    TakeOk(s.permits, s.table.peers, ByTask(t));
    TaskPermitOk(s.permits.holders, s.tasks.live, t, Accepted);
    OtherPermitOk(s.permits.holders, s.dials.calls, s.tasks.live, 0, t);
  }

  lemma ServeKeepsNet(s: State, t: TaskId, a: Addr)
    requires Inv(s) && TaskEnabled(s, t, Serve(a))
    ensures NetInv(ApplyTask(s, t, Serve(a)))
  {
    if s.tasks.closed {
      EndTaskKeeps(s, t);
    } else {
      var listening, holders := Become(s.tasks, t, Listening), s.permits.holders - {ByTask(t)};
      ReaderOk(s.tasks.live, t, Listening, s.table.home);
      ReaderOk(listening.live, s.tasks.next, Incoming(a), s.table.home);
      SpendOk(s.permits, ByTask(t));
      TaskPermitOk(s.permits.holders, s.tasks.live, t, Listening);
      OtherPermitOk(s.permits.holders, s.dials.calls, s.tasks.live, 0, t);
      TaskPermitOk(holders, listening.live, s.tasks.next, Incoming(a));
      OtherPermitOk(holders, s.dials.calls, listening.live, 0, s.tasks.next);
    }
  }

  lemma ServeKeeps(s: State, t: TaskId, a: Addr)
    requires Inv(s) && TaskEnabled(s, t, Serve(a))
    ensures Inv(ApplyTask(s, t, Serve(a)))
  {
    ServeKeepsNet(s, t, a);
    if s.tasks.closed {
      EndTaskKeeps(s, t);
    } else {
      BecomeOk(s.tasks, t, Listening, s.stop.phase);
      SpawnOk(Become(s.tasks, t, Listening), Incoming(a), s.stop.phase);
    }
  }

  lemma InsertInboundKeepsNet(s: State, t: TaskId, peer: NodeId)
    requires Inv(s) && TaskEnabled(s, t, InsertInbound(peer))
    ensures NetInv(ApplyTask(s, t, InsertInbound(peer)))
  {
    var addr, table := s.tasks.live[t].addr, s.table;
    PutOk(table, addr, peer);
    PutGrows(table, addr, peer);
    ExtendedEventsOk(s.events, table, Put(table, addr, peer));
    ExtendedReadersOk(s, Put(table, addr, peer));
    ReaderOk(s.tasks.live, t, Reading(addr, table.next), Put(table, addr, peer).home);
    SpendOk(s.permits, ByTask(t));
    TaskPermitOk(s.permits.holders, s.tasks.live, t, Reading(addr, table.next));
    OtherPermitOk(s.permits.holders, s.dials.calls, s.tasks.live, 0, t);
  }

  lemma InsertInboundKeeps(s: State, t: TaskId, peer: NodeId)
    requires Inv(s) && TaskEnabled(s, t, InsertInbound(peer))
    ensures Inv(ApplyTask(s, t, InsertInbound(peer)))
  {
    InsertInboundKeepsNet(s, t, peer);
    BecomeOk(s.tasks, t, Reading(s.tasks.live[t].addr, s.table.next), s.stop.phase);
  }

  lemma CleanupKeeps(s: State, t: TaskId)
    requires Inv(s) && TaskEnabled(s, t, Cleanup)
    ensures Inv(ApplyTask(s, t, Cleanup))
  {
    RemoveIfCurrentOk(s, s.tasks.live[t].addr, s.tasks.live[t].gen);
    BecomeOk(s.tasks, t, Finishing, s.stop.phase);
    ReaderOk(s.tasks.live, t, Finishing, s.table.home);
    TaskPermitOk(s.permits.holders, s.tasks.live, t, Finishing);
    assert s.permits.holders - {ByTask(t)} == s.permits.holders;
  }

  lemma EndTaskKeeps(s: State, t: TaskId)
    requires Inv(s) && TaskEnabled(s, t, EndTask)
    ensures Inv(ApplyTask(s, t, EndTask))
  {
    TaskPermitOk(s.permits.holders, s.tasks.live, t, s.tasks.live[t]);
    OtherPermitOk(s.permits.holders, s.dials.calls, s.tasks.live, 0, t);
    if HoldsPermit(s.tasks.live[t]) {
      SpendOk(s.permits, ByTask(t));
    } else {
      assert s.permits.holders - {ByTask(t)} == s.permits.holders;
    }
  }

  lemma TakeWriterKeeps(s: State, a: Addr)
    requires Inv(s) && Enabled(s, TakeWriter(a))
    ensures Inv(Apply(s, TakeWriter(a)))
  {
  }

  lemma WriteFailedKeeps(s: State, a: Addr, g: Gen)
    requires Inv(s) && Enabled(s, WriteFailed(a, g))
    ensures Inv(Apply(s, WriteFailed(a, g)))
  {
    RemoveIfCurrentOk(s, a, g);
  }

  lemma DeliverKeeps(s: State, n: Notice)
    requires Inv(s) && Enabled(s, Deliver(n))
    ensures Inv(Apply(s, Deliver(n)))
  {
  }

  lemma LoseKeeps(s: State, n: Notice)
    requires Inv(s) && Enabled(s, Lose(n))
    ensures Inv(Apply(s, Lose(n)))
  {
  }

  lemma CloseRegistryKeeps(s: State)
    requires Inv(s) && StopEnabled(s, CloseRegistry)
    ensures Inv(ApplyStop(s, CloseRegistry))
  {
  }

  lemma RaiseFlagKeeps(s: State)
    requires Inv(s) && StopEnabled(s, RaiseFlag)
    ensures Inv(ApplyStop(s, RaiseFlag))
  {
  }

  lemma CloseSlotsKeeps(s: State)
    requires Inv(s) && StopEnabled(s, CloseSlots)
    ensures Inv(ApplyStop(s, CloseSlots))
  {
  }

  lemma JoinNextKeeps(s: State, t: TaskId)
    requires Inv(s) && StopEnabled(s, JoinNext(t))
    ensures Inv(ApplyStop(s, JoinNext(t)))
  {
  }

  lemma JoinDoneKeeps(s: State)
    requires Inv(s) && StopEnabled(s, JoinDone)
    ensures Inv(ApplyStop(s, JoinDone))
  {
  }

  lemma ClearPeersKeeps(s: State)
    requires Inv(s) && StopEnabled(s, ClearPeers)
    ensures Inv(ApplyStop(s, ClearPeers))
  {
    ClearOk(s.table);
    ExtendedEventsOk(s.events, s.table, ApplyStop(s, ClearPeers).table);
  }

  lemma CancelShutdownKeeps(s: State)
    requires Inv(s) && StopEnabled(s, CancelShutdown)
    ensures Inv(ApplyStop(s, CancelShutdown))
  {
  }

}
