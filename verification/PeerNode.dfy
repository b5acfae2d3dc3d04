/**
 The node itself: the fields its lock-protected regions update in place, region by region.
 Each method takes the same branches as the region it models and is proved to be one step of
 the peer protocol, so what holds over every run of the protocol holds of the fields.
 */
module PeerNode {
  import opened Basics
  import opened PeerProtocol

  datatype Admission = AlreadyConnected | LimitReached | Entered(gen: Gen)

  lemma GensOfUpdate(peers: map<Addr, Conn>, addr: Addr, c: Conn)
    requires addr !in peers
    ensures CurrentGens(peers[addr := c]) == CurrentGens(peers) + {c.gen}
  {
    forall g | g in CurrentGens(peers) ensures g in CurrentGens(peers[addr := c]) {
      var a :| a in peers && peers[a].gen == g;
      assert peers[addr := c][a].gen == g;
    }
    assert peers[addr := c][addr].gen == c.gen;
  }

  /** What an insertion changes of the shared state. */
  ghost predicate InsertsAt(s: State, after: State, addr: Addr, peer: NodeId) {
    && after.table == Put(s.table, addr, peer) && after.stop == s.stop
    && after.permits.free == s.permits.free + |Displaced(s.table, addr)|
    && after.permits.limit == s.permits.limit && after.permits.closed == s.permits.closed
  }

  lemma AfterOutbound(s: State, d: DialId, addr: Addr, peer: NodeId) returns (after: State)
    requires DialEnabled(s, d, InsertOutbound(peer)) && s.dials.calls[d].addr == addr
    ensures after == ApplyDial(s, d, InsertOutbound(peer)) && InsertsAt(s, after, addr, peer)
    ensures after.tasks == s.tasks
  {
    after := ApplyDial(s, d, InsertOutbound(peer));
  }

  lemma AfterInbound(s: State, t: TaskId, peer: NodeId) returns (after: State)
    requires TaskEnabled(s, t, InsertInbound(peer))
    ensures after == ApplyTask(s, t, InsertInbound(peer)) && InsertsAt(s, after, s.tasks.live[t].addr, peer)
    ensures after.tasks == s.tasks.(live := s.tasks.live[t := Reading(s.tasks.live[t].addr, s.table.next)])
  {
    after := ApplyTask(s, t, InsertInbound(peer));
  }

  /**
   Insertion of a fresh instance into the map and the flags; the displaced connection, if any, is
   dropped: its flag goes up and its permit comes back.
   */
  method Insert(peers: map<Addr, Conn>, closed: set<Gen>, next: Gen, addr: Addr, peer: NodeId)
    returns (newPeers: map<Addr, Conn>, newClosed: set<Gen>, freed: nat)
    ensures newPeers == peers[addr := Conn(next, peer, Connected)]
    ensures newClosed == closed + (if addr in peers then {peers[addr].gen} else {})
    ensures freed == if addr in peers then 1 else 0
  {
    newPeers, newClosed, freed := peers, closed, 0;
    if addr in peers {
      newClosed, freed := closed + {peers[addr].gen}, 1;
      newPeers := peers - {addr};
    }
    newPeers := newPeers[addr := Conn(next, peer, Connected)];
  }

  class Node {
    const maxPeers: nat
    var peers: map<Addr, Conn>
    var closedFlags: set<Gen>
    var nextInstance: Gen
    var freeSlots: nat
    var slotsClosed: bool
    var live: map<TaskId, Task>
    var registry: set<TaskId>
    var registryClosed: bool
    var nextTask: TaskId
    var shutdownFlag: bool
    /** The protocol state these fields are the shared part of. */
    ghost var state: State

    /** The fields are the shared part of the protocol state. */
    ghost predicate Mirrors()
      reads this
    {
      && state.permits.limit == maxPeers
      && state.table.peers == peers && state.table.closed == closedFlags && state.table.next == nextInstance
      && state.permits.free == freeSlots && state.permits.closed == slotsClosed
      && state.tasks == Tasks(live, registry, registryClosed, nextTask)
      && state.stop.flag == shutdownFlag
    }

    constructor (maxPeers: nat)
      ensures Mirrors() && Init(state, maxPeers) && this.maxPeers == maxPeers
    {
      this.maxPeers := maxPeers;
      peers, closedFlags, nextInstance := map[], {}, 0;
      freeSlots, slotsClosed := maxPeers, false;
      live, registry, registryClosed, nextTask := map[], {}, false, 0;
      shutdownFlag := false;
      state := State(Table(map[], map[], {}, {}, 0), Events({}, []), Permits(maxPeers, maxPeers, {}, false),
                     Dials(map[], map[], None, None, 0), Tasks(map[], {}, false, 0),
                     Shutdown(false, Idle, false), {});
    }

    /** Removing an entry drops the connection: closed flag up, permit back. */
    method Drop(addr: Addr)
      requires addr in peers
      modifies this`peers, this`closedFlags, this`freeSlots
      ensures peers == old(peers) - {addr}
      ensures closedFlags == old(closedFlags) + {old(peers)[addr].gen}
      ensures freeSlots == old(freeSlots) + 1
    {
      closedFlags := closedFlags + {peers[addr].gen};
      freeSlots := freeSlots + 1;
      peers := peers - {addr};
    }

    /** A dial gives up while it still holds its permit. */
    method Abandon(ghost d: DialId)
      requires Mirrors() && d in state.dials.calls && state.dials.calls[d].Dialing?
      modifies this`freeSlots, this`state
      ensures Mirrors() && state == ApplyDial(old(state), d, EndDial)
    {
      freeSlots := freeSlots + 1;
      state := ApplyDial(state, d, EndDial);
    }

    method CommitOutbound(ghost d: DialId, addr: Addr, peer: NodeId) returns (gen: Gen)
      requires Mirrors() && DialEnabled(state, d, InsertOutbound(peer)) && state.dials.calls[d].addr == addr
      modifies this`peers, this`closedFlags, this`freeSlots, this`nextInstance, this`live, this`state
      ensures Mirrors() && state == ApplyDial(old(state), d, InsertOutbound(peer)) && gen == old(nextInstance)
    {
      gen := nextInstance;
      ghost var after := AfterOutbound(state, d, addr, peer);
      Commit(addr, peer, live, after);
    }

    /** One insertion, with the tasks it leaves behind. */
    method Commit(addr: Addr, peer: NodeId, newLive: map<TaskId, Task>, ghost after: State)
      requires Mirrors() && InsertsAt(state, after, addr, peer) && after.tasks == state.tasks.(live := newLive)
      modifies this`peers, this`closedFlags, this`freeSlots, this`nextInstance, this`live, this`state
      ensures Mirrors() && state == after
    {
      var newPeers, newClosed, freed := Insert(peers, closedFlags, nextInstance, addr, peer);
      Store(newPeers, newClosed, nextInstance + 1, freeSlots + freed, newLive, after);
    }

    /** The fields an insertion writes, all at once. */
    method Store(peers: map<Addr, Conn>, closedFlags: set<Gen>, nextInstance: Gen, freeSlots: nat, live: map<TaskId, Task>,
                 ghost state: State)
      modifies this`peers, this`closedFlags, this`nextInstance, this`freeSlots, this`live, this`state
      ensures this.peers == peers && this.closedFlags == closedFlags && this.nextInstance == nextInstance
      ensures this.freeSlots == freeSlots && this.live == live && this.state == state
    {
      this.peers, this.closedFlags, this.nextInstance := peers, closedFlags, nextInstance;
      this.freeSlots, this.live, this.state := freeSlots, live, state;
    }

    /** First half of the dial's critical section, with its two early exits. */
    method EnterOutbound(ghost d: DialId, addr: Addr, peer: NodeId) returns (outcome: Admission)
      requires Mirrors() && d in state.dials.calls && state.dials.calls[d] == Dialing(addr) && state.dials.lock.None?
      modifies this
      ensures Mirrors()
      ensures outcome.AlreadyConnected? <==> IsConnected(old(peers), addr)
      ensures outcome.LimitReached? <==> !SlotAvailable(old(peers), maxPeers, addr)
      ensures state == ApplyDial(old(state), d, if outcome.Entered? then InsertOutbound(peer) else EndDial)
      ensures outcome.Entered? ==>
                outcome.gen == old(nextInstance) && peers == old(peers)[addr := Conn(outcome.gen, peer, Connected)]
    {
      if addr in peers && peers[addr].state == Connected {
        Abandon(d);
        return AlreadyConnected;
      }
      var room := HasRoom(addr);
      if !room {
        Abandon(d);
        return LimitReached;
      }
      var gen := CommitOutbound(d, addr, peer);
      outcome := Entered(gen);
    }

    /** `ensure_peer_slot_available`. */
    method HasRoom(addr: Addr) returns (room: bool)
      ensures room == SlotAvailable(peers, maxPeers, addr)
      ensures room <==> addr in peers || |set a | a in peers && peers[a].state == Connected| < maxPeers
    {
      if addr in peers { return true; }
      room := ConnectedCount(peers) < maxPeers;
    }

    /** Second half: the reader is spawned, or the insertion is rolled back under the same lock. */
    method AdmitReaderTask(ghost d: DialId, addr: Addr, gen: Gen) returns (admitted: bool)
      requires Mirrors() && d in state.dials.calls && state.dials.calls[d] == Inserted(addr, gen) &&
               state.dials.lock == Some(d)
      modifies this
      ensures Mirrors() && state == ApplyDial(old(state), d, AdmitReader)
      ensures admitted == !registryClosed
    {
      admitted := SpawnTask(Reading(addr, gen));
      if !admitted && addr in peers && peers[addr].gen == gen { Drop(addr); }
      state := ApplyDial(state, d, AdmitReader);
    }

    /** `TaskRegistry::spawn`: refused once closed, else reap and own. */
    method SpawnTask(task: Task) returns (admitted: bool)
      modifies this`live, this`registry, this`nextTask
      ensures admitted == !registryClosed
      ensures admitted ==>
                && nextTask == old(nextTask) + 1 && live == old(live)[old(nextTask) := task]
                && registry == (set t | t in old(registry) && t in old(live)) + {old(nextTask)}
      ensures var before := Tasks(old(live), old(registry), registryClosed, old(nextTask));
              Tasks(live, registry, registryClosed, nextTask) == if admitted then Spawn(before, task) else before
    {
      if registryClosed { return false; }
      registry := registry * live.Keys;
      live := live[nextTask := task];
      registry := registry + {nextTask};
      nextTask := nextTask + 1;
      admitted := true;
    }

    method CommitInbound(t: TaskId, peer: NodeId) returns (gen: Gen)
      requires Mirrors() && TaskEnabled(state, t, InsertInbound(peer))
      modifies this`peers, this`closedFlags, this`freeSlots, this`nextInstance, this`live, this`state
      ensures Mirrors() && state == ApplyTask(old(state), t, InsertInbound(peer)) && gen == old(nextInstance)
    {
      gen := nextInstance;
      var addr := live[t].addr;
      ghost var after := AfterInbound(state, t, peer);
      Commit(addr, peer, live[t := Reading(addr, gen)], after);
    }

    /** The write-locked region of an inbound handshake, with its limit check. */
    method EnterInbound(t: TaskId, peer: NodeId) returns (outcome: Admission)
      requires Mirrors() && t in live && live[t].Incoming? && state.dials.lock.None?
      modifies this
      ensures Mirrors() && !outcome.AlreadyConnected?
      ensures outcome.LimitReached? <==> !SlotAvailable(old(peers), maxPeers, old(live)[t].addr)
      ensures state == ApplyTask(old(state), t, if outcome.Entered? then InsertInbound(peer) else EndTask)
      ensures outcome.Entered? ==>
                && outcome.gen == old(nextInstance)
                && peers == old(peers)[old(live)[t].addr := Conn(outcome.gen, peer, Connected)]
                && live == old(live)[t := Reading(old(live)[t].addr, outcome.gen)]
    {
      var room := HasRoom(live[t].addr);
      if !room {
        freeSlots := freeSlots + 1;
        live := live - {t};
        state := ApplyTask(state, t, EndTask);
        return LimitReached;
      }
      var gen := CommitInbound(t, peer);
      outcome := Entered(gen);
    }

    /** `remove_connection_if_current`, and the notice its callers make of a connected instance. */
    method TakeOut(addr: Addr, gen: Gen) returns (notice: Option<Notice>)
      modifies this`peers, this`closedFlags, this`freeSlots
      ensures !(addr in old(peers) && old(peers)[addr].gen == gen) ==>
                notice.None? && peers == old(peers) && closedFlags == old(closedFlags) && freeSlots == old(freeSlots)
      ensures addr in old(peers) && old(peers)[addr].gen == gen ==>
                && peers == old(peers) - {addr} && closedFlags == old(closedFlags) + {gen}
                && freeSlots == old(freeSlots) + 1
                && notice == if old(peers)[addr].state == Connected
                             then Some(Notice(gen, addr, old(peers)[addr].peer, ConnectedCount(peers)))
                             else None
    {
      if addr !in peers || peers[addr].gen != gen { return None; }
      var removed := peers[addr];
      Drop(addr);
      if removed.state != Connected { return None; }
      notice := Some(Notice(gen, addr, removed.peer, ConnectedCount(peers)));
    }

    /** A writer failed on an instance it took earlier. A stale instance changes nothing. */
    method MarkPeerFailed(addr: Addr, gen: Gen) returns (notice: Option<Notice>)
      requires Mirrors() && (addr, gen) in state.snapshots && state.dials.lock.None?
      modifies this
      ensures Mirrors() && state == Apply(old(state), WriteFailed(addr, gen))
      ensures notice.Some? ==> notice.value in state.events.pending
      ensures notice.None? ==> state.events == old(state).events
    {
      state := RemoveIfCurrent(state, addr, gen);
      notice := TakeOut(addr, gen);
    }

    /** The reader of an instance cleans up after itself. */
    method CleanUp(t: TaskId) returns (notice: Option<Notice>)
      requires Mirrors() && t in live && live[t].Reading? && state.dials.lock.None?
      modifies this
      ensures Mirrors() && state == ApplyTask(old(state), t, Cleanup)
      ensures notice.Some? ==> notice.value in state.events.pending
      ensures notice.None? ==> state.events == old(state).events
    {
      state := ApplyTask(state, t, Cleanup);
      notice := TakeOut(live[t].addr, live[t].gen);
      live := live[t := Finishing];
    }

    /** `ShutdownTasks::close`: close admission and take the tasks. */
    method CloseTasks() returns (held: set<TaskId>)
      requires Mirrors() && state.stop.phase.Idle?
      modifies this
      ensures Mirrors() && state == ApplyStop(old(state), CloseRegistry)
      ensures held == old(registry) && registry == {}
    {
      registryClosed := true;
      held := registry;
      registry := {};
      state := ApplyStop(state, CloseRegistry);
    }

    /** Dropping a cancelled shutdown hands its tasks back to the registry. */
    method HandBack(held: set<TaskId>)
      requires Mirrors() && StopEnabled(state, CancelShutdown) && held == Held(state.stop.phase)
      modifies this
      ensures Mirrors() && state == ApplyStop(old(state), CancelShutdown)
      ensures registry == held
    {
      registry := held;
      state := ApplyStop(state, CancelShutdown);
    }

    /** The last region of a shutdown: every remaining connection is dropped, one by one. */
    method ClearAll() returns (count: nat)
      requires Mirrors() && state.stop.phase.Clearing? && state.dials.lock.None?
      modifies this
      ensures Mirrors() && state == ApplyStop(old(state), ClearPeers)
      ensures count == |old(peers)| && peers == map[]
    {
      count := |peers|;
      state := ApplyStop(state, ClearPeers);
      DropAll();
    }

    /** Clearing the map drops its connections one by one. */
    method DropAll()
      modifies this`peers, this`closedFlags, this`freeSlots
      ensures peers == map[] && freeSlots == old(freeSlots) + |old(peers)|
      ensures closedFlags == old(closedFlags) + CurrentGens(old(peers))
    {
      ghost var before := peers;
      while peers.Keys != {}
        invariant peers.Keys <= before.Keys && (forall a :: a in peers ==> peers[a] == before[a])
        invariant freeSlots + |peers| == old(freeSlots) + |before|
        invariant closedFlags == old(closedFlags) + CurrentGens(before - peers.Keys)
        decreases |peers|
      {
        var addr :| addr in peers;
        assert CurrentGens(before - (peers - {addr}).Keys) == CurrentGens(before - peers.Keys) + {before[addr].gen} by {
          assert before - (peers - {addr}).Keys == (before - peers.Keys)[addr := before[addr]];
          GensOfUpdate(before - peers.Keys, addr, before[addr]);
        }
        Drop(addr);
      }
      assert before - {} == before;
    }
  }
}
