/**
 * The peer cache: one table of reference-counted peers per bus, a sliding timer and a name watch
 * for every peer in a table, and a bus connection that is held as long as its table is not empty.
 * Every call and every callback is proved to be one step of PeerRuns.
 */
module Peers {
  import opened Wrappers
  import opened CredSpec
  import opened PeerTrace
  import opened PeerState
  import opened PeerRuns
  import opened PeerCalls
  import C = Cred

  /** DA_BUS is an int for its callers. */
  const DA_BUS_SYSTEM: int := 0
  const DA_BUS_SESSION: int := 1

  function BusOf(bus: int): Option<BusType> {
    if bus == DA_BUS_SYSTEM then Some(SystemBus) else if bus == DA_BUS_SESSION then Some(SessionBus) else None
  }

  /** The groups buffer is allocated for a Groups line with words. */
  predicate HasGroups(v: Values) {
    v.groups.Some? && Words(v.groups.value) != []
  }

  class PeerCache {
    // The static bus records
    var buses: map<BusType, Bus>
    // The peers that are allocated
    var memory: map<Ptr, Peer>
    var next_ptr: Ptr
    // The main loop
    var timers: map<nat, Timer>
    var watches: map<nat, Ptr>
    var next_id: nat
    var now: nat
    /** How often the bus was asked for a process id. */
    var calls: nat
    ghost var finalized: set<Ptr>
    ghost var held: map<Ptr, nat>
    ghost var trace: seq<Event>

    ghost function S(): State
      reads this
    {
      State(buses, memory, next_ptr, finalized, timers, watches, next_id, now, held, trace)
    }

    ghost predicate Valid()
      reads this
    {
      S().Valid()
    }

    constructor ()
      ensures Initial(S()) && Valid()
    {
      buses := map[SystemBus := Bus(None, false), SessionBus := Bus(None, false)];
      memory, next_ptr := map[], 0;
      timers, watches, next_id, now, calls := map[], map[], 1, 0, 0;
      finalized, held, trace := {}, map[], [];
      new;
      InitiallyValid(S());
    }

    /** Time passes. */
    method PassTime(seconds: nat)
      requires Valid()
      modifies this`now, this`trace
      ensures Next(old(S()), Pass(seconds), S()) && Valid()
      ensures now == old(now) + seconds
    {
      hide State.Valid;
      now := now + seconds;
      trace := trace + [Tick(seconds)];
      NextKeeps(old(S()), Pass(seconds), S());
    }

    // Sources: only pending ones may be removed, and blocks are freed without their buffers

    method RemoveSource(id: nat)
      requires id in timers
      modifies this`timers
      ensures timers == old(timers) - {id}
    {
      timers := timers - {id};
    }

    method Unwatch(id: nat)
      requires id in watches
      modifies this`watches
      ensures watches == old(watches) - {id}
    {
      watches := watches - {id};
    }

    method FreeBlock(p: Ptr)
      requires p in memory && !memory[p].groups
      modifies this`memory, this`finalized
      ensures memory == old(memory) - {p} && finalized == old(finalized) + {p}
    {
      memory := memory - {p};
      finalized := finalized + {p};
    }

    /** The peer's timer and watch are pending or stopped. */
    ghost predicate Stoppable(p: Ptr)
      reads this`memory, this`timers, this`watches
    {
      && p in memory
      && 0 !in timers && 0 !in watches
      && (memory[p].timeout_id != 0 ==> memory[p].timeout_id in timers)
      && (memory[p].name_watch_id != 0 ==> memory[p].name_watch_id in watches)
    }

    // References

    /** da_peer_ref, for a peer that the caller got or still holds. */
    method TakeRef(p: Ptr)
      requires Valid() && p in memory
      modifies this`memory, this`held
      ensures Next(old(S()), Ref(p), S()) && Valid()
      ensures memory == old(memory)[p := old(memory)[p].(ref_count := old(memory)[p].ref_count + 1)]
    {
      hide State.Valid;
      memory := memory[p := memory[p].(ref_count := memory[p].ref_count + 1)];
      held := held[p := old(S()).Held(p) + 1];
      NextKeeps(old(S()), Ref(p), S());
    }

    /** da_peer_finalize, and the block is freed. */
    method FinalizePeer(p: Ptr)
      requires Stoppable(p)
      modifies this`timers, this`watches, this`memory, this`finalized
      ensures watches == old(watches) - {old(memory)[p].name_watch_id}
      ensures timers == old(timers) - {old(memory)[p].timeout_id}
      ensures memory == old(memory) - {p} && finalized == old(finalized) + {p}
    {
      if memory[p].name_watch_id != 0 {
        Unwatch(memory[p].name_watch_id);
      }
      if memory[p].timeout_id != 0 {
        RemoveSource(memory[p].timeout_id);
      }
      if memory[p].groups {
        memory := memory[p := memory[p].(groups := false)];
      }
      FreeBlock(p);
    }

    /** da_peer_unref: the last reference finalizes the peer. */
    method Release(p: Ptr)
      requires Stoppable(p)
      modifies this`timers, this`watches, this`memory, this`finalized
      ensures if old(memory)[p].ref_count == 1 then
          && watches == old(watches) - {old(memory)[p].name_watch_id}
          && timers == old(timers) - {old(memory)[p].timeout_id}
          && memory == old(memory) - {p} && finalized == old(finalized) + {p}
        else
          && watches == old(watches) && timers == old(timers) && finalized == old(finalized)
          && memory == old(memory)[p := old(memory)[p].(ref_count := old(memory)[p].ref_count - 1)]
    {
      memory := memory[p := memory[p].(ref_count := memory[p].ref_count - 1)];
      if memory[p].ref_count == 0 {
        FinalizePeer(p);
      }
    }

    /** da_peer_unref by a caller that holds a reference. */
    method DropRef(p: Ptr)
      requires Valid() && S().Held(p) > 0
      modifies this`timers, this`watches, this`memory, this`finalized, this`held
      ensures Next(old(S()), Unref(p), S()) && Valid()
      ensures p in old(memory) && timers == old(timers) && watches == old(watches)
      ensures if old(memory)[p].ref_count == 1 then memory == old(memory) - {p} && p in finalized
        else memory == old(memory)[p := old(memory)[p].(ref_count := old(memory)[p].ref_count - 1)]
    {
      hide State.Valid;
      ghost var s := S();
      HeldPeer(s, p);
      Release(p);
      assert timers == s.timers && watches == s.watches;
      held := if s.Held(p) == 1 then held - {p} else held[p := s.Held(p) - 1];
      ghost var t := S();
      assert Unreferenced(s, t, p);
      hide Unreferenced;
      NextKeeps(s, Unref(p), t);
    }

    // Leaving a table

    /** da_peer_dispose */
    method Dispose(p: Ptr)
      requires Stoppable(p)
      modifies this`timers, this`watches, this`memory
      ensures watches == old(watches) - {old(memory)[p].name_watch_id}
      ensures timers == old(timers) - {old(memory)[p].timeout_id}
      ensures memory == old(memory)[p := old(memory)[p].(timeout_id := 0, name_watch_id := 0)]
    {
      if memory[p].name_watch_id != 0 {
        Unwatch(memory[p].name_watch_id);
        memory := memory[p := memory[p].(name_watch_id := 0)];
      }
      if memory[p].timeout_id != 0 {
        RemoveSource(memory[p].timeout_id);
        memory := memory[p := memory[p].(timeout_id := 0)];
      }
    }

    /** da_peer_cleanup: an empty table goes, and the connection with it. */
    method Cleanup(b: BusType)
      requires b in buses && buses[b].peers.Some?
      modifies this`buses
      ensures buses == old(buses)[b := if old(buses)[b].peers.value == map[] then Bus(None, false) else old(buses)[b]]
    {
      if |buses[b].peers.value| == 0 {
        buses := buses[b := buses[b].(peers := None)];
        if buses[b].connection {
          buses := buses[b := buses[b].(connection := false)];
        }
      }
    }

    /** da_peer_remove, for a peer in its table. */
    method Remove(p: Ptr)
      requires Stoppable(p)
      requires var peer := memory[p];
        && peer.bus in buses && buses[peer.bus].peers.Some? && buses[peer.bus].connection
        && peer.name in buses[peer.bus].peers.value && buses[peer.bus].peers.value[peer.name] == p
      modifies this`buses, this`timers, this`watches, this`memory, this`finalized
      ensures var peer := old(memory)[p];
        && buses == old(buses)[peer.bus := BusFor(old(buses)[peer.bus].peers.value - {peer.name})]
        && watches == old(watches) - {peer.name_watch_id} && timers == old(timers) - {peer.timeout_id}
        && if peer.ref_count == 1 then memory == old(memory) - {p} && finalized == old(finalized) + {p}
           else memory == old(memory)[p := Stopped(peer)] && finalized == old(finalized)
    {
      var b := memory[p].bus;
      var name := memory[p].name;
      Dispose(p);
      buses := buses[b := buses[b].(peers := Some(buses[b].peers.value - {name}))];
      ghost var stopped := timers;
      ghost var unwatched := watches;
      Release(p);
      assert timers == stopped && watches == unwatched;
      Cleanup(b);
    }

    /** The peer has left the table it was in, and nobody but the callers who hold it knows it any more. */
    ghost predicate Leaves(s: State, p: Ptr)
      reads this
    {
      && p in s.memory && s.Cached(p) && Forgotten(s, S(), p)
      && (forall b :: S().Table(b) == if b == s.memory[p].bus then s.Table(b) - {s.memory[p].name} else s.Table(b))
    }

    /** da_peer_timeout: the main loop removes the source when the callback returns. */
    method Timeout(id: nat)
      requires Valid() && id in timers && timers[id].due <= now
      modifies this`buses, this`timers, this`watches, this`memory, this`finalized, this`trace
      ensures Next(old(S()), TimeOut(old(timers)[id].data), S()) && Valid()
      ensures id !in timers && Leaves(old(S()), old(timers)[id].data)
    {
      hide State.Valid, State.Cached, State.Watched, State.Table, Next, Due;
      ghost var s := S();
      var p := timers[id].data;
      TimedPeer(s, id);
      CachedPeer(s, p);
      var b, name := memory[p].bus, memory[p].name;
      memory := memory[p := memory[p].(timeout_id := 0)];
      Remove(p);
      assert timers == s.timers - {0} == s.timers;
      timers := timers - {id};
      trace := trace + [Expire(b, name)];
      DueNow(s, p, id);
      RemovalIsStep(s, S(), TimeOut(p));
      RemovalForgets(s, S(), TimeOut(p));
    }

    /** da_peer_vanished */
    method Vanished(id: nat)
      requires Valid() && id in watches
      modifies this`buses, this`timers, this`watches, this`memory, this`finalized, this`trace
      ensures Next(old(S()), Disappear(old(watches)[id]), S()) && Valid()
      ensures id !in watches && Leaves(old(S()), old(watches)[id])
    {
      hide State.Valid, State.Cached, State.Watched, State.Table, Next, Due;
      ghost var s := S();
      var p := watches[id];
      WatchedPeer(s, id);
      CachedPeer(s, p);
      var b, name := memory[p].bus, memory[p].name;
      Remove(p);
      trace := trace + [Vanish(b, name)];
      RemovalIsStep(s, S(), Disappear(p));
      RemovalForgets(s, S(), Disappear(p));
    }

    // da_peer_get

    /** da_peer_bus: the record of a bus that is connected; connects tells whether g_bus_get_sync succeeds. */
    method GetBus(bus: int, initialize: bool, connects: bool) returns (r: Option<BusType>)
      requires SystemBus in buses && SessionBus in buses
      modifies this`buses
      ensures if BusOf(bus).Some? && (old(buses)[BusOf(bus).value].connection || (initialize && connects)) then
          var b := BusOf(bus).value;
          r == Some(b) && buses == old(buses)[b := Bus(Some(old(buses)[b].peers.GetOr(map[])), true)]
        else r == None && buses == old(buses)
      ensures r.Some? ==> (bus == 0 && r.value == SystemBus) || (bus == 1 && r.value == SessionBus)
      ensures bus == 0 && (old(buses)[SystemBus].connection || (initialize && connects)) ==> r.Some?
      ensures bus == 1 && (old(buses)[SessionBus].connection || (initialize && connects)) ==> r.Some?
      ensures SystemBus in buses && (bus != 0 ==> buses[SystemBus] == old(buses)[SystemBus])
      ensures SessionBus in buses && (bus != 1 ==> buses[SessionBus] == old(buses)[SessionBus])
    {
      if bus != DA_BUS_SYSTEM && bus != DA_BUS_SESSION {
        return None;
      }
      var b := if bus == DA_BUS_SYSTEM then SystemBus else SessionBus;
      if !buses[b].connection && initialize {
        buses := buses[b := buses[b].(connection := connects)];
      }
      if buses[b].connection {
        if buses[b].peers.None? {
          buses := buses[b := buses[b].(peers := Some(map[]))];
        }
        return Some(b);
      } else {
        return None;
      }
    }

    /** da_peer_reset_timeout */
    method ResetTimeout(p: Ptr)
      requires p in memory && 0 !in timers && (memory[p].timeout_id != 0 ==> memory[p].timeout_id in timers)
      modifies this`timers, this`memory, this`next_id
      ensures timers == (old(timers) - {old(memory)[p].timeout_id})[old(next_id) := Timer(p, now + 30)]
      ensures memory == old(memory)[p := old(memory)[p].(timeout_id := old(next_id))] && next_id == old(next_id) + 1
    {
      if memory[p].timeout_id != 0 {
        RemoveSource(memory[p].timeout_id);
      }
      timers := timers[next_id := Timer(p, now + TIMEOUT_SEC)];
      memory := memory[p := memory[p].(timeout_id := next_id)];
      next_id := next_id + 1;
    }

    /** da_peer_new */
    method NewPeer(b: BusType, name: string) returns (p: Ptr)
      requires 0 !in timers
      modifies this`memory, this`next_ptr, this`timers, this`watches, this`next_id
      ensures p == old(next_ptr) && next_ptr == p + 1 && next_id == old(next_id) + 2
      ensures memory == old(memory)[p := Peer(b, name, 0, None, false, 1, old(next_id), old(next_id) + 1)]
      ensures timers == old(timers)[old(next_id) := Timer(p, now + 30)]
      ensures watches == old(watches)[old(next_id) + 1 := p]
    {
      p := next_ptr;
      next_ptr := next_ptr + 1;
      memory := memory[p := Peer(b, name, 0, None, false, 1, 0, 0)];
      ResetTimeout(p);
      watches := watches[next_id := p];
      memory := memory[p := memory[p].(name_watch_id := next_id)];
      next_id := next_id + 1;
    }

    /** da_peer_fill_cred: status is the text of the process's status file, if it can be read. */
    method FillCred(p: Ptr, status: Option<string>) returns (ok: bool)
      requires p in memory && memory[p].cred.None? && !memory[p].groups
      modifies this`memory
      ensures ok == Credentials(status).Some?
      ensures memory == old(memory)[p := Filled(old(memory)[p], status)]
      ensures memory[p].groups <==>
        status.Some? && var v := FirstValues(Lines(status.value)); v.groups.Some? && Words(v.groups.value) != []
    {
      if status.Some? {
        var cred := new C.Cred();
        var priv := new C.CredPriv();
        ok := C.Parse(cred, priv, status.value);
        memory := memory[p := memory[p].(cred := Some(FirstValues(Lines(status.value))),
          groups := priv.groups != null)];
      } else {
        ok := false;
      }
    }

    /**
     * da_peer_get. A cached peer only has its timer restarted. Otherwise the bus is asked once, and
     * the peer is created and cached if the process id and both effective ids become known; if not,
     * nothing remains of the attempt.
     */
    method Get(bus: int, name: Option<string>, connects: bool, reply: Option<nat>, status: Option<string>)
      returns (r: Option<Ptr>)
      requires Valid()
      modifies this
      ensures Valid()
      ensures if name.None? || BusOf(bus).None? || !(old(S()).buses[BusOf(bus).value].connection || connects) then
          r == None && S() == old(S()) && calls == old(calls)
        else
          var s, b := old(S()), BusOf(bus).value;
          if name.value in s.Table(b) then
            r == Some(s.Table(b)[name.value]) && Next(s, Touch(r.value), S()) && calls == old(calls)
          else if reply.Some? && Credentials(status).Some? then
            && r == Some(s.next_ptr) && calls == old(calls) + 1
            && Next(s, Create(Fetched(s, b, name.value, reply.value, Credentials(status).value)), S())
          else
            r == None && Next(s, Miss(reply.Some?), S()) && calls == old(calls) + 1
      ensures bus == 0 && (old(S()).buses[SystemBus].connection || connects) ==>
        Gets(old(S()), S(), SystemBus, name, r)
      ensures bus == 1 && (old(S()).buses[SessionBus].connection || connects) ==>
        Gets(old(S()), S(), SessionBus, name, r)
      ensures bus != 0 && bus != 1 ==> r == None && S() == old(S())
      ensures r.Some? && r.value !in old(memory) ==>
        && reply.Some? && status.Some? && r.value in memory
        && memory[r.value].pid == reply.value && memory[r.value].cred == Some(FirstValues(Lines(status.value)))
    {
      hide State.Valid, State.Table, Credentials, Fetched, Gets, Next;
      BothBuses(S());
      NothingGot(S());
      if name.None? {
        return None;
      }
      ghost var s := S();
      var found := GetBus(bus, true, connects);
      if found.None? {
        return None;
      }
      r := GetFrom(found.value, name.value, reply, status, s);
    }

    /** The rest of da_peer_get, on a connected bus. */
    method GetFrom(b: BusType, name: string, reply: Option<nat>, status: Option<string>, ghost s: State)
      returns (r: Option<Ptr>)
      requires s.Valid() && b in s.buses
      requires S() == s.(buses := s.buses[b := Bus(Some(s.Table(b)), true)])
      modifies this
      ensures Valid() && Gets(s, S(), b, Some(name), r)
      ensures calls == old(calls) + if name in s.Table(b) then 0 else 1
      ensures if name in s.Table(b) then r == Some(s.Table(b)[name]) && Next(s, Touch(r.value), S())
        else if reply.Some? && Credentials(status).Some? then
          r == Some(s.next_ptr) && Next(s, Create(Fetched(s, b, name, reply.value, Credentials(status).value)), S())
        else r == None && Next(s, Miss(reply.Some?), S())
      ensures r.Some? && r.value !in s.memory ==>
        && reply.Some? && status.Some? && r.value in memory
        && memory[r.value].pid == reply.value && memory[r.value].cred == Some(FirstValues(Lines(status.value)))
    {
      hide State.Valid, State.Table, Credentials, Fetched, Gets, Next;
      var table := buses[b].peers.value;
      if name in table {
        InTable(s, b, name);
        assert buses == s.buses;
        r := Some(table[name]);
        Revive(b, name, r.value);
      } else {
        r := Ask(b, name, reply, status, s);
      }
    }

    /** A hit restarts the timer of the cached peer. */
    method Revive(b: BusType, name: string, ghost p: Ptr)
      requires Valid() && b in buses && buses[b].peers.Some? && name in buses[b].peers.value
        && buses[b].peers.value[name] == p
      modifies this`timers, this`memory, this`next_id, this`trace
      ensures Valid() && Next(old(S()), Touch(p), S())
      ensures Gets(old(S()), S(), b, Some(name), Some(p)) && p in old(memory)
    {
      hide State.Valid;
      ghost var s := S();
      InTable(s, b, name);
      ResetTimeout(buses[b].peers.value[name]);
      trace := trace + [Hit(b, name)];
      hide State.Cached, State.Table;
      NextKeeps(s, Touch(p), S());
      TouchGets(s, S(), b, name);
    }

    /** The rest of da_peer_get, for a name that is not in the table. */
    method Ask(b: BusType, name: string, reply: Option<nat>, status: Option<string>, ghost s: State)
      returns (r: Option<Ptr>)
      requires s.Valid() && b in s.buses && name !in s.Table(b)
      requires S() == s.(buses := s.buses[b := Bus(Some(s.Table(b)), true)])
      modifies this
      ensures Valid() && calls == old(calls) + 1
      ensures if reply.Some? && Credentials(status).Some? then
          r == Some(s.next_ptr) && Next(s, Create(Fetched(s, b, name, reply.value, Credentials(status).value)), S())
        else r == None && Next(s, Miss(reply.Some?), S())
      ensures Gets(s, S(), b, Some(name), r)
      ensures r.Some? ==>
        && reply.Some? && status.Some? && r.value in memory
        && memory[r.value].pid == reply.value && memory[r.value].cred == Some(FirstValues(Lines(status.value)))
    {
      hide State.Valid, State.Table, Credentials, Fetched, Next;
      Fresh(s, b);
      calls := calls + 1;
      r := None;
      if reply.Some? {
        r := Answered(b, name, reply.value, status, s);
      }
      if r.None? {
        GiveUp(b, reply.Some?, s);
        MissGets(s, S(), b, name, reply.Some?);
      } else {
        FetchedGets(s, S(), b, name, reply.value, status);
      }
    }

    /** The bus has told the process id: the peer is created, and it is cached or finalized at once. */
    method Answered(b: BusType, name: string, pid: nat, status: Option<string>, ghost s: State) returns (r: Option<Ptr>)
      requires s.Valid() && b in s.buses && name !in s.Table(b)
      requires S() == s.(buses := s.buses[b := Bus(Some(s.Table(b)), true)])
      modifies this`buses, this`memory, this`next_ptr, this`timers, this`watches, this`next_id, this`finalized,
        this`trace
      ensures if Credentials(status).Some? then
          && r == Some(s.next_ptr) && Valid()
          && Next(s, Create(Fetched(s, b, name, pid, Credentials(status).value)), S())
        else
          && r == None && buses == old(buses)
          && S() == s.(buses := buses, next_ptr := s.next_ptr + 1, next_id := s.next_id + 2,
                       finalized := s.finalized + {s.next_ptr})
    {
      hide State.Valid, State.Table, HasGroups, Lines, FirstValues, Next;
      Fresh(s, b);
      var p, ok := NewFilledPeer(b, name, status);
      assert S() == WithNewPeer(s, memory[p]).(buses := s.buses[b := Bus(Some(s.Table(b)), true)]);
      if ok {
        CachePeer(b, p, pid, Credentials(status).value, s);
        r := Some(p);
      } else {
        Discard(p, s);
        r := None;
      }
    }

    /** A get was not successful: a bus that was connected for it is left again. */
    method GiveUp(b: BusType, ghost answered: bool, ghost s: State)
      requires s.Valid() && b in s.buses
      requires S().buses == s.buses[b := Bus(Some(s.Table(b)), true)] && Missed(s, S().(buses := s.buses), answered)
      modifies this`buses
      ensures Valid() && Next(s, Miss(answered), S())
    {
      hide State.Valid, State.Table;
      Fresh(s, b);
      Cleanup(b);
      assert buses == s.buses;
      NextKeeps(s, Miss(answered), S());
    }

    /** A get was successful: cache this info. */
    method CachePeer(b: BusType, p: Ptr, pid: nat, ghost v: Values, ghost s: State)
      requires s.Valid() && b in s.buses && p == s.next_ptr && p in memory && memory[p].name !in s.Table(b)
      requires memory[p] == Fetched(s, b, memory[p].name, 0, v)
      requires S() == WithNewPeer(s, memory[p]).(buses := s.buses[b := Bus(Some(s.Table(b)), true)])
      modifies this`memory, this`buses, this`trace
      ensures Valid() && Next(s, Create(Fetched(s, b, old(memory)[p].name, pid, v)), S())
    {
      hide State.Valid, State.Table, HasGroups, Next;
      ghost var peer := memory[p].(pid := pid);
      Overwritten(s.memory, p, memory[p], peer);
      memory := memory[p := memory[p].(pid := pid)];
      buses := buses[b := buses[b].(peers := Some(buses[b].peers.value[memory[p].name := p]))];
      trace := trace + [Fetch(b, peer.name, pid, v)];
      ghost var t := S();
      Completed(s, t, b, peer);
      NextKeeps(s, Create(peer), t);
    }

    /** A get was not successful: the only reference to its peer goes, and the timer and the watch with it. */
    method Discard(p: Ptr, ghost s: State)
      requires Stoppable(p) && p == s.next_ptr && memory[p].ref_count == 1
      requires p !in s.memory && s.next_id !in s.timers && s.next_id + 1 !in s.watches
      requires memory[p].timeout_id == s.next_id && memory[p].name_watch_id == s.next_id + 1
      requires S() == WithNewPeer(s, memory[p]).(buses := buses)
      modifies this`timers, this`watches, this`memory, this`finalized
      ensures S() == s.(buses := buses, next_ptr := p + 1, next_id := s.next_id + 2, finalized := s.finalized + {p})
    {
      Undone(s.memory, p, memory[p]);
      Undone(s.timers, s.next_id, Timer(p, now + TIMEOUT_SEC));
      Undone(s.watches, s.next_id + 1, p);
      Release(p);
    }

    /** The peer that a get creates, with what its status text says. */
    method NewFilledPeer(b: BusType, name: string, status: Option<string>) returns (p: Ptr, ok: bool)
      requires 0 !in timers
      modifies this`memory, this`next_ptr, this`timers, this`watches, this`next_id
      ensures p == old(next_ptr) && p in memory && ok == Credentials(status).Some?
      ensures memory[p] == Filled(Peer(b, name, 0, None, false, 1, old(next_id), old(next_id) + 1), status)
      ensures S() == WithNewPeer(old(S()), memory[p])
    {
      p := NewPeer(b, name);
      ghost var peer := memory[p];
      hide Filled, Credentials;
      ok := FillCred(p, status);
      Overwritten(old(memory), p, peer, Filled(peer, status));
    }

    // da_peer_flush

    /** Forgets one name or a whole bus; a bus that is not connected has nothing to forget. */
    method Flush(bus: int, name: Option<string>)
      requires Valid()
      modifies this`buses, this`timers, this`watches, this`memory, this`finalized, this`trace
      ensures Valid()
      ensures if BusOf(bus).None? || !old(S()).buses[BusOf(bus).value].connection then S() == old(S())
        else
          var s, b := old(S()), BusOf(bus).value;
          if name.None? then Next(s, FlushAll(b), S())
          else if name.value in s.Table(b) then Next(s, Action.Flush(s.Table(b)[name.value]), S())
          else S() == s
      ensures bus == 0 ==> Flushes(old(S()), S(), SystemBus, name)
      ensures bus == 1 ==> Flushes(old(S()), S(), SessionBus, name)
      ensures bus != 0 && bus != 1 ==> S() == old(S())
    {
      hide State.Valid, State.Table, Next, Flushes;
      BothBuses(S());
      ghost var s := S();
      var found := GetBus(bus, false, false);
      if found.None? {
        if bus == 0 || bus == 1 {
          NothingFlushed(s, if bus == 0 then SystemBus else SessionBus, name);
        }
        return;
      }
      var b := found.value;
      assert buses == s.buses;
      assert buses[b].peers == Some(s.Table(b));
      if name.None? {
        FlushTable(b);
        BusFlushed(s, S(), b);
      } else if name.value in buses[b].peers.value {
        FlushPeer(b, name.value);
        NameFlushed(s, S(), b, name.value);
      } else {
        NothingFlushed(s, b, name);
      }
    }

    method FlushPeer(b: BusType, name: string)
      requires Valid() && b in buses && buses[b].peers.Some? && name in buses[b].peers.value
      modifies this`buses, this`timers, this`watches, this`memory, this`finalized, this`trace
      ensures Valid() && Next(old(S()), Action.Flush(old(S()).Table(b)[name]), S())
    {
      hide State.Valid, State.Cached, State.Watched, Next, Due;
      ghost var s := S();
      var p := buses[b].peers.value[name];
      InTable(s, b, name);
      CachedPeer(s, p);
      Remove(p);
      trace := trace + [FlushName(b, name)];
      RemovalIsStep(s, S(), Action.Flush(p));
    }

    /** First all timers and watches of the table are stopped, then the table gives all its references back. */
    method FlushTable(b: BusType)
      requires Valid() && b in buses && buses[b].peers.Some?
      modifies this`buses, this`timers, this`watches, this`memory, this`finalized, this`trace
      ensures Valid() && Next(old(S()), FlushAll(b), S())
    {
      hide State.Valid, State.Table, TimersBut, WatchesBut, MemoryBut, Quiet, Last, State.Cached, Next;
      ghost var s := S();
      var table := buses[b].peers.value;
      BothBuses(s);
      assert table == s.Table(b);
      TableCached(s, b);
      DisposeAll(table.Values, s);
      ZeroesGone(s, table.Values);
      buses := buses[b := buses[b].(peers := Some(map[]))];
      ReleaseAll(table.Values, s.memory);
      Cleanup(b);
      assert buses == s.buses[b := Bus(None, false)];
      trace := trace + [PeerTrace.FlushBus(b)];
      ghost var t := S();
      DroppedAll(s, t, b);
      NextKeeps(s, FlushAll(b), t);
    }

    method DisposeAll(peers: set<Ptr>, ghost s: State)
      requires s == S() && s.Valid() && forall p :: p in peers ==> s.Cached(p)
      modifies this`timers, this`watches, this`memory
      ensures timers == TimersBut(s.timers, peers) && watches == WatchesBut(s.watches, peers)
      ensures memory == Quiet(s.memory, peers)
    {
      hide State.Valid, State.Cached;
      NoneStopped(s);
      var todo := peers;
      while todo != {}
        invariant todo <= peers
        invariant timers == TimersBut(s.timers, peers - todo) && watches == WatchesBut(s.watches, peers - todo)
        invariant memory == Quiet(s.memory, peers - todo)
      {
        var p :| p in todo;
        ghost var done := peers - todo;
        StopsNext(s, done, p);
        Dispose(p);
        todo := todo - {p};
        assert peers - todo == done + {p};
      }
      assert peers - todo == peers;
    }

    method ReleaseAll(peers: set<Ptr>, ghost m: map<Ptr, Peer>)
      requires memory == Quiet(m, peers) && peers <= m.Keys && 0 !in timers && 0 !in watches
      modifies this`timers, this`watches, this`memory, this`finalized
      ensures timers == old(timers) && watches == old(watches)
      ensures memory == MemoryBut(m, peers) && finalized == old(finalized) + Last(m, peers)
    {
      hide Releasing, Quiet, MemoryBut, Last;
      var todo := peers;
      assert peers - todo == {};
      NoneReleased(m, peers);
      while todo != {}
        invariant todo <= peers
        invariant timers == old(timers) && watches == old(watches)
        invariant memory == Releasing(m, peers, peers - todo) && finalized == old(finalized) + Last(m, peers - todo)
      {
        var p :| p in todo;
        ghost var done := peers - todo;
        ReleasesNext(m, peers, done, p);
        Release(p);
        todo := todo - {p};
        assert peers - todo == done + {p};
      }
      assert peers - todo == peers;
      AllReleased(m, peers);
    }
  }

  /** These peers with their timers and watches stopped. */
  function Quiet(memory: map<Ptr, Peer>, done: set<Ptr>): map<Ptr, Peer> {
    map p | p in memory :: if p in done then memory[p].(timeout_id := 0, name_watch_id := 0) else memory[p]
  }

  /** The memory while some of the quiet peers have lost the table's reference. */
  function Releasing(memory: map<Ptr, Peer>, peers: set<Ptr>, done: set<Ptr>): map<Ptr, Peer> {
    map p | p in memory && p !in Last(memory, done) ::
      if p in done then Stopped(memory[p]) else Quiet(memory, peers)[p]
  }

  lemma {:induction false} QuietNext(m: map<Ptr, Peer>, done: set<Ptr>, p: Ptr)
    requires p in m && p !in done
    ensures p in Quiet(m, done) && Quiet(m, done)[p] == m[p]
    ensures Quiet(m, done + {p}) == Quiet(m, done)[p := m[p].(timeout_id := 0, name_watch_id := 0)]
  {
  }

  /** The next peer to stop has its own timer and watch pending still. */
  lemma {:induction false} StopsNext(s: State, done: set<Ptr>, p: Ptr)
    requires s.Valid() && s.Cached(p) && p !in done
    ensures p in s.memory && p in Quiet(s.memory, done) && Quiet(s.memory, done)[p] == s.memory[p]
    ensures Quiet(s.memory, done + {p}) == Quiet(s.memory, done)[p := s.memory[p].(timeout_id := 0, name_watch_id := 0)]
    ensures 0 !in TimersBut(s.timers, done) && s.memory[p].timeout_id in TimersBut(s.timers, done)
    ensures 0 !in WatchesBut(s.watches, done) && s.memory[p].name_watch_id in WatchesBut(s.watches, done)
    ensures TimersBut(s.timers, done + {p}) == TimersBut(s.timers, done) - {s.memory[p].timeout_id}
    ensures WatchesBut(s.watches, done + {p}) == WatchesBut(s.watches, done) - {s.memory[p].name_watch_id}
  {
    hide State.TimersValid, State.WatchesValid, State.TablesValid, State.PeersValid, State.MemoryValid,
         State.BusesValid, State.HistoryValid;
    CachedPeer(s, p);
    hide State.Cached, State.Table;
    OneMoreStopped(s, done, p);
    QuietNext(s.memory, done, p);
    hide Quiet;
  }

  lemma {:induction false} NoneReleased(m: map<Ptr, Peer>, peers: set<Ptr>)
    ensures Releasing(m, peers, {}) == Quiet(m, peers) && Last(m, {}) == {}
  {
  }

  lemma {:induction false} AllReleased(m: map<Ptr, Peer>, peers: set<Ptr>)
    ensures Releasing(m, peers, peers) == MemoryBut(m, peers)
  {
  }

  /** The next peer to be released is quiet, so only the block may go. */
  lemma {:induction false} ReleasesNext(m: map<Ptr, Peer>, peers: set<Ptr>, done: set<Ptr>, p: Ptr)
    requires p in m && p in peers && p !in done
    ensures p in Releasing(m, peers, done)
    ensures var peer := Releasing(m, peers, done)[p];
      && peer.timeout_id == 0 && peer.name_watch_id == 0 && peer.ref_count == m[p].ref_count
      && Releasing(m, peers, done + {p}) ==
           if peer.ref_count == 1 then Releasing(m, peers, done) - {p}
           else Releasing(m, peers, done)[p := peer.(ref_count := peer.ref_count - 1)]
    ensures Last(m, done + {p}) == Last(m, done) + if m[p].ref_count == 1 then {p} else {}
  {
  }

  /** Ids are never 0. */
  lemma {:induction false} ZeroesGone(s: State, gone: set<Ptr>)
    requires s.Valid()
    ensures 0 !in TimersBut(s.timers, gone) && 0 !in WatchesBut(s.watches, gone)
  {
  }

  /** What is left when a table is flushed. */
  lemma {:induction false} DroppedAll(s: State, t: State, b: BusType)
    requires s.Valid() && t.buses == s.buses[b := Bus(None, false)] && t.trace == s.trace + [PeerTrace.FlushBus(b)]
    requires var gone := s.Table(b).Values;
      && t.timers == TimersBut(s.timers, gone) && t.watches == WatchesBut(s.watches, gone)
      && t.memory == MemoryBut(s.memory, gone) && t.finalized == s.finalized + Last(s.memory, gone)
      && t == s.(buses := t.buses, timers := t.timers, watches := t.watches, memory := t.memory,
                 finalized := t.finalized, trace := t.trace)
    ensures Next(s, FlushAll(b), t)
  {
    hide State.Valid, State.Cached, State.Table, TimersBut, WatchesBut, MemoryBut, Last;
    TableCached(s, b);
    assert Without(s.Table(b), s.Table(b).Values) == map[];
  }

  lemma {:induction false} TableCached(s: State, b: BusType)
    requires s.Valid()
    ensures forall p :: p in s.Table(b).Values ==> p in s.memory && s.Cached(p) && s.memory[p].bus == b
  {
  }

  /** A new peer with credentials in the table is all that a successful get leaves behind. */
  lemma {:induction false} Completed(s: State, t: State, b: BusType, peer: Peer)
    requires peer == Fetched(s, b, peer.name, peer.pid, peer.cred.GetOr(NOTHING)) && peer.name !in s.Table(b)
    requires t.buses == s.buses[b := Bus(Some(s.Table(b)[peer.name := s.next_ptr]), true)]
    requires t.memory == s.memory[s.next_ptr := peer]
    requires t.timers == s.timers[s.next_id := Timer(s.next_ptr, s.now + TIMEOUT_SEC)]
    requires t.watches == s.watches[s.next_id + 1 := s.next_ptr]
    requires t.next_ptr == s.next_ptr + 1 && t.next_id == s.next_id + 2
    requires t.trace == s.trace + [Fetch(b, peer.name, peer.pid, peer.cred.GetOr(NOTHING))]
    requires t.finalized == s.finalized && t.now == s.now && t.held == s.held
    ensures Next(s, Create(peer), t)
  {
  }

  /** A peer was allocated, with its timer and its watch, and is in no table. */
  function WithNewPeer(s: State, peer: Peer): State {
    s.(memory := s.memory[s.next_ptr := peer],
       timers := s.timers[s.next_id := Timer(s.next_ptr, s.now + TIMEOUT_SEC)],
       watches := s.watches[s.next_id + 1 := s.next_ptr],
       next_ptr := s.next_ptr + 1, next_id := s.next_id + 2)
  }

  /** The peer with what the status text says. */
  function Filled(peer: Peer, status: Option<string>): Peer {
    if status.None? then peer
    else
      var v := FirstValues(Lines(status.value));
      peer.(cred := Some(v), groups := HasGroups(v))
  }

  /** The credentials that a status text gives, if it has good Uid and Gid lines. */
  function Credentials(status: Option<string>): Option<Values> {
    if status.None? then None
    else
      var v := FirstValues(Lines(status.value));
      if v.Euid().Some? && v.Egid().Some? then Some(v) else None
  }

  /** The peer that a successful get creates. */
  function Fetched(s: State, b: BusType, name: string, pid: nat, v: Values): Peer {
    Peer(b, name, pid, Some(v), HasGroups(v), 1, s.next_id, s.next_id + 1)
  }

  lemma {:induction false} FetchedGets(s: State, t: State, b: BusType, name: string, pid: nat, status: Option<string>)
    requires s.Valid() && b in s.buses && name !in s.Table(b) && Credentials(status).Some?
    requires Next(s, Create(Fetched(s, b, name, pid, Credentials(status).value)), t)
    ensures Gets(s, t, b, Some(name), Some(s.next_ptr)) && s.next_ptr in t.memory
    ensures t.memory[s.next_ptr].pid == pid
    ensures status.Some? && t.memory[s.next_ptr].cred == Some(FirstValues(Lines(status.value)))
  {
    hide State.Valid, Next, Gets, State.Table, FirstValues, Lines;
    CreateGets(s, t, Fetched(s, b, name, pid, Credentials(status).value));
    assert Gets(s, t, b, Some(name), Some(s.next_ptr));
    assert s.next_ptr in t.memory by { GotIsLive(s, t, b, name, s.next_ptr); }
  }

  lemma {:induction false} GotIsLive(s: State, t: State, b: BusType, name: string, p: Ptr)
    requires Gets(s, t, b, Some(name), Some(p))
    ensures p in t.memory
  {
  }

  /** A bus that is not connected has no names. */
  lemma {:induction false} NothingGot(s: State)
    requires s.Valid()
    ensures forall b, name: Option<string> ::
              b in s.buses && (name == None || !s.buses[b].connection) ==> Gets(s, s, b, name, None)
  {
  }

  lemma {:induction false} Overwritten<K, V>(m: map<K, V>, k: K, v: V, w: V)
    ensures m[k := v][k := w] == m[k := w]
  {
  }

  lemma {:induction false} Undone<K, V>(m: map<K, V>, k: K, v: V)
    requires k !in m
    ensures m[k := v] - {k} == m
  {
  }

  lemma {:induction false} BothBuses(s: State)
    requires s.Valid()
    ensures SystemBus in s.buses && SessionBus in s.buses
    ensures forall b :: b in s.buses && s.buses[b].peers.Some? ==> s.buses[b].peers.value == s.Table(b)
    ensures forall b :: b in s.buses && s.buses[b].connection ==> s.buses[b] == Bus(Some(s.Table(b)), true)
    ensures forall b :: b in s.buses && !s.buses[b].connection ==> s.Table(b) == map[]
  {
  }

  lemma {:induction false} InTable(s: State, b: BusType, name: string)
    requires s.Valid() && name in s.Table(b)
    ensures var p := s.Table(b)[name];
      && s.Cached(p) && p in s.memory && s.memory[p].bus == b && s.memory[p].name == name
      && 0 !in s.timers && s.memory[p].timeout_id in s.timers
      && b in s.buses && s.buses[b] == Bus(Some(s.Table(b)), true)
  {
  }

  /** New addresses and ids are unused, and a bus without peers is not connected. */
  lemma {:induction false} Fresh(s: State, b: BusType)
    requires s.Valid() && b in s.buses
    ensures s.next_ptr !in s.memory && s.next_id !in s.timers && s.next_id + 1 !in s.watches
    ensures 0 !in s.timers && 0 !in s.watches && s.next_id > 0
    ensures s.buses[b] == if s.Table(b) == map[] then Bus(None, false) else Bus(Some(s.Table(b)), true)
  {
  }

  lemma {:induction false} TimedPeer(s: State, id: nat)
    requires s.Valid() && id in s.timers
    ensures s.Cached(s.timers[id].data) && s.timers[id].data in s.memory && s.memory[s.timers[id].data].timeout_id == id
  {
  }

  lemma {:induction false} DueNow(s: State, p: Ptr, id: nat)
    requires p in s.memory && s.memory[p].timeout_id == id && id in s.timers && s.timers[id].due <= s.now
    ensures Due(s, p)
  {
  }

  lemma {:induction false} WatchedPeer(s: State, id: nat)
    requires s.Valid() && id in s.watches
    ensures s.Cached(s.watches[id]) && s.watches[id] in s.memory && s.memory[s.watches[id]].name_watch_id == id
  {
  }

  /** What a peer in a table may rely on. */
  lemma {:induction false} CachedPeer(s: State, p: Ptr)
    requires s.Valid() && s.Cached(p)
    ensures var peer := s.memory[p];
      && peer.bus in s.buses && s.buses[peer.bus].peers.Some? && s.buses[peer.bus].connection
      && peer.name in s.buses[peer.bus].peers.value && s.buses[peer.bus].peers.value[peer.name] == p
      && s.buses[peer.bus].peers.value == s.Table(peer.bus)
      && peer.timeout_id in s.timers && peer.name_watch_id in s.watches && s.Watched(p)
      && peer.ref_count > 0 && 0 !in s.timers && 0 !in s.watches
  {
  }

  /** Stopping one more peer leaves the timers and watches of the others. */
  lemma {:induction false} OneMoreStopped(s: State, done: set<Ptr>, p: Ptr)
    requires s.TimersValid() && s.WatchesValid() && p in s.memory && s.Watched(p)
    ensures TimersBut(s.timers, done + {p}) == TimersBut(s.timers, done) - {s.memory[p].timeout_id}
    ensures WatchesBut(s.watches, done + {p}) == WatchesBut(s.watches, done) - {s.memory[p].name_watch_id}
  {
  }

  lemma {:induction false} NoneStopped(s: State)
    ensures TimersBut(s.timers, {}) == s.timers && WatchesBut(s.watches, {}) == s.watches
  {
  }

  /** What is left when a peer is removed is what is left of its table without it. */
  lemma {:induction false} DroppedOne(s: State, t: State, p: Ptr)
    requires s.Valid() && s.Cached(p)
    requires var peer, b := s.memory[p], s.memory[p].bus;
      && t.buses == s.buses[b := BusFor(s.Table(b) - {peer.name})]
      && t.timers == s.timers - {peer.timeout_id} && t.watches == s.watches - {peer.name_watch_id}
      && (if peer.ref_count == 1 then t.memory == s.memory - {p} && t.finalized == s.finalized + {p}
          else t.memory == s.memory[p := Stopped(peer)] && t.finalized == s.finalized)
      && t == s.(buses := t.buses, timers := t.timers, watches := t.watches, memory := t.memory,
                 finalized := t.finalized, trace := t.trace)
    ensures Dropped(s, t, s.memory[p].bus, {p})
  {
    hide State.TimersValid, State.WatchesValid, State.TablesValid, State.PeersValid, State.HistoryValid,
         State.MemoryValid, State.BusesValid, State.View, State.Watched;
    OnePlace(s, p);
    CachedPeer(s, p);
    var b := s.memory[p].bus;
    assert Without(s.Table(b), {p}) == s.Table(b) - {s.memory[p].name};
    NoneStopped(s);
    OneMoreStopped(s, {}, p);
    assert {} + {p} == {p};
    assert t.memory == MemoryBut(s.memory, {p}) && t.finalized == s.finalized + Last(s.memory, {p});
    hide State.Table, State.Valid;
  }

  lemma {:induction false} RemovedNext(s: State, t: State, a: Action)
    requires (a.TimeOut? && Due(s, a.p)) || a.Disappear? || a.Flush?
    requires a.p in s.memory && s.Cached(a.p) && Dropped(s, t, s.memory[a.p].bus, {a.p})
    requires t.trace == s.trace + [Removal(a, s)]
    ensures Next(s, a, t)
  {
    hide State.Cached, Dropped, Due, Removal;
  }

  /** Removing a peer and recording why is a step. */
  lemma {:induction false} RemovalIsStep(s: State, t: State, a: Action)
    requires a.TimeOut? || a.Disappear? || a.Flush?
    requires s.Valid() && s.Cached(a.p) && (a.TimeOut? ==> Due(s, a.p))
    requires var peer, b := s.memory[a.p], s.memory[a.p].bus;
      && t.buses == s.buses[b := BusFor(s.Table(b) - {peer.name})]
      && t.timers == s.timers - {peer.timeout_id} && t.watches == s.watches - {peer.name_watch_id}
      && (if peer.ref_count == 1 then t.memory == s.memory - {a.p} && t.finalized == s.finalized + {a.p}
          else t.memory == s.memory[a.p := Stopped(peer)] && t.finalized == s.finalized)
      && t == s.(buses := t.buses, timers := t.timers, watches := t.watches, memory := t.memory,
                 finalized := t.finalized, trace := t.trace)
      && t.trace == s.trace + [Removal(a, s)]
    ensures Next(s, a, t) && t.Valid()
  {
    hide State.Valid, State.Table, Dropped, Due;
    DroppedOne(s, t, a.p);
    hide Next, State.Cached;
    RemovedNext(s, t, a);
    NextKeeps(s, a, t);
  }

  /** A peer that a caller holds is live; if this is the last reference, then no callback is pending. */
  lemma {:induction false} HeldPeer(s: State, p: Ptr)
    requires s.Valid() && s.Held(p) > 0
    ensures p in s.memory && 0 !in s.timers && 0 !in s.watches
    ensures s.memory[p].timeout_id != 0 ==> s.memory[p].timeout_id in s.timers
    ensures s.memory[p].name_watch_id != 0 ==> s.memory[p].name_watch_id in s.watches
    ensures s.memory[p].ref_count == 1 ==> s.memory[p].timeout_id == 0 && s.memory[p].name_watch_id == 0
  {
  }
}
