/** What a step of the peer cache does to tables, callbacks and references, spelled out for its callers. */
module PeerCalls {
  import opened Wrappers
  import opened PeerTrace
  import opened PeerState
  import opened PeerRuns

  /** The table of the bus has the peer under this name, and its timer has 30 seconds to go. */
  ghost predicate Serves(s: State, b: BusType, name: string, p: Ptr) {
    && name in s.Table(b) && s.Table(b)[name] == p
    && p in s.memory && s.memory[p].bus == b && s.memory[p].name == name
    && s.memory[p].timeout_id in s.timers && s.timers[s.memory[p].timeout_id] == Timer(p, s.now + 30)
    && s.memory[p].name_watch_id in s.watches && s.watches[s.memory[p].name_watch_id] == p
  }

  /** No callback carries the peer any more, and only the references of callers keep it alive. */
  ghost predicate Forgotten(s: State, t: State, p: Ptr) {
    && (forall id :: id in t.timers ==> t.timers[id].data != p)
    && (forall id :: id in t.watches ==> t.watches[id] != p)
    && if s.Held(p) == 0 then p !in t.memory && p in t.finalized
       else p in t.memory && t.memory[p].ref_count == s.Held(p)
  }

  /** A get of a cached peer. */
  lemma {:induction false} TouchServes(s: State, t: State, b: BusType, name: string)
    requires s.Valid() && name in s.Table(b) && Next(s, Touch(s.Table(b)[name]), t)
    ensures forall b' :: t.Table(b') == s.Table(b')
    ensures Serves(t, b, name, s.Table(b)[name])
    ensures var p := s.Table(b)[name];
      p in s.memory && t.memory[p] == s.memory[p].(timeout_id := s.next_id) && t.held == s.held
  {
    hide State.HistoryValid, State.MemoryValid, State.TimersValid, State.WatchesValid, State.BusesValid, State.Cached;
    var p := s.Table(b)[name];
    RetimedCached(s, t, p);
    assert s.TablesValid() && p in s.memory && s.PeerValid(p) && s.Watched(p);
    hide State.Table, State.PeersValid, State.TablesValid, State.References;
  }

  /** A get that created a peer. */
  lemma {:induction false} CreateServes(s: State, t: State, peer: Peer)
    requires s.Valid() && peer.bus in s.buses && Next(s, Create(peer), t)
    ensures t.Table(peer.bus) == s.Table(peer.bus)[peer.name := s.next_ptr]
    ensures forall b :: b != peer.bus ==> t.Table(b) == s.Table(b)
    ensures Serves(t, peer.bus, peer.name, s.next_ptr)
    ensures s.next_ptr !in s.memory && t.memory == s.memory[s.next_ptr := peer] && peer.ref_count == 1
    ensures t.held == s.held && t.finalized == s.finalized
  {
    hide State.HistoryValid, State.TimersValid, State.WatchesValid, State.PeersValid;
  }

  /** A get that found nothing out. */
  lemma {:induction false} MissLeaves(s: State, t: State, answered: bool)
    requires Next(s, Miss(answered), t)
    ensures forall b :: t.Table(b) == s.Table(b)
    ensures t.memory == s.memory && t.timers == s.timers && t.watches == s.watches && t.held == s.held
  {
  }

  /**
   * A get on this bus: a name that is in the table keeps its peer, and otherwise the table gets at
   * most this one. What is returned is in the table, with its timer started anew.
   */
  ghost predicate Gets(s: State, t: State, b: BusType, name: Option<string>, r: Option<Ptr>) {
    && (forall b' :: b' != b ==> t.Table(b') == s.Table(b'))
    && match r
       case None =>
         t.Table(b) == s.Table(b) && t.memory == s.memory && (name.Some? ==> name.value !in s.Table(b))
       case Some(p) =>
         && name.Some? && Serves(t, b, name.value, p)
         && if name.value in s.Table(b) then
              && p == s.Table(b)[name.value] && t.Table(b) == s.Table(b)
              && p in s.memory && t.memory[p] == s.memory[p].(timeout_id := t.memory[p].timeout_id)
            else
              p !in s.memory && t.Table(b) == s.Table(b)[name.value := p] && t.memory[p].ref_count == 1
  }

  lemma {:induction false} TouchGets(s: State, t: State, b: BusType, name: string)
    requires s.Valid() && name in s.Table(b) && Next(s, Touch(s.Table(b)[name]), t)
    ensures Gets(s, t, b, Some(name), Some(s.Table(b)[name]))
  {
    hide State.Valid, Next, State.Table;
    TouchServes(s, t, b, name);
  }

  lemma {:induction false} CreateGets(s: State, t: State, peer: Peer)
    requires s.Valid() && peer.bus in s.buses && peer.name !in s.Table(peer.bus) && Next(s, Create(peer), t)
    ensures Gets(s, t, peer.bus, Some(peer.name), Some(s.next_ptr)) && t.memory[s.next_ptr] == peer
  {
    hide State.Valid, Next, State.Table;
    CreateServes(s, t, peer);
  }

  lemma {:induction false} MissGets(s: State, t: State, b: BusType, name: string, answered: bool)
    requires name !in s.Table(b) && Next(s, Miss(answered), t)
    ensures Gets(s, t, b, Some(name), None)
  {
    hide Next, State.Table;
    MissLeaves(s, t, answered);
  }

  /** A peer is removed by its name. */
  lemma {:induction false} RemovalForgets(s: State, t: State, a: Action)
    requires a.TimeOut? || a.Disappear? || a.Flush?
    requires s.Valid() && Next(s, a, t)
    ensures s.Cached(a.p)
    ensures t.Table(s.memory[a.p].bus) == s.Table(s.memory[a.p].bus) - {s.memory[a.p].name}
    ensures forall b :: b != s.memory[a.p].bus ==> t.Table(b) == s.Table(b)
    ensures Forgotten(s, t, a.p)
  {
    hide State.Valid, State.Table, Due, Dropped, Forgotten, Without;
    var p, b := a.p, s.memory[a.p].bus;
    assert Removed(s, t, a);
    OnlyPlace(s, p);
    DroppedTables(s, t, b, {p});
    DroppedForgets(s, t, b, {p}, p);
  }

  lemma {:induction false} OnlyPlace(s: State, p: Ptr)
    requires s.Valid() && s.Cached(p)
    ensures Without(s.Table(s.memory[p].bus), {p}) == s.Table(s.memory[p].bus) - {s.memory[p].name}
  {
    hide State.HistoryValid, State.TimersValid, State.WatchesValid, State.PeersValid, State.MemoryValid,
         State.BusesValid;
    assert s.TablesValid();
    hide State.Table;
  }

  lemma {:induction false} DroppedTables(s: State, t: State, b: BusType, gone: set<Ptr>)
    requires s.Valid() && Dropped(s, t, b, gone)
    ensures t.Table(b) == Without(s.Table(b), gone)
    ensures forall b' :: b' != b ==> t.Table(b') == s.Table(b')
  {
    hide State.HistoryValid, State.TimersValid, State.WatchesValid, State.PeersValid, State.MemoryValid, Without;
    assert SystemBus in s.buses && SessionBus in s.buses;
  }

  lemma {:induction false} DroppedForgets(s: State, t: State, b: BusType, gone: set<Ptr>, p: Ptr)
    requires s.Valid() && Dropped(s, t, b, gone) && p in gone
    ensures Forgotten(s, t, p)
  {
    hide State.HistoryValid, State.TimersValid, State.WatchesValid, State.TablesValid, State.MemoryValid;
    assert s.Cached(p) && s.PeerValid(p);
    hide State.Cached, State.PeersValid;
  }

  /** All peers of a bus are removed. */
  lemma {:induction false} FlushAllForgets(s: State, t: State, b: BusType)
    requires s.Valid() && Next(s, FlushAll(b), t)
    ensures t.Table(b) == map[]
    ensures forall b' :: b' != b ==> t.Table(b') == s.Table(b')
    ensures forall n :: n in s.Table(b) ==> Forgotten(s, t, s.Table(b)[n])
  {
    hide State.Valid, Dropped, Forgotten;
    DroppedTables(s, t, b, s.Table(b).Values);
    assert Without(s.Table(b), s.Table(b).Values) == map[];
    forall n | n in s.Table(b) ensures Forgotten(s, t, s.Table(b)[n]) {
      DroppedForgets(s, t, b, s.Table(b).Values, s.Table(b)[n]);
    }
  }

  /** A flush of one name or of all names on this bus, and of nothing on the other one. */
  ghost predicate Flushes(s: State, t: State, b: BusType, name: Option<string>) {
    && t.Table(b) == (if name.None? then map[] else s.Table(b) - {name.value})
    && (forall b' :: b' != b ==> t.Table(b') == s.Table(b'))
    && (forall n :: n in s.Table(b) && (name.None? || n == name.value) ==> Forgotten(s, t, s.Table(b)[n]))
  }

  lemma {:induction false} NameFlushed(s: State, t: State, b: BusType, name: string)
    requires s.Valid() && name in s.Table(b) && Next(s, Action.Flush(s.Table(b)[name]), t)
    ensures Flushes(s, t, b, Some(name))
  {
    hide State.Valid, Next, State.Table, Forgotten;
    TableNames(s, b, name);
    hide State.Cached;
    RemovalForgets(s, t, Action.Flush(s.Table(b)[name]));
  }

  lemma {:induction false} TableNames(s: State, b: BusType, name: string)
    requires s.Valid() && name in s.Table(b)
    ensures var p := s.Table(b)[name]; p in s.memory && s.memory[p].bus == b && s.memory[p].name == name
  {
    assert s.TablesValid();
  }

  lemma {:induction false} BusFlushed(s: State, t: State, b: BusType)
    requires s.Valid() && Next(s, FlushAll(b), t)
    ensures Flushes(s, t, b, None)
  {
    hide State.Valid, Next, State.Table, Forgotten;
    FlushAllForgets(s, t, b);
  }

  /** A name that is not there, or a bus without names, needs no flush. */
  lemma {:induction false} NothingFlushed(s: State, b: BusType, name: Option<string>)
    requires if name.None? then s.Table(b) == map[] else name.value !in s.Table(b)
    ensures Flushes(s, s, b, name)
  {
    hide Forgotten;
  }
}
