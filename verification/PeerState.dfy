/**
 * The state of the peer cache: what every run keeps, and the three ways in which a step changes it.
 * Peers are blocks in an explicit memory, so that using a freed peer is an error that the proofs
 * rule out; the main loop is the set of pending timers and watches.
 */
module PeerState {
  import opened Wrappers
  import opened CredSpec
  import opened PeerTrace

  /** The address of a peer. */
  type Ptr = nat

  /** DAPeerPriv; groups tells whether the groups buffer is allocated. */
  datatype Peer = Peer(bus: BusType, name: string, pid: nat, cred: Option<Values>, groups: bool,
                       ref_count: int, timeout_id: nat, name_watch_id: nat)

  /** DAPeerBus: the hash table, None for NULL, and whether the connection is held. */
  datatype Bus = Bus(peers: Option<map<string, Ptr>>, connection: bool)

  /** A pending timeout: its callback data and the time from which it may fire. */
  datatype Timer = Timer(data: Ptr, due: nat)

  datatype State = State(
    buses: map<BusType, Bus>,
    memory: map<Ptr, Peer>,
    next_ptr: Ptr,
    finalized: set<Ptr>,
    timers: map<nat, Timer>,
    watches: map<nat, Ptr>,
    next_id: nat,
    now: nat,
    held: map<Ptr, nat>,
    trace: seq<Event>)
  {
    function Table(b: BusType): map<string, Ptr> {
      if b in buses && buses[b].peers.Some? then buses[b].peers.value else map[]
    }

    /** The references that callers hold. */
    function Held(p: Ptr): nat {
      if p in held then held[p] else 0
    }

    /** The peer is in its own bus's table under its own name. */
    predicate Cached(p: Ptr) {
      p in memory && memory[p].name in Table(memory[p].bus) && Table(memory[p].bus)[memory[p].name] == p
    }

    /** A pending timer carries a live peer that is in its own bus's table under its own name. */
    ghost predicate TimersValid() {
      forall id :: id in timers ==>
        0 < id < next_id && timers[id].due >= TIMEOUT_SEC && Cached(timers[id].data)
          && memory[timers[id].data].timeout_id == id
    }

    /** So does a name watch. */
    ghost predicate WatchesValid() {
      forall id :: id in watches ==>
        0 < id < next_id && Cached(watches[id]) && memory[watches[id]].name_watch_id == id
    }

    /** Tables hold live peers under their own names. */
    ghost predicate TablesValid() {
      forall b, n :: n in Table(b) ==>
        Table(b)[n] in memory && memory[Table(b)[n]].bus == b && memory[Table(b)[n]].name == n
    }

    /** The peer's timer and watch are pending and carry the peer. */
    predicate Watched(p: Ptr)
      requires p in memory
    {
      && memory[p].timeout_id in timers && timers[memory[p].timeout_id].data == p
      && memory[p].name_watch_id in watches && watches[memory[p].name_watch_id] == p
    }

    /** The callers' references and that of the table. */
    function References(p: Ptr): nat {
      Held(p) + if Cached(p) then 1 else 0
    }

    /**
     * A live peer is referenced as often as it counts, and at least once. A cached peer has one
     * timer, one watch and credentials; another one has no timer and no watch.
     */
    predicate PeerValid(p: Ptr)
      requires p in memory
    {
      && memory[p].ref_count == References(p) > 0
      && if Cached(p) then Watched(p) && memory[p].cred.Some?
         else memory[p].timeout_id == 0 && memory[p].name_watch_id == 0
    }

    ghost predicate PeersValid() {
      forall p :: p in memory ==> PeerValid(p)
    }

    /** A bus is connected exactly while its table exists, and a table is never empty. */
    ghost predicate BusesValid() {
      && SystemBus in buses && SessionBus in buses
      && forall b :: b in buses ==> buses[b].connection == buses[b].peers.Some? && buses[b].peers != Some(map[])
    }

    /** Every address handed out is live or was finalized, and not both; callers hold live peers only. */
    ghost predicate MemoryValid() {
      && (forall p: Ptr :: p in memory ==> p < next_ptr && p !in finalized)
      && (forall p: Ptr :: p in finalized ==> p < next_ptr)
      && (forall p: Ptr :: p < next_ptr ==> p in memory || p in finalized)
      && (forall p: Ptr :: p in held ==> p in memory && held[p] > 0)
    }

    function KnownOf(p: Ptr): Known
      requires p in memory
    {
      var peer := memory[p];
      Known(peer.pid, peer.cred.GetOr(NOTHING),
            if peer.timeout_id in timers && timers[peer.timeout_id].due >= TIMEOUT_SEC
            then timers[peer.timeout_id].due - TIMEOUT_SEC else 0)
    }

    /** What the cache knows about the names on a bus. */
    function View(b: BusType): map<string, Known> {
      map n | n in Table(b) && Table(b)[n] in memory :: KnownOf(Table(b)[n])
    }

    /** What is known without these peers. */
    function ViewWithout(b: BusType, gone: set<Ptr>): map<string, Known> {
      map n | n in View(b) && n in Table(b) && Table(b)[n] !in gone :: View(b)[n]
    }

    /** The tables are what the history of events left behind. */
    ghost predicate HistoryValid() {
      && Possible(trace) && Clock(trace) == now
      && View(SystemBus) == Replay(trace, SystemBus)
      && View(SessionBus) == Replay(trace, SessionBus)
    }

    ghost predicate Valid() {
      && next_id > 0
      && TimersValid() && WatchesValid() && TablesValid() && PeersValid() && BusesValid() && MemoryValid()
        && HistoryValid()
    }
  }

  // History

  /** A step that is an event keeps the history true if it changes the tables as the event does. */
  lemma {:induction false} Happens(s: State, t: State, e: Event)
    requires s.HistoryValid()
    requires t.trace == s.trace + [e] && Possible(t.trace)
    requires t.now == s.now + (if e.Tick? then e.seconds else 0)
    requires forall b :: t.View(b) == Step(s.View(b), s.now, b, e)
    ensures t.HistoryValid()
  {
    ReplayNext(s.trace, e, SystemBus);
    ReplayNext(s.trace, e, SessionBus);
  }

  /** Cached peers stay cached and change their reference counts at most. */
  ghost predicate CachedKept(s: State, t: State) {
    forall p :: s.Cached(p) ==> t.Cached(p) && t.memory[p] == s.memory[p].(ref_count := t.memory[p].ref_count)
  }

  lemma {:induction false} CallbacksKept(s: State, t: State)
    requires s.TimersValid() && s.WatchesValid() && CachedKept(s, t)
    requires t.timers == s.timers && t.watches == s.watches && s.next_id <= t.next_id
    ensures t.TimersValid() && t.WatchesValid()
  {
  }

  lemma {:induction false} TablesKept(s: State, t: State)
    requires s.TablesValid() && CachedKept(s, t)
    requires t.buses == s.buses && t.timers == s.timers
    ensures t.TablesValid() && forall b :: t.View(b) == s.View(b)
  {
    assert forall b :: t.Table(b) == s.Table(b);
    assert forall b, n :: n in s.Table(b) ==> s.Cached(s.Table(b)[n]);
    hide State.Table, State.Cached;
  }

  /** The steps that change no table keep all of this. */
  lemma {:induction false} OutsideTables(s: State, t: State)
    requires s.Valid() && CachedKept(s, t)
    requires t == s.(memory := t.memory, held := t.held, finalized := t.finalized, next_ptr := t.next_ptr,
      next_id := t.next_id)
    requires s.next_id <= t.next_id
    requires t.PeersValid() && t.MemoryValid()
    ensures t.Valid() && forall b :: t.View(b) == s.View(b)
  {
    hide State.TimersValid, State.WatchesValid, State.TablesValid, State.PeersValid, State.MemoryValid, State.View,
         CachedKept;
    CallbacksKept(s, t);
    TablesKept(s, t);
  }

  // Steps that change reference counts only

  /** The blocks are the same but for their reference counts. */
  ghost predicate SameButRefs(m: map<Ptr, Peer>, m': map<Ptr, Peer>) {
    m.Keys == m'.Keys && forall p :: p in m ==> m'[p] == m[p].(ref_count := m'[p].ref_count)
  }

  lemma {:induction false} CachedSame(s: State, t: State)
    requires t.buses == s.buses && SameButRefs(s.memory, t.memory)
    ensures CachedKept(s, t) && forall p :: t.Cached(p) == s.Cached(p)
  {
  }

  lemma {:induction false} RefsChanged(s: State, t: State)
    requires s.Valid() && SameButRefs(s.memory, t.memory)
    requires t == s.(memory := t.memory, held := t.held)
    requires forall p :: p in t.memory ==> t.memory[p].ref_count == t.References(p) > 0
    requires forall p :: p in t.held ==> p in t.memory && t.held[p] > 0
    ensures t.Valid() && forall b :: t.View(b) == s.View(b)
  {
    CachedSame(s, t);
    hide State.TimersValid, State.WatchesValid, State.TablesValid, State.PeersValid, State.Table, State.View,
         State.HistoryValid, State.Cached, CachedKept, State.References, State.BusesValid;
    PeersSame(s, t);
    MemorySame(s, t);
    OutsideTables(s, t);
  }

  lemma {:induction false} MemorySame(s: State, t: State)
    requires s.MemoryValid() && t.memory.Keys == s.memory.Keys
    requires t.next_ptr == s.next_ptr && t.finalized == s.finalized
    requires forall p :: p in t.held ==> p in t.memory && t.held[p] > 0
    ensures t.MemoryValid()
  {
  }

  lemma {:induction false} PeersSame(s: State, t: State)
    requires s.PeersValid() && SameButRefs(s.memory, t.memory)
    requires t.timers == s.timers && t.watches == s.watches
    requires forall p :: t.Cached(p) == s.Cached(p)
    requires forall p :: p in t.memory ==> t.memory[p].ref_count == t.References(p) > 0
    ensures t.PeersValid()
  {
  }

  // Steps that drop an uncached peer

  lemma {:induction false} PeersWithout(s: State, t: State, p: Ptr)
    requires s.PeersValid() && t.memory == s.memory - {p} && !s.Cached(p) && s.buses == t.buses
    requires s.timers == t.timers && s.watches == t.watches
    requires forall q :: q != p ==> t.Held(q) == s.Held(q)
    ensures t.PeersValid() && CachedKept(s, t)
  {
  }

  lemma {:induction false} MemoryWithout(s: State, t: State, p: Ptr)
    requires s.MemoryValid() && p in s.memory && t.memory == s.memory - {p} && t.finalized == s.finalized + {p}
    requires t.next_ptr == s.next_ptr
    requires forall q :: q in t.held ==> q in t.memory && t.held[q] > 0
    ensures t.MemoryValid()
  {
  }

  lemma {:induction false} UncachedGone(s: State, t: State, p: Ptr)
    requires s.Valid() && p in s.memory && !s.Cached(p) && p !in t.held
    requires t == s.(memory := s.memory - {p}, finalized := s.finalized + {p}, held := t.held)
    requires forall q :: q != p ==> t.Held(q) == s.Held(q)
    requires forall q :: q in t.held ==> q in t.memory && t.held[q] > 0
    ensures t.Valid() && forall b :: t.View(b) == s.View(b)
  {
    hide State.TimersValid, State.WatchesValid, State.TablesValid, State.PeersValid, State.MemoryValid,
         State.BusesValid, State.HistoryValid, State.View, CachedKept, State.Held;
    PeersWithout(s, t, p);
    MemoryWithout(s, t, p);
    OutsideTables(s, t);
  }

  // Gets that fail after the peer was created: only addresses and ids are used up

  lemma {:induction false} NothingPeers(s: State, t: State)
    requires s.PeersValid() && s.memory == t.memory && s.buses == t.buses && s.held == t.held
    requires s.timers == t.timers && s.watches == t.watches
    ensures t.PeersValid() && CachedKept(s, t)
  {
  }

  lemma {:induction false} NothingMemory(s: State, t: State)
    requires s.MemoryValid() && s.memory == t.memory && s.held == t.held
    requires s.next_ptr <= t.next_ptr <= s.next_ptr + 1
    requires t.finalized == s.finalized + if t.next_ptr == s.next_ptr then {} else {s.next_ptr}
    ensures t.MemoryValid()
  {
  }

  lemma {:induction false} NothingKept(s: State, t: State)
    requires s.Valid() && s.next_ptr <= t.next_ptr <= s.next_ptr + 1 && s.next_id <= t.next_id
    requires t == s.(next_ptr := t.next_ptr, next_id := t.next_id, finalized := t.finalized)
    requires t.finalized == s.finalized + if t.next_ptr == s.next_ptr then {} else {s.next_ptr}
    ensures t.Valid() && forall b :: t.View(b) == s.View(b)
  {
    hide State.TimersValid, State.WatchesValid, State.TablesValid, State.PeersValid, State.MemoryValid,
         State.BusesValid, State.HistoryValid, State.View, CachedKept;
    NothingPeers(s, t);
    NothingMemory(s, t);
    OutsideTables(s, t);
  }

  // Steps that take peers out of a table

  /** What is left of a table. */
  function Without(table: map<string, Ptr>, gone: set<Ptr>): map<string, Ptr> {
    map n | n in table && table[n] !in gone :: table[n]
  }

  /** A peer whose timer and watch are stopped and that lost the table's reference. */
  function Stopped(peer: Peer): Peer {
    peer.(timeout_id := 0, name_watch_id := 0, ref_count := peer.ref_count - 1)
  }

  /** The timers that carry none of these peers. */
  function TimersBut(timers: map<nat, Timer>, gone: set<Ptr>): map<nat, Timer> {
    map id | id in timers && timers[id].data !in gone :: timers[id]
  }

  /** The watches that carry none of these peers. */
  function WatchesBut(watches: map<nat, Ptr>, gone: set<Ptr>): map<nat, Ptr> {
    map id | id in watches && watches[id] !in gone :: watches[id]
  }

  /** The peers among these with one reference left. */
  function Last(memory: map<Ptr, Peer>, gone: set<Ptr>): set<Ptr> {
    set p | p in gone && p in memory && memory[p].ref_count == 1
  }

  /** The memory after these peers lost the table's reference. */
  function MemoryBut(memory: map<Ptr, Peer>, gone: set<Ptr>): map<Ptr, Peer> {
    map p | p in memory && p !in Last(memory, gone) :: if p in gone then Stopped(memory[p]) else memory[p]
  }

  /** The bus record for a table: the connection goes with the last peer. */
  function BusFor(table: map<string, Ptr>): Bus {
    if table == map[] then Bus(None, false) else Bus(Some(table), true)
  }

  /** These peers left the table of their bus, and those that nobody else refers to are gone. */
  ghost predicate Dropped(s: State, t: State, b: BusType, gone: set<Ptr>) {
    && (forall p :: p in gone ==> s.Cached(p) && s.memory[p].bus == b)
    && t.buses == s.buses[b := BusFor(Without(s.Table(b), gone))]
    && t.timers == TimersBut(s.timers, gone) && t.watches == WatchesBut(s.watches, gone)
    && t.memory == MemoryBut(s.memory, gone) && t.finalized == s.finalized + Last(s.memory, gone)
    && t == s.(buses := t.buses, timers := t.timers, watches := t.watches, memory := t.memory,
               finalized := t.finalized, trace := t.trace)
  }

  lemma {:induction false} DroppedTables(s: State, t: State, b: BusType, gone: set<Ptr>)
    requires Dropped(s, t, b, gone) && b in s.buses
    ensures t.Table(b) == Without(s.Table(b), gone)
    ensures forall b' :: b' != b ==> t.Table(b') == s.Table(b')
  {
  }

  lemma {:induction false} DroppedCached(s: State, t: State, b: BusType, gone: set<Ptr>)
    requires Dropped(s, t, b, gone) && b in s.buses
    ensures forall p :: t.Cached(p) <==> s.Cached(p) && p !in gone
  {
  }

  lemma {:induction false} DroppedCallbacks(s: State, t: State, b: BusType, gone: set<Ptr>)
    requires Dropped(s, t, b, gone) && b in s.buses && s.TimersValid() && s.WatchesValid()
    ensures t.TimersValid() && t.WatchesValid()
  {
    DroppedCached(s, t, b, gone);
    hide State.Cached, State.Table;
  }

  lemma {:induction false} DroppedTablesValid(s: State, t: State, b: BusType, gone: set<Ptr>)
    requires Dropped(s, t, b, gone) && b in s.buses && s.TablesValid()
    ensures t.TablesValid()
  {
    DroppedTables(s, t, b, gone);
    assert forall n :: n in s.Table(b) && s.Table(b)[n] in gone ==> n !in t.Table(b);
    forall b', n | n in t.Table(b')
      ensures t.Table(b')[n] in t.memory && t.memory[t.Table(b')[n]].bus == b' && t.memory[t.Table(b')[n]].name == n
    {
      assert n in s.Table(b') && s.Table(b')[n] == t.Table(b')[n];
      var p := s.Table(b')[n];
      assert p !in gone by {
        assert s.memory[p].bus == b';
      }
    }
  }

  lemma {:induction false} DroppedPeers(s: State, t: State, b: BusType, gone: set<Ptr>)
    requires Dropped(s, t, b, gone) && b in s.buses && s.PeersValid()
    ensures t.PeersValid()
  {
    DroppedCached(s, t, b, gone);
    hide State.Cached, State.Table;
  }

  lemma {:induction false} DroppedMemory(s: State, t: State, b: BusType, gone: set<Ptr>)
    requires Dropped(s, t, b, gone) && s.MemoryValid() && s.PeersValid()
    ensures t.MemoryValid()
  {
  }

  /** Known peers on a bus are the same in both states. */
  ghost predicate SameKnown(s: State, t: State, b: BusType) {
    forall n :: n in t.Table(b) ==>
      t.Table(b)[n] in s.memory && t.Table(b)[n] in t.memory && t.KnownOf(t.Table(b)[n]) == s.KnownOf(t.Table(b)[n])
  }

  lemma {:induction false} DroppedViews(s: State, t: State, b: BusType, gone: set<Ptr>)
    requires Dropped(s, t, b, gone) && b in s.buses && s.TablesValid() && s.PeersValid() && t.TablesValid()
    ensures t.View(b) == s.ViewWithout(b, gone)
    ensures forall b' :: b' != b ==> t.View(b') == s.View(b')
  {
    forall b' ensures SameKnown(s, t, b') {
      forall n | n in t.Table(b')
        ensures t.Table(b')[n] in s.memory && t.Table(b')[n] in t.memory
          && t.KnownOf(t.Table(b')[n]) == s.KnownOf(t.Table(b')[n])
      {
        DroppedKnown(s, t, b, gone, b', n);
      }
    }
    DroppedTables(s, t, b, gone);
    hide Dropped, SameKnown, State.Table, State.ViewWithout, State.PeersValid, State.TablesValid;
    SmallerView(s, t, b, gone);
    forall b' | b' != b ensures t.View(b') == s.View(b') {
      SameView(s, t, b');
    }
  }

  lemma {:induction false} SmallerView(s: State, t: State, b: BusType, gone: set<Ptr>)
    requires SameKnown(s, t, b) && t.Table(b) == Without(s.Table(b), gone)
    ensures t.View(b) == s.ViewWithout(b, gone)
  {
  }

  lemma {:induction false} SameView(s: State, t: State, b: BusType)
    requires SameKnown(s, t, b) && t.Table(b) == s.Table(b)
    ensures t.View(b) == s.View(b)
  {
  }

  /** What remains known about a peer that stays. */
  lemma {:induction false} DroppedKnown(s: State, t: State, b: BusType, gone: set<Ptr>, b': BusType, n: string)
    requires Dropped(s, t, b, gone) && b in s.buses && s.TablesValid() && s.PeersValid() && t.TablesValid()
    requires n in t.Table(b')
    ensures n in s.Table(b') && s.Table(b')[n] == t.Table(b')[n]
      && t.KnownOf(t.Table(b')[n]) == s.KnownOf(s.Table(b')[n])
  {
    DroppedTables(s, t, b, gone);
    DroppedCached(s, t, b, gone);
    var p := t.Table(b')[n];
    assert t.Cached(p) && s.Cached(p) && s.Watched(p);
    hide State.Table;
  }

  /** Dropping peers keeps everything but the history, which the event that caused it brings up to date. */
  lemma {:induction false} DroppedKeeps(s: State, t: State, b: BusType, gone: set<Ptr>, e: Event)
    requires s.Valid() && Dropped(s, t, b, gone)
    requires t.trace == s.trace + [e] && Possible(t.trace) && !e.Tick?
    requires Step(s.View(b), s.now, b, e) == s.ViewWithout(b, gone)
    requires forall b' :: b' != b ==> Step(s.View(b'), s.now, b', e) == s.View(b')
    ensures t.Valid()
  {
    hide State.TimersValid, State.WatchesValid, State.TablesValid, State.PeersValid, State.MemoryValid, State.View,
         State.Cached;
    DroppedTables(s, t, b, gone);
    DroppedCallbacks(s, t, b, gone);
    DroppedTablesValid(s, t, b, gone);
    DroppedPeers(s, t, b, gone);
    DroppedMemory(s, t, b, gone);
    DroppedViews(s, t, b, gone);
    Happens(s, t, e);
  }

  // Steps that put a new peer into a table

  /** A peer was created at the next address, with a timer and a watch, and is in the table of its bus. */
  ghost predicate Added(s: State, t: State, b: BusType, peer: Peer) {
    var p := s.next_ptr;
    && peer.bus == b && peer.name !in s.Table(b) && peer.cred.Some?
    && peer.ref_count == 1 && peer.timeout_id == s.next_id && peer.name_watch_id == s.next_id + 1
    && t.buses == s.buses[b := Bus(Some(s.Table(b)[peer.name := p]), true)]
    && t.memory == s.memory[p := peer]
    && t.timers == s.timers[s.next_id := Timer(p, s.now + TIMEOUT_SEC)]
    && t.watches == s.watches[s.next_id + 1 := p]
    && t == s.(buses := t.buses, memory := t.memory, timers := t.timers, watches := t.watches,
               next_ptr := p + 1, next_id := s.next_id + 2, trace := t.trace)
  }

  lemma {:induction false} AddedCached(s: State, t: State, b: BusType, peer: Peer)
    requires Added(s, t, b, peer) && s.MemoryValid() && s.TablesValid()
    ensures t.Table(b) == s.Table(b)[peer.name := s.next_ptr] && forall b' :: b' != b ==> t.Table(b') == s.Table(b')
    ensures forall p :: t.Cached(p) <==> s.Cached(p) || p == s.next_ptr
    ensures s.next_ptr !in s.memory && s.Held(s.next_ptr) == 0
  {
  }

  lemma {:induction false} AddedTimers(s: State, t: State, b: BusType, peer: Peer)
    requires Added(s, t, b, peer) && s.MemoryValid() && s.TablesValid() && s.TimersValid() && s.next_id > 0
    ensures t.TimersValid()
  {
    AddedCached(s, t, b, peer);
    forall id | id in t.timers
      ensures 0 < id < t.next_id && t.timers[id].due >= TIMEOUT_SEC && t.Cached(t.timers[id].data)
              && t.memory[t.timers[id].data].timeout_id == id
    {
      if id in s.timers {
        assert s.timers[id].data in s.memory;
      }
      hide State.Table, State.MemoryValid, State.TablesValid;
    }
    hide *;
  }

  lemma {:induction false} AddedWatches(s: State, t: State, b: BusType, peer: Peer)
    requires Added(s, t, b, peer) && s.MemoryValid() && s.TablesValid() && s.WatchesValid() && s.next_id > 0
    ensures t.WatchesValid()
  {
    AddedCached(s, t, b, peer);
    forall id | id in t.watches
      ensures 0 < id < t.next_id && t.Cached(t.watches[id]) && t.memory[t.watches[id]].name_watch_id == id
    {
      if id in s.watches {
        assert s.watches[id] in s.memory;
      }
      hide State.Table, State.MemoryValid, State.TablesValid;
    }
    hide *;
  }

  lemma {:induction false} AddedTables(s: State, t: State, b: BusType, peer: Peer)
    requires Added(s, t, b, peer) && s.MemoryValid() && s.TablesValid()
    ensures t.TablesValid()
  {
    AddedCached(s, t, b, peer);
    hide State.Cached, State.Table;
  }

  lemma {:induction false} AddedReferences(s: State, t: State, b: BusType, peer: Peer)
    requires Added(s, t, b, peer) && s.MemoryValid() && s.TablesValid()
    ensures t.References(s.next_ptr) == 1
    ensures forall q :: q != s.next_ptr ==> t.References(q) == s.References(q)
  {
    AddedCached(s, t, b, peer);
    assert forall q :: t.Held(q) == s.Held(q);
    hide State.Cached, State.Table, State.Held, State.MemoryValid, State.TablesValid;
  }

  lemma {:induction false} AddedPeer(s: State, t: State, b: BusType, peer: Peer, q: Ptr)
    requires Added(s, t, b, peer) && q in s.memory && q != s.next_ptr && s.PeerValid(q)
    requires t.References(q) == s.References(q) && t.Cached(q) == s.Cached(q)
    requires s.TimersValid() && s.WatchesValid()
    ensures t.PeerValid(q)
  {
  }

  lemma {:induction false} AddedPeers(s: State, t: State, b: BusType, peer: Peer)
    requires Added(s, t, b, peer) && s.MemoryValid() && s.TablesValid() && s.TimersValid() && s.WatchesValid()
      && s.PeersValid()
    ensures t.PeersValid()
  {
    hide State.Cached, State.Table, State.References, State.TablesValid, State.MemoryValid, State.TimersValid,
         State.WatchesValid;
    AddedCached(s, t, b, peer);
    AddedReferences(s, t, b, peer);
    forall q | q in t.memory ensures t.PeerValid(q) {
      if q == s.next_ptr {
        assert t.Watched(q);
      } else {
        hide State.PeerValid;
        AddedPeer(s, t, b, peer, q);
      }
    }
    hide *;
  }

  lemma {:induction false} AddedMemory(s: State, t: State, b: BusType, peer: Peer)
    requires Added(s, t, b, peer) && s.MemoryValid()
    ensures t.MemoryValid()
  {
  }

  lemma {:induction false} AddedSameKnown(s: State, t: State, b: BusType, peer: Peer, b': BusType)
    requires Added(s, t, b, peer) && s.MemoryValid() && s.TablesValid() && s.TimersValid() && s.PeersValid()
    ensures SameKnown(t, s, b')
  {
  }

  lemma {:induction false} LargerView(s: State, t: State, b: BusType, name: string, p: Ptr)
    requires SameKnown(t, s, b) && name !in s.Table(b) && t.Table(b) == s.Table(b)[name := p] && p in t.memory
    ensures t.View(b) == s.View(b)[name := t.KnownOf(p)]
  {
  }

  lemma {:induction false} AddedViews(s: State, t: State, b: BusType, peer: Peer)
    requires Added(s, t, b, peer) && s.MemoryValid() && s.TablesValid() && s.TimersValid() && s.PeersValid()
    ensures t.View(b) == s.View(b)[peer.name := Known(peer.pid, peer.cred.value, s.now)]
    ensures forall b' :: b' != b ==> t.View(b') == s.View(b')
  {
    AddedCached(s, t, b, peer);
    assert t.KnownOf(s.next_ptr) == Known(peer.pid, peer.cred.value, s.now);
    forall b' ensures SameKnown(t, s, b') {
      AddedSameKnown(s, t, b, peer, b');
    }
    assert s.next_ptr in t.memory && peer.name !in s.Table(b);
    hide *;
    LargerView(s, t, b, peer.name, s.next_ptr);
    forall b' | b' != b ensures t.View(b') == s.View(b') {
      SameView(t, s, b');
    }
  }

  lemma {:induction false} AddedBuses(s: State, t: State, b: BusType, peer: Peer)
    requires s.BusesValid() && Added(s, t, b, peer)
    ensures t.BusesValid()
  {
    var table := s.Table(b)[peer.name := s.next_ptr];
    assert peer.name in table;
    hide State.Table;
  }

  lemma {:induction false} AddedHistory(s: State, t: State, b: BusType, peer: Peer)
    requires s.HistoryValid() && Added(s, t, b, peer)
    requires s.MemoryValid() && s.TablesValid() && s.TimersValid() && s.PeersValid()
    requires t.trace == s.trace + [Fetch(b, peer.name, peer.pid, peer.cred.value)]
    ensures t.HistoryValid()
  {
    hide State.View, State.Table, State.MemoryValid, State.TablesValid, State.TimersValid, State.PeersValid, Replay;
    AddedNew(s, b, peer.name);
    AddedViews(s, t, b, peer);
    EachView(s, b);
    var e := t.trace[|s.trace|];
    assert t.trace[..|s.trace|] == s.trace && Possible(t.trace);
    hide State.HistoryValid, Possible;
    forall b' ensures t.View(b') == Step(s.View(b'), s.now, b', e) {
    }
    Happens(s, t, e);
  }

  lemma {:induction false} EachView(s: State, b: BusType)
    requires s.HistoryValid()
    ensures s.View(b) == Replay(s.trace, b)
  {
  }

  /** A successful fetch keeps everything. */
  lemma {:induction false} AddedKeeps(s: State, t: State, b: BusType, peer: Peer)
    requires s.Valid() && Added(s, t, b, peer)
    requires t.trace == s.trace + [Fetch(b, peer.name, peer.pid, peer.cred.value)]
    ensures t.Valid()
  {
    hide State.TimersValid, State.WatchesValid, State.TablesValid, State.PeersValid, State.MemoryValid,
         State.HistoryValid, State.BusesValid;
    AddedTimers(s, t, b, peer);
    AddedWatches(s, t, b, peer);
    AddedTables(s, t, b, peer);
    AddedPeers(s, t, b, peer);
    AddedMemory(s, t, b, peer);
    AddedBuses(s, t, b, peer);
    AddedHistory(s, t, b, peer);
    hide *;
  }

  lemma {:induction false} AddedNew(s: State, b: BusType, name: string)
    requires name !in s.Table(b)
    ensures name !in s.View(b)
  {
  }

  // Steps that restart a timer

  /** The timer of a cached peer was replaced by a new one. */
  ghost predicate Retimed(s: State, t: State, p: Ptr) {
    && s.Cached(p)
    && t.memory == s.memory[p := s.memory[p].(timeout_id := s.next_id)]
    && t.timers == (s.timers - {s.memory[p].timeout_id})[s.next_id := Timer(p, s.now + TIMEOUT_SEC)]
    && t == s.(memory := t.memory, timers := t.timers, next_id := s.next_id + 1, trace := t.trace)
  }

  lemma {:induction false} RetimedCached(s: State, t: State, p: Ptr)
    requires Retimed(s, t, p)
    ensures forall q :: t.Cached(q) == s.Cached(q)
    ensures forall b :: t.Table(b) == s.Table(b)
  {
  }

  lemma {:induction false} RetimedCallbacks(s: State, t: State, p: Ptr)
    requires Retimed(s, t, p) && s.TimersValid() && s.WatchesValid() && s.PeersValid() && s.next_id > 0
    ensures t.TimersValid() && t.WatchesValid()
  {
    RetimedCached(s, t, p);
    assert s.Watched(p);
    hide State.Cached, State.Table, State.PeersValid;
  }

  lemma {:induction false} RetimedPeers(s: State, t: State, p: Ptr)
    requires Retimed(s, t, p) && s.TimersValid() && s.PeersValid()
    ensures t.PeersValid()
  {
  }

  lemma {:induction false} RetimedTables(s: State, t: State, p: Ptr)
    requires Retimed(s, t, p) && s.TablesValid() && s.MemoryValid()
    ensures t.TablesValid() && t.MemoryValid()
  {
    RetimedCached(s, t, p);
    hide State.Table;
  }

  /** Nothing but what is known about one peer changed. */
  lemma {:induction false} RetimedView(s: State, t: State, p: Ptr, b: BusType)
    requires Retimed(s, t, p) && s.TimersValid() && s.PeersValid() && s.TablesValid()
    ensures forall n :: n in s.Table(b) && s.Table(b)[n] != p ==>
              var q := s.Table(b)[n]; q in s.memory && q in t.memory && t.KnownOf(q) == s.KnownOf(q)
  {
    forall n | n in s.Table(b) && s.Table(b)[n] != p
      ensures var q := s.Table(b)[n]; q in s.memory && q in t.memory && t.KnownOf(q) == s.KnownOf(q)
    {
      RetimedKnown(s, t, p, s.Table(b)[n]);
    }
    hide *;
  }

  lemma {:induction false} ViewBut(s: State, t: State, b: BusType, p: Ptr)
    requires t.Table(b) == s.Table(b) && p in s.memory && p in t.memory
    requires forall n :: n in s.Table(b) && s.Table(b)[n] != p ==>
               var q := s.Table(b)[n]; q in s.memory && q in t.memory && t.KnownOf(q) == s.KnownOf(q)
    ensures s.View(b).Keys <= s.Table(b).Keys
    ensures t.View(b) ==
      map n | n in s.View(b) && n in s.Table(b) :: if s.Table(b)[n] == p then t.KnownOf(p) else s.View(b)[n]
  {
  }

  lemma {:induction false} RetimedSelf(s: State, t: State, p: Ptr)
    requires Retimed(s, t, p) && s.TimersValid() && s.PeersValid()
    ensures p in t.memory && t.KnownOf(p) == s.KnownOf(p).(asked := s.now)
  {
  }

  /** A peer is in the tables once. */
  lemma {:induction false} OnePlace(s: State, p: Ptr)
    requires s.TablesValid() && s.Cached(p)
    ensures var b, n := s.memory[p].bus, s.memory[p].name;
      && n in s.Table(b) && s.Table(b)[n] == p
      && n in s.View(b) && s.View(b)[n] == s.KnownOf(p)
      && forall b', n' :: n' in s.Table(b') && s.Table(b')[n'] == p ==> b' == b && n' == n
  {
  }

  lemma {:induction false} RetimedViews(s: State, t: State, p: Ptr)
    requires Retimed(s, t, p) && s.TimersValid() && s.PeersValid() && s.TablesValid()
    ensures var b, n := s.memory[p].bus, s.memory[p].name;
      n in s.View(b) && t.View(b) == s.View(b)[n := s.View(b)[n].(asked := s.now)]
      && forall b' :: b' != b ==> t.View(b') == s.View(b')
  {
    hide State.TimersValid, State.PeersValid, State.TablesValid, State.Table, State.View, State.KnownOf;
    var b, n := s.memory[p].bus, s.memory[p].name;
    RetimedCached(s, t, p);
    RetimedSelf(s, t, p);
    OnePlace(s, p);
    forall b' ensures t.View(b') == if b' == b then s.View(b)[n := s.View(b)[n].(asked := s.now)] else s.View(b') {
      RetimedView(s, t, p, b');
      ViewBut(s, t, b', p);
    }
    hide *;
  }

  lemma {:induction false} RetimedKnown(s: State, t: State, p: Ptr, q: Ptr)
    requires Retimed(s, t, p) && s.TimersValid() && s.PeersValid() && s.Cached(q) && q != p
    ensures q in t.memory && t.KnownOf(q) == s.KnownOf(q)
  {
  }

  lemma {:induction false} RetimedHistory(s: State, t: State, p: Ptr)
    requires s.HistoryValid() && Retimed(s, t, p)
    requires s.TablesValid() && s.TimersValid() && s.PeersValid()
    requires t.trace == s.trace + [Hit(s.memory[p].bus, s.memory[p].name)]
    ensures t.HistoryValid()
  {
    hide State.View, State.Table, State.TablesValid, State.TimersValid, State.PeersValid, Replay;
    RetimedViews(s, t, p);
    EachView(s, s.memory[p].bus);
    var e := t.trace[|s.trace|];
    assert t.trace[..|s.trace|] == s.trace && Possible(t.trace);
    hide State.HistoryValid, Possible;
    forall b' ensures t.View(b') == Step(s.View(b'), s.now, b', e) {
    }
    Happens(s, t, e);
  }

  /** A get of a known name keeps everything. */
  lemma {:induction false} RetimedKeeps(s: State, t: State, p: Ptr)
    requires s.Valid() && Retimed(s, t, p)
    requires t.trace == s.trace + [Hit(s.memory[p].bus, s.memory[p].name)]
    ensures t.Valid()
  {
    hide State.TimersValid, State.WatchesValid, State.TablesValid, State.PeersValid, State.MemoryValid,
         State.HistoryValid;
    RetimedCallbacks(s, t, p);
    RetimedTables(s, t, p);
    RetimedPeers(s, t, p);
    RetimedHistory(s, t, p);
    hide *;
  }
}
