/**
 * The steps of the peer cache as relations between states, and what every run of them keeps: the
 * invariant, and that every peer is finalized once, at the moment its last reference goes.
 */
module PeerRuns {
  import opened Wrappers
  import opened PeerTrace
  import opened PeerState

  datatype Action =
    | Pass(seconds: nat)
    | Ref(p: Ptr)
    | Unref(p: Ptr)
    /** A get that found nothing out; answered tells whether the bus told a process id. */
    | Miss(answered: bool)
    /** A get of a cached peer. */
    | Touch(p: Ptr)
    /** A get that created this peer. */
    | Create(peer: Peer)
    | TimeOut(p: Ptr)
    | Disappear(p: Ptr)
    | Flush(p: Ptr)
    | FlushAll(bus: BusType)

  ghost predicate Initial(s: State) {
    && s.buses == map[SystemBus := Bus(None, false), SessionBus := Bus(None, false)]
    && s.memory == map[] && s.next_ptr == 0 && s.finalized == {}
    && s.timers == map[] && s.watches == map[] && s.next_id > 0 && s.now == 0
    && s.held == map[] && s.trace == []
  }

  lemma {:induction false} InitiallyValid(s: State)
    requires Initial(s)
    ensures s.Valid()
  {
  }

  /** Time passed. */
  ghost predicate Passed(s: State, t: State, seconds: nat) {
    t == s.(now := s.now + seconds, trace := s.trace + [Tick(seconds)])
  }

  /** A caller took a reference. */
  ghost predicate Referenced(s: State, t: State, p: Ptr) {
    && p in s.memory
    && t == s.(memory := s.memory[p := s.memory[p].(ref_count := s.memory[p].ref_count + 1)],
      held := s.held[p := s.Held(p) + 1])
  }

  /** A caller gave a reference back; the last reference takes the peer with it. */
  ghost predicate Unreferenced(s: State, t: State, p: Ptr) {
    && p in s.memory && s.Held(p) > 0
    && t.held == (if s.Held(p) == 1 then s.held - {p} else s.held[p := s.Held(p) - 1])
    && if s.memory[p].ref_count == 1
      then t == s.(memory := s.memory - {p}, finalized := s.finalized + {p}, held := t.held)
       else t == s.(memory := s.memory[p := s.memory[p].(ref_count := s.memory[p].ref_count - 1)], held := t.held)
  }

  /** A get failed: the peer that it created for the answer is gone again. */
  ghost predicate Missed(s: State, t: State, answered: bool) {
    && t.next_ptr == s.next_ptr + (if answered then 1 else 0) && s.next_id <= t.next_id
    && t.finalized == s.finalized + (if answered then {s.next_ptr} else {})
    && t == s.(next_ptr := t.next_ptr, next_id := t.next_id, finalized := t.finalized)
  }

  /** The events that take one peer out of the tables. */
  function Removal(a: Action, s: State): Event
    requires (a.TimeOut? || a.Disappear? || a.Flush?) && a.p in s.memory
  {
    var b, n := s.memory[a.p].bus, s.memory[a.p].name;
    if a.TimeOut? then Expire(b, n) else if a.Disappear? then Vanish(b, n) else FlushName(b, n)
  }

  /** The peer's timer may fire. */
  predicate Due(s: State, p: Ptr) {
    p in s.memory && s.memory[p].timeout_id in s.timers && s.timers[s.memory[p].timeout_id].due <= s.now
  }

  /** The peer left the table of its bus. */
  ghost predicate Removed(s: State, t: State, a: Action)
    requires a.TimeOut? || a.Disappear? || a.Flush?
  {
    && s.Cached(a.p) && Dropped(s, t, s.memory[a.p].bus, {a.p})
    && t.trace == s.trace + [Removal(a, s)]
  }

  ghost predicate Next(s: State, a: Action, t: State) {
    match a
    case Pass(seconds) => Passed(s, t, seconds)
    case Ref(p) => Referenced(s, t, p)
    case Unref(p) => Unreferenced(s, t, p)
    case Miss(answered) => Missed(s, t, answered)
    case Touch(p) => Retimed(s, t, p) && t.trace == s.trace + [Hit(s.memory[p].bus, s.memory[p].name)]
    case Create(peer) =>
      Added(s, t, peer.bus, peer) && t.trace == s.trace + [Fetch(peer.bus, peer.name, peer.pid, peer.cred.value)]
    case TimeOut(p) => Due(s, p) && Removed(s, t, a)
    case Disappear(_) => Removed(s, t, a)
    case Flush(_) => Removed(s, t, a)
    case FlushAll(b) => Dropped(s, t, b, s.Table(b).Values) && t.trace == s.trace + [FlushBus(b)]
  }

  // Every step keeps the invariant

  lemma {:induction false} PassedHistory(s: State, t: State, seconds: nat)
    requires s.HistoryValid() && Passed(s, t, seconds)
    requires forall b :: t.View(b) == s.View(b)
    ensures t.HistoryValid()
  {
  }

  lemma {:induction false} PassedKeeps(s: State, t: State, seconds: nat)
    requires s.Valid() && Passed(s, t, seconds)
    ensures t.Valid()
  {
    hide State.TimersValid, State.WatchesValid, State.TablesValid, State.PeersValid, State.MemoryValid,
         State.HistoryValid, State.View, CachedKept;
    NothingPeers(s, t);
    NothingMemory(s, t);
    CallbacksKept(s, t);
    TablesKept(s, t);
    PassedHistory(s, t, seconds);
  }

  lemma {:induction false} ReferencedCounts(s: State, t: State, p: Ptr)
    requires s.PeersValid() && s.MemoryValid() && Referenced(s, t, p)
    ensures forall q :: q in t.memory ==> t.memory[q].ref_count == t.References(q) > 0
    ensures forall q :: q in t.held ==> q in t.memory && t.held[q] > 0
  {
  }

  lemma {:induction false} ReferencedKeeps(s: State, t: State, p: Ptr)
    requires s.Valid() && Referenced(s, t, p)
    ensures t.Valid()
  {
    hide State.TimersValid, State.WatchesValid, State.TablesValid, State.PeersValid, State.MemoryValid,
         State.HistoryValid, State.BusesValid;
    ReferencedCounts(s, t, p);
    hide State.Valid, State.References, State.View;
    RefsChanged(s, t);
  }

  lemma {:induction false} UnreferencedCounts(s: State, t: State, p: Ptr)
    requires s.PeersValid() && s.MemoryValid() && Unreferenced(s, t, p) && s.memory[p].ref_count > 1
    ensures forall q :: q in t.memory ==> t.memory[q].ref_count == t.References(q) > 0
    ensures forall q :: q in t.held ==> q in t.memory && t.held[q] > 0
  {
  }

  /** The last reference is a caller's: the peer is in no table. */
  lemma {:induction false} LastReference(s: State, t: State, p: Ptr)
    requires s.PeersValid() && s.MemoryValid() && Unreferenced(s, t, p)
    ensures s.memory[p].ref_count >= 1
    ensures s.memory[p].ref_count == 1 ==>
      !s.Cached(p) && p !in t.held && forall q :: q in t.held ==> q in t.memory && t.held[q] > 0
    ensures forall q :: q != p ==> t.Held(q) == s.Held(q)
  {
  }

  lemma {:induction false} UnreferencedKeeps(s: State, t: State, p: Ptr)
    requires s.Valid() && Unreferenced(s, t, p)
    ensures t.Valid()
  {
    hide State.TimersValid, State.WatchesValid, State.TablesValid, State.PeersValid, State.MemoryValid,
         State.HistoryValid, State.BusesValid, State.Cached, State.References, State.View;
    LastReference(s, t, p);
    if s.memory[p].ref_count == 1 {
      hide State.Valid, State.Held;
      UncachedGone(s, t, p);
    } else {
      UnreferencedCounts(s, t, p);
      hide State.Valid;
      RefsChanged(s, t);
    }
  }

  /** Without one peer, its name is unknown on its bus. */
  lemma {:induction false} WithoutOne(s: State, p: Ptr)
    requires s.TablesValid() && s.Cached(p)
    ensures var b, n := s.memory[p].bus, s.memory[p].name;
      && s.View(b).Keys <= s.Table(b).Keys && n in s.View(b) && s.View(b)[n] == s.KnownOf(p)
      && s.View(b) - {n} == s.ViewWithout(b, {p})
  {
  }

  /** A timer that fires was last restarted 30 seconds ago. */
  lemma {:induction false} DueIsUnasked(s: State, p: Ptr)
    requires s.TimersValid() && s.PeersValid() && s.Cached(p) && Due(s, p)
    ensures s.KnownOf(p).asked + TIMEOUT_SEC <= s.now
  {
  }

  lemma {:induction false} RemovalFits(trace: seq<Event>, e: Event, b: BusType, n: string)
    requires Possible(trace) && n in Replay(trace, b)
    requires e == Vanish(b, n) || e == FlushName(b, n) ||
      (e == Expire(b, n) && Replay(trace, b)[n].asked + TIMEOUT_SEC <= Clock(trace))
    ensures Possible(trace + [e])
  {
  }

  lemma {:induction false} RemovalPossible(s: State, a: Action)
    requires a.TimeOut? || a.Disappear? || a.Flush?
    requires s.TimersValid() && s.PeersValid() && s.TablesValid() && s.HistoryValid()
    requires s.Cached(a.p) && (a.TimeOut? ==> Due(s, a.p))
    ensures Possible(s.trace + [Removal(a, s)])
  {
    var b, n := s.memory[a.p].bus, s.memory[a.p].name;
    WithoutOne(s, a.p);
    EachView(s, b);
    if a.TimeOut? {
      DueIsUnasked(s, a.p);
    }
    hide State.TimersValid, State.PeersValid, State.TablesValid, State.View, State.KnownOf, State.Cached, Possible,
         Replay, Due;
    RemovalFits(s.trace, Removal(a, s), b, n);
  }

  lemma {:induction false} RemovedKeeps(s: State, t: State, a: Action)
    requires a.TimeOut? || a.Disappear? || a.Flush?
    requires s.Valid() && Removed(s, t, a) && (a.TimeOut? ==> Due(s, a.p))
    ensures t.Valid()
  {
    hide State.TimersValid, State.WatchesValid, State.TablesValid, State.PeersValid, State.MemoryValid,
         State.HistoryValid, State.BusesValid, State.View, State.KnownOf, State.Table, Dropped, Due, Possible;
    RemovalPossible(s, a);
    WithoutOne(s, a.p);
    var p, e := a.p, Removal(a, s);
    var b := s.memory[p].bus;
    assert Step(s.View(b), s.now, b, e) == s.ViewWithout(b, {p});
    assert forall b' :: b' != b ==> Step(s.View(b'), s.now, b', e) == s.View(b');
    assert Dropped(s, t, b, {p}) && t.trace == s.trace + [e];
    hide *;
    DroppedKeeps(s, t, b, {p}, e);
  }

  lemma {:induction false} WithoutAll(s: State, b: BusType)
    ensures s.ViewWithout(b, s.Table(b).Values) == map[]
  {
  }

  lemma {:induction false} AllRemovedKeeps(s: State, t: State, b: BusType)
    requires s.Valid() && Dropped(s, t, b, s.Table(b).Values) && t.trace == s.trace + [FlushBus(b)]
    ensures t.Valid()
  {
    hide State.TimersValid, State.WatchesValid, State.TablesValid, State.PeersValid, State.MemoryValid,
         State.BusesValid, State.KnownOf, Dropped, Replay;
    assert t.trace[..|s.trace|] == s.trace && Possible(t.trace);
    var e := FlushBus(b);
    WithoutAll(s, b);
    assert Step(s.View(b), s.now, b, e) == s.ViewWithout(b, s.Table(b).Values);
    assert forall b' :: b' != b ==> Step(s.View(b'), s.now, b', e) == s.View(b');
    hide *;
    DroppedKeeps(s, t, b, s.Table(b).Values, e);
  }

  /** Every step keeps the invariant. */
  lemma {:induction false} NextKeeps(s: State, a: Action, t: State)
    requires s.Valid() && Next(s, a, t)
    ensures t.Valid()
  {
    hide State.Valid, Passed, Referenced, Unreferenced, Removed, Retimed, Dropped, Added;
    match a
    case Pass(seconds) => PassedKeeps(s, t, seconds);
    case Ref(p) => ReferencedKeeps(s, t, p);
    case Unref(p) => UnreferencedKeeps(s, t, p);
    case Miss(_) => NothingKept(s, t);
    case Touch(p) => RetimedKeeps(s, t, p);
    case Create(peer) => AddedKeeps(s, t, peer.bus, peer);
    case TimeOut(_) => RemovedKeeps(s, t, a);
    case Disappear(_) => RemovedKeeps(s, t, a);
    case Flush(_) => RemovedKeeps(s, t, a);
    case FlushAll(b) => AllRemovedKeeps(s, t, b);
  }

  // Runs

  /** states[0] is the initial state, and the i-th action leads from states[i] to the state after it. */
  ghost predicate IsRun(states: seq<State>, actions: seq<Action>) {
    && |states| == |actions| + 1
    && if actions == [] then Initial(states[0])
       else
         var n := |actions| - 1;
         IsRun(states[..|actions|], actions[..n]) && Next(states[n], actions[n], states[|actions|])
  }

  /** Every state of every run is valid. */
  lemma {:induction false} RunKeeps(states: seq<State>, actions: seq<Action>)
    requires IsRun(states, actions)
    ensures states[|actions|].Valid()
    decreases |actions|
  {
    hide State.Valid, Next, Initial;
    if actions == [] {
      InitiallyValid(states[0]);
    } else {
      var n := |actions| - 1;
      RunKeeps(states[..|actions|], actions[..n]);
      NextKeeps(states[n], actions[n], states[|actions|]);
    }
  }

  /** The timers that carry the peer. */
  function TimersOf(s: State, p: Ptr): set<nat> {
    set id | id in s.timers && s.timers[id].data == p
  }

  /** The watches that carry the peer. */
  function WatchesOf(s: State, p: Ptr): set<nat> {
    set id | id in s.watches && s.watches[id] == p
  }

  /**
   * After every run a pending callback carries a live peer that is in its own bus's table under its
   * own name; a peer in a table has exactly one timer and one watch, and another one has none.
   */
  lemma {:induction false} CallbacksAreLive(states: seq<State>, actions: seq<Action>, p: Ptr)
    requires IsRun(states, actions)
    ensures var s := states[|actions|];
      && (TimersOf(s, p) != {} || WatchesOf(s, p) != {} ==> s.Cached(p))
      && (s.Cached(p) ==> TimersOf(s, p) == {s.memory[p].timeout_id} && WatchesOf(s, p) == {s.memory[p].name_watch_id})
  {
    RunKeeps(states, actions);
    OneCallbackEach(states[|actions|], p);
  }

  lemma {:induction false} OneCallbackEach(s: State, p: Ptr)
    requires s.Valid()
    ensures TimersOf(s, p) != {} || WatchesOf(s, p) != {} ==> s.Cached(p)
    ensures s.Cached(p) ==> TimersOf(s, p) == {s.memory[p].timeout_id} && WatchesOf(s, p) == {s.memory[p].name_watch_id}
  {
    hide State.TablesValid, State.MemoryValid, State.BusesValid, State.HistoryValid;
    if s.Cached(p) {
      assert s.PeerValid(p) && s.Watched(p);
    }
    hide State.Cached, State.PeersValid, State.Table;
  }

  /** After every run a bus is connected exactly while some peer is in its table. */
  lemma {:induction false} ConnectedWhileCached(states: seq<State>, actions: seq<Action>, b: BusType)
    requires IsRun(states, actions)
    ensures b in states[|actions|].buses
    ensures states[|actions|].buses[b].connection <==> states[|actions|].Table(b) != map[]
  {
    RunKeeps(states, actions);
    var s := states[|actions|];
    assert s.BusesValid();
    hide IsRun;
    match b
    case SystemBus =>
    case SessionBus =>
  }

  /** Addresses are never reused, and what is finalized stays so. */
  lemma {:induction false} NextGrows(s: State, a: Action, t: State)
    requires Next(s, a, t)
    ensures s.next_ptr <= t.next_ptr && s.finalized <= t.finalized
  {
  }

  /** A peer keeps its bus, name, process id and credentials for as long as it lives. */
  lemma {:induction false} NextKeepsIdentity(s: State, a: Action, t: State, p: Ptr)
    requires s.MemoryValid() && Next(s, a, t) && p in s.memory && p in t.memory
    ensures t.memory[p].bus == s.memory[p].bus && t.memory[p].name == s.memory[p].name
    ensures t.memory[p].pid == s.memory[p].pid && t.memory[p].cred == s.memory[p].cred
  {
    assert p < s.next_ptr;
    hide State.MemoryValid, State.Cached, State.Table;
    match a
    case Pass(_) =>
    case Ref(_) =>
    case Unref(_) =>
    case Miss(_) =>
    case Touch(_) =>
    case Create(_) =>
    case TimeOut(_) =>
    case Disappear(_) =>
    case Flush(_) =>
    case FlushAll(_) =>
  }

  /** A live peer counts its references, and one that was finalized has none. */
  lemma {:induction false} RefCounts(s: State, p: Ptr)
    requires s.Valid() && p < s.next_ptr
    ensures p in s.memory <==> p !in s.finalized
    ensures p in s.memory ==> s.memory[p].ref_count == s.References(p) > 0
    ensures p in s.finalized ==> s.References(p) == 0
  {
  }

  /** The i-th step finalized the peer. */
  predicate FinalizedBy(states: seq<State>, i: nat, p: Ptr) {
    i < |states| - 1 && p !in states[i].finalized && p in states[i + 1].finalized
  }

  lemma {:induction false} FinalizedFrom(states: seq<State>, actions: seq<Action>, i: nat, p: Ptr)
    requires IsRun(states, actions) && i <= |actions| && p in states[i].finalized
    ensures p in states[|actions|].finalized
    decreases |actions|
  {
    if i < |actions| {
      var n := |actions| - 1;
      FinalizedFrom(states[..|actions|], actions[..n], i, p);
      NextGrows(states[n], actions[n], states[|actions|]);
    }
  }

  /**
   * Every peer that was ever allocated is either live, with exactly as many references as it counts,
   * or it was finalized by exactly one step: that step took its last reference, unless the peer was
   * created by the same step, a get that failed.
   */
  lemma {:induction false} FinalizedOnce(states: seq<State>, actions: seq<Action>, p: Ptr)
    requires IsRun(states, actions) && p < states[|actions|].next_ptr
    ensures var s := states[|actions|];
      if p in s.memory then
        && s.memory[p].ref_count == s.References(p) > 0
        && forall i: nat :: !FinalizedBy(states, i, p)
      else
        && s.References(p) == 0
        && (exists i: nat :: FinalizedBy(states, i, p))
        && (forall i: nat, j: nat :: FinalizedBy(states, i, p) && FinalizedBy(states, j, p) ==> i == j)
  {
    assert |states| == |actions| + 1;
    hide IsRun, State.Valid, State.References;
    RunKeeps(states, actions);
    RefCounts(states[|actions|], p);
    if p in states[|actions|].memory {
      forall i: nat ensures !FinalizedBy(states, i, p) {
        if FinalizedBy(states, i, p) {
          FinalizedFrom(states, actions, i + 1, p);
        }
      }
    } else {
      SomeStepFinalizes(states, actions, p);
      forall i: nat, j: nat | FinalizedBy(states, i, p) && FinalizedBy(states, j, p) ensures i == j {
        OneStepFinalizes(states, actions, i, j, p);
        OneStepFinalizes(states, actions, j, i, p);
      }
    }
  }

  lemma {:induction false} OneStepFinalizes(states: seq<State>, actions: seq<Action>, i: nat, j: nat, p: Ptr)
    requires IsRun(states, actions) && FinalizedBy(states, i, p) && FinalizedBy(states, j, p)
    ensures i >= j
  {
    hide Next;
    if i < j {
      FinalizedStays(states, actions, i + 1, j, p);
    }
  }

  lemma {:induction false} RunPrefix(states: seq<State>, actions: seq<Action>, n: nat)
    requires IsRun(states, actions) && n <= |actions|
    ensures IsRun(states[..n + 1], actions[..n])
    decreases |actions|
  {
    hide Next, Initial;
    if n == |actions| {
      assert states[..n + 1] == states && actions[..n] == actions;
    } else {
      var m := |actions| - 1;
      RunPrefix(states[..|actions|], actions[..m], n);
      assert states[..|actions|][..n + 1] == states[..n + 1] && actions[..m][..n] == actions[..n];
    }
  }

  lemma {:induction false} FinalizedStays(states: seq<State>, actions: seq<Action>, i: nat, j: nat, p: Ptr)
    requires IsRun(states, actions) && i <= j <= |actions| && p in states[i].finalized
    ensures p in states[j].finalized
  {
    RunPrefix(states, actions, j);
    FinalizedFrom(states[..j + 1], actions[..j], i, p);
  }

  lemma {:induction false} SomeStepFinalizes(states: seq<State>, actions: seq<Action>, p: Ptr)
    requires IsRun(states, actions) && p in states[|actions|].finalized
    ensures exists i: nat :: FinalizedBy(states, i, p)
    decreases |actions|
  {
    hide Next;
    if actions != [] {
      var n := |actions| - 1;
      if p in states[n].finalized {
        SomeStepFinalizes(states[..|actions|], actions[..n], p);
        var i: nat :| FinalizedBy(states[..|actions|], i, p);
        assert FinalizedBy(states, i, p);
      } else {
        assert FinalizedBy(states, n, p);
      }
    }
  }

  /** The step that finalizes a peer takes its last reference, or else it created the peer. */
  lemma {:induction false} FinalizedAtZero(states: seq<State>, actions: seq<Action>, i: nat, p: Ptr)
    requires IsRun(states, actions) && FinalizedBy(states, i, p)
    ensures states[i + 1].References(p) == 0
    ensures states[i].References(p) > 0 || (p == states[i].next_ptr && actions[i] == Miss(true))
  {
    RunPrefix(states, actions, i);
    RunPrefix(states, actions, i + 1);
    RunKeeps(states[..i + 1], actions[..i]);
    RunKeeps(states[..i + 2], actions[..i + 1]);
    assert Next(states[i], actions[i], states[i + 1]) by {
      assert states[..i + 2][i] == states[i] && states[..i + 2][i + 1] == states[i + 1];
    }
    var s, t := states[i], states[i + 1];
    assert s.Valid() && t.Valid();
    assert p < t.next_ptr;
    RefCounts(t, p);
    if p < s.next_ptr {
      RefCounts(s, p);
    } else {
      OnlyMissWastes(s, actions[i], t, p);
    }
  }

  lemma {:induction false} OnlyMissWastes(s: State, a: Action, t: State, p: Ptr)
    requires s.MemoryValid() && Next(s, a, t) && s.next_ptr <= p && p in t.finalized
    ensures a == Miss(true) && p == s.next_ptr
  {
  }

  /**
   * A name is in a bus's table exactly if it was fetched successfully and nothing has made the cache
   * forget it since; the peer has the process id and the credentials of that fetch.
   */
  lemma {:induction false} CachedIffFetched(states: seq<State>, actions: seq<Action>, b: BusType, n: string)
    requires IsRun(states, actions)
    ensures var s := states[|actions|];
      && (n in s.Table(b) <==> exists i: nat :: FetchedAt(s.trace, b, n, i))
      && forall i: nat :: FetchedAt(s.trace, b, n, i) && n in s.Table(b) ==>
           var p := s.Table(b)[n];
           p in s.memory && s.memory[p].pid == s.trace[i].pid && s.memory[p].cred == Some(s.trace[i].cred)
  {
    RunKeeps(states, actions);
    var s := states[|actions|];
    hide State.TimersValid, State.WatchesValid, State.TablesValid, State.PeersValid, State.MemoryValid,
         State.BusesValid;
    KnownIffFetched(s.trace, b, n);
    EachView(s, b);
    if n in s.Table(b) {
      KnownPeer(s, b, n);
    }
    hide *;
  }

  lemma {:induction false} KnownPeer(s: State, b: BusType, n: string)
    requires s.TablesValid() && s.PeersValid() && n in s.Table(b)
    ensures var p := s.Table(b)[n];
      p in s.memory && s.memory[p].cred.Some? && n in s.View(b) && s.View(b)[n] == s.KnownOf(p)
  {
  }

  /**
   * After every run each table is the abstract expiring map that the run's events leave behind, and
   * the events of the other bus may as well not have happened.
   */
  lemma {:induction false} TablesRefineMaps(states: seq<State>, actions: seq<Action>, b: BusType)
    requires IsRun(states, actions)
    ensures var s := states[|actions|];
      && Possible(s.trace) && Clock(s.trace) == s.now
      && s.View(b).Keys == s.Table(b).Keys
      && s.View(b) == Replay(s.trace, b) == Replay(OnBus(s.trace, b), b)
  {
    RunKeeps(states, actions);
    var s := states[|actions|];
    hide State.TimersValid, State.WatchesValid, State.PeersValid, State.MemoryValid, State.BusesValid;
    assert s.View(b).Keys == s.Table(b).Keys by {
      hide State.KnownOf, State.HistoryValid;
    }
    EachView(s, b);
    BusesAreIndependent(s.trace, b);
    hide *;
  }

  /** When a timer removes a name, nobody has asked for it in the last 30 seconds. */
  lemma {:induction false} TimedOutUnasked(states: seq<State>, actions: seq<Action>, b: BusType, name: string, i: nat,
                                           n: nat)
    requires IsRun(states, actions)
    requires i < n < |states[|actions|].trace|
    requires states[|actions|].trace[n] == Expire(b, name) && Asks(states[|actions|].trace[i], b, name)
    ensures Clock(states[|actions|].trace[..i]) + 30 <= Clock(states[|actions|].trace[..n])
  {
    TablesRefineMaps(states, actions, b);
    hide IsRun;
    ExpiresUnasked(states[|actions|].trace, b, name, i, n);
  }
}
