/**
 * What the peer cache promises about whole runs: a history of events per bus, and the abstract
 * expiring map that the history leaves behind.
 */
module PeerTrace {
  import opened CredSpec

  datatype BusType = SystemBus | SessionBus

  /** DBUSACCESS_PEER_TIMEOUT_SEC */
  const TIMEOUT_SEC: nat := 30

  datatype Event =
    | Tick(seconds: nat)
    | Fetch(bus: BusType, name: string, pid: nat, cred: Values)
    | Hit(bus: BusType, name: string)
    | Expire(bus: BusType, name: string)
    | Vanish(bus: BusType, name: string)
    | FlushName(bus: BusType, name: string)
    | FlushBus(bus: BusType)

  /** What is known about a name: the result of its fetch, and when it was last asked for. */
  datatype Known = Known(pid: nat, cred: Values, asked: nat)

  function Clock(trace: seq<Event>): nat {
    if trace == [] then 0
    else
      var e := trace[|trace| - 1];
      Clock(trace[..|trace| - 1]) + if e.Tick? then e.seconds else 0
  }

  /** The event makes the cache forget the name. */
  predicate Forgets(e: Event, b: BusType, name: string) {
    || e == Expire(b, name) || e == Vanish(b, name) || e == FlushName(b, name) || e == FlushBus(b)
  }

  function Step(table: map<string, Known>, now: nat, b: BusType, e: Event): map<string, Known> {
    match e
    case Tick(_) => table
    case Fetch(bus, name, pid, cred) => if bus == b then table[name := Known(pid, cred, now)] else table
    case Hit(bus, name) => if bus == b && name in table then table[name := table[name].(asked := now)] else table
    case Expire(bus, name) => if bus == b then table - {name} else table
    case Vanish(bus, name) => if bus == b then table - {name} else table
    case FlushName(bus, name) => if bus == b then table - {name} else table
    case FlushBus(bus) => if bus == b then map[] else table
  }

  /** The table of one bus after a history. */
  function Replay(trace: seq<Event>, b: BusType): map<string, Known> {
    if trace == [] then map[]
    else
      var front, e := trace[..|trace| - 1], trace[|trace| - 1];
      Step(Replay(front, b), Clock(front), b, e)
  }

  /** Fetches are for unknown names, hits and removals for known ones, and timers run out in time. */
  predicate Possible(trace: seq<Event>) {
    trace == [] ||
    var front, e := trace[..|trace| - 1], trace[|trace| - 1];
    && Possible(front)
    && match e
       case Fetch(b, name, _, _) => name !in Replay(front, b)
       case Hit(b, name) => name in Replay(front, b)
       case Expire(b, name) => name in Replay(front, b) && Clock(front) >= Replay(front, b)[name].asked + TIMEOUT_SEC
       case Vanish(b, name) => name in Replay(front, b)
       case FlushName(b, name) => name in Replay(front, b)
       case _ => true
  }

  /** The i-th event fetched the name, and nothing after it made the cache forget it. */
  ghost predicate FetchedAt(trace: seq<Event>, b: BusType, name: string, i: nat) {
    && i < |trace|
    && trace[i].Fetch? && trace[i].bus == b && trace[i].name == name
    && forall j :: i < j < |trace| ==> !Forgets(trace[j], b, name)
  }

  /**
   * A name is known exactly if it was fetched successfully and has since had no flush, no vanishing
   * and no timeout; what is known is the result of that fetch.
   */
  lemma {:induction false} KnownIffFetched(trace: seq<Event>, b: BusType, name: string)
    requires Possible(trace)
    ensures name in Replay(trace, b) <==> exists i: nat :: FetchedAt(trace, b, name, i)
    ensures forall i: nat :: FetchedAt(trace, b, name, i) ==>
              name in Replay(trace, b) && Replay(trace, b)[name].pid == trace[i].pid
                && Replay(trace, b)[name].cred == trace[i].cred
    decreases |trace|
  {
    if trace != [] {
      var last := |trace| - 1;
      var front, e := trace[..last], trace[last];
      KnownIffFetched(front, b, name);
      forall i: nat | FetchedAt(trace, b, name, i)
        ensures name in Replay(trace, b) && Replay(trace, b)[name].pid == trace[i].pid
          && Replay(trace, b)[name].cred == trace[i].cred
      {
        if i < last {
          assert !Forgets(trace[last], b, name);
          assert FetchedAt(front, b, name, i);
        }
      }
      if name in Replay(trace, b) {
        if e.Fetch? && e.bus == b && e.name == name {
          assert FetchedAt(trace, b, name, last);
        } else {
          assert name in Replay(front, b);
          var i: nat :| FetchedAt(front, b, name, i);
          assert !Forgets(e, b, name);
          forall j | i < j < |trace| ensures !Forgets(trace[j], b, name) {
            assert j < last ==> trace[j] == front[j];
          }
          assert FetchedAt(trace, b, name, i);
        }
      }
    }
  }

  /** The event is a get of the name. */
  predicate Asks(e: Event, b: BusType, name: string) {
    (e.Hit? && e.bus == b && e.name == name) || (e.Fetch? && e.bus == b && e.name == name)
  }

  lemma {:induction false} ClockGrows(trace: seq<Event>, i: nat, j: nat)
    requires i <= j <= |trace|
    ensures Clock(trace[..i]) <= Clock(trace[..j])
    decreases j
  {
    if i < j {
      assert trace[..j][..j - 1] == trace[..j - 1];
      ClockGrows(trace, i, j - 1);
    }
  }

  /** While a name is known, its last request is not before any get of it. */
  lemma {:induction false} AskedIsLatest(trace: seq<Event>, b: BusType, name: string, i: nat)
    requires i < |trace| && Asks(trace[i], b, name) && name in Replay(trace, b)
    requires Possible(trace)
    ensures Clock(trace[..i]) <= Replay(trace, b)[name].asked <= Clock(trace)
    decreases |trace|
  {
    var last := |trace| - 1;
    var front, e := trace[..last], trace[last];
    ClockGrows(trace, i, last);
    assert trace[..last + 1] == trace;
    ClockGrows(trace, last, last + 1);
    if i < last && !Asks(e, b, name) {
      assert front[..i] == trace[..i];
      AskedIsLatest(front, b, name, i);
    }
  }

  /** A timeout removal implies that nobody asked for the name in the last 30 seconds. */
  lemma {:induction false} ExpiresUnasked(trace: seq<Event>, b: BusType, name: string, i: nat, n: nat)
    requires Possible(trace) && i < n < |trace|
    requires trace[n] == Expire(b, name) && Asks(trace[i], b, name)
    ensures Clock(trace[..i]) + 30 <= Clock(trace[..n])
  {
    PossiblePrefix(trace, n + 1);
    var front := trace[..n];
    assert trace[..n + 1][..n] == front;
    assert front[..i] == trace[..i];
    AskedIsLatest(front, b, name, i);
  }

  lemma {:induction false} PossiblePrefix(trace: seq<Event>, n: nat)
    requires Possible(trace) && n <= |trace|
    ensures Possible(trace[..n])
    decreases |trace|
  {
    if n == |trace| {
      assert trace[..n] == trace;
    } else {
      var front := trace[..|trace| - 1];
      assert front[..n] == trace[..n];
      PossiblePrefix(front, n);
    }
  }

  /** The events that concern a bus. */
  function OnBus(trace: seq<Event>, b: BusType): seq<Event> {
    if trace == [] then []
    else
      var front, e := trace[..|trace| - 1], trace[|trace| - 1];
      OnBus(front, b) + if e.Tick? || e.bus == b then [e] else []
  }

  /** The two buses never affect each other: what happens on the other one may as well not happen. */
  lemma {:induction false} BusesAreIndependent(trace: seq<Event>, b: BusType)
    ensures Replay(OnBus(trace, b), b) == Replay(trace, b) && Clock(OnBus(trace, b)) == Clock(trace)
    decreases |trace|
  {
    if trace != [] {
      var front, e := trace[..|trace| - 1], trace[|trace| - 1];
      var mine := OnBus(front, b);
      BusesAreIndependent(front, b);
      ReplayNext(mine, e, b);
      ReplayNext(front, e, b);
      assert trace == front + [e];
      if !e.Tick? && e.bus != b {
        assert OnBus(trace, b) == mine + [] == mine;
        assert Step(Replay(front, b), Clock(front), b, e) == Replay(front, b);
      }
    }
  }

  lemma {:induction false} ReplayNext(trace: seq<Event>, e: Event, b: BusType)
    ensures Replay(trace + [e], b) == Step(Replay(trace, b), Clock(trace), b, e)
    ensures Clock(trace + [e]) == Clock(trace) + if e.Tick? then e.seconds else 0
  {
  }
}
