/**
 Which master a node follows, over runs with power cuts and any passage of time. Times are milliseconds
 since the last boot and unbounded; the node itself sees them modulo 2^32.
 */
module MasterLearning {
  import opened Basics
  import opened MeshTypes
  import opened ReplayCache
  import opened MeshNode

  /** A node, the time since boot, and when it last accepted a beacon (0 if not since boot). */
  datatype Unit = Unit(node: Node, clock: nat, last: nat)

  datatype Step =
    | Frame(src: Mac, msg: MeshMsg, jitter: nat)
    | Timeout
    | Tick
    | Pass(ms: nat)
    | PowerCut(peers: seq<Peer>)

  function Now(u: Unit): uint32 { u.clock % TWO_32 }

  /** The fields of a node that has just loaded what flash holds. */
  function Booted(n: Node, peers: seq<Peer>): Node {
    n.(peers := peers, current := NO_ROUTE, lastBeaconRx := 0,
       hasMaster := n.flashMaster != BROADCAST_MAC, knownMaster := n.flashMaster,
       hasSecondary := n.dualMode && n.flashSecondary != BROADCAST_MAC,
       knownSecondary := if n.dualMode then n.flashSecondary else BROADCAST_MAC,
       relayedEpoch := 0, relayedSeq := 0, relay := None, relayAt := 0, enrollment := None, history := [])
  }

  function Next(u: Unit, step: Step): Unit {
    match step
    case Frame(src, m, jitter) =>
      Unit(OnFrame(u.node, src, m, Now(u), jitter).node, u.clock,
           if AcceptedBeacon(u.node, m, Now(u)) then u.clock else u.last)
    case Timeout => u.(node := OnTimeout(u.node, Now(u)))
    case Tick => u.(node := OnTick(u.node, Now(u)).node)
    case Pass(ms) => u.(clock := u.clock + ms)
    case PowerCut(peers) => Unit(Booted(u.node, peers), 0, 0)
  }

  ghost predicate IsRun(states: seq<Unit>, steps: seq<Step>) {
    |states| == |steps| + 1 && forall i | 0 <= i < |steps| :: states[i + 1] == Next(states[i], steps[i])
  }

  // ---------- The invariant ----------

  /** A live route leads to a master the node knows, and flash holds exactly the masters it knows. */
  predicate MastersOk(n: Node) {
    && (n.current.distance != 0xFF ==> FromKnownMaster(n, n.current.mac))
    && (n.hasMaster ==> n.flashMaster == n.knownMaster)
    && (!n.hasMaster ==> n.flashMaster == BROADCAST_MAC)
    && (n.dualMode && n.hasSecondary ==> n.flashSecondary == n.knownSecondary)
    && (n.dualMode && !n.hasSecondary ==> n.flashSecondary == BROADCAST_MAC)
    && (!n.hasMaster ==> n.current.distance == 0xFF)
  }

  /** The time stamp of the last accepted beacon is right, or it was reset after going stale. */
  predicate ClockOk(u: Unit) {
    && u.last <= u.clock
    && (u.node.lastBeaconRx == u.last % TWO_32
        || (u.node.lastBeaconRx == 0 && u.clock - u.last > STALE_MASTER_THRESHOLD_MS))
  }

  predicate Inv(u: Unit) { MastersOk(u.node) && ClockOk(u) }

  /** What the invariant reads of a node, and its role. */
  predicate SameMasters(a: Node, b: Node) {
    && a.dualMode == b.dualMode && a.current == b.current && a.lastBeaconRx == b.lastBeaconRx
    && a.hasMaster == b.hasMaster && a.knownMaster == b.knownMaster && a.flashMaster == b.flashMaster
    && a.hasSecondary == b.hasSecondary && a.knownSecondary == b.knownSecondary && a.flashSecondary == b.flashSecondary
  }

  /** The 32-bit clock never makes an interval look longer than it was. */
  lemma ElapsedAtMost(clock: nat, since: nat)
    requires since <= clock
    ensures Elapsed(clock % TWO_32, since % TWO_32) <= clock - since
  {
    assert clock == TWO_32 * (clock / TWO_32) + clock % TWO_32;
    assert since == TWO_32 * (since / TWO_32) + since % TWO_32;
  }

  /** Going stale by the node's own clock means having been silent at least that long, since boot too. */
  lemma StaleIsSilent(u: Unit)
    requires ClockOk(u)
    ensures Elapsed(Now(u), u.node.lastBeaconRx) >= STALE_MASTER_THRESHOLD_MS ==>
              u.clock - u.last >= STALE_MASTER_THRESHOLD_MS
    ensures Elapsed(Now(u), u.node.lastBeaconRx) > STALE_MASTER_THRESHOLD_MS ==>
              u.clock - u.last > STALE_MASTER_THRESHOLD_MS
  {
    hide TWO_32;
    ElapsedAtMost(u.clock, u.last);
  }

  // ---------- Steps ----------

  lemma AcceptedMasters(n: Node, m: MeshMsg, now: uint32, jitter: nat)
    requires MastersOk(n) && Accepts(n, m, now)
    ensures var b := OnBeacon(n, m, now, jitter);
            && MastersOk(b) && b.lastBeaconRx == now && b.current.mac == m.origin && b.current.distance <= MAX_HOPS
            && b.hasMaster && b.dualMode == n.dualMode
  {
    hide Newer, Hopped;
    var learned := LearnMaster(n, m.origin);
    LearnedMasters(n, m, now);
    ScheduleKeeps(learned.(lastBeaconRx := now, current := LearnRoute(n.current, m)), m, now, jitter);
  }

  lemma LearnedMasters(n: Node, m: MeshMsg, now: uint32)
    requires MastersOk(n) && Accepts(n, m, now)
    ensures var l := LearnMaster(n, m.origin);
            && l.dualMode == n.dualMode && FromKnownMaster(l, m.origin)
            && MastersOk(l.(current := LearnRoute(n.current, m)))
            && LearnRoute(n.current, m).mac == m.origin && LearnRoute(n.current, m).distance <= MAX_HOPS
  {
  }

  lemma ScheduleKeeps(n: Node, m: MeshMsg, now: uint32, jitter: nat)
    requires m.hopCount < MAX_HOPS
    ensures SameMasters(n, ScheduleRelay(n, m, now, jitter))
  {
  }

  /** What a frame does to the masters a node knows, whatever its type. */
  lemma FrameMasters(n: Node, src: Mac, m: MeshMsg, now: uint32, jitter: nat)
    requires MastersOk(n)
    ensures var e := OnFrame(n, src, m, now, jitter).node;
            && MastersOk(e) && e.dualMode == n.dualMode
            && (AcceptedBeacon(n, m, now) ==> e.lastBeaconRx == now && e.hasMaster && FromKnownMaster(e, m.origin))
            && (!AcceptedBeacon(n, m, now) ==> e.lastBeaconRx == n.lastBeaconRx)
  {
    hide HeardFrom, OnBeacon, Accepts, OnAdapterData, OnJoinAck, MastersOk;
    var recorded := if Checked(m) then n.(history := Recorded(n.history, IdOf(m))) else n;
    HeardKeeps(recorded, src, now);
    var k := HeardFrom(recorded, src, now);
    SameMastersOk(n, k);
    SameAccepts(n, k, m, now);
    if m.messageType == TYPE_MASTER_BEACON && Accepts(k, m, now) {
      AcceptedMasters(k, m, now, jitter);
      RouteIsKnown(OnBeacon(k, m, now, jitter));
    }
    OtherMasters(k, m, now);
    RejectedBeacon(k, m, now, jitter);
  }

  lemma RouteIsKnown(n: Node)
    requires MastersOk(n) && n.current.distance <= MAX_HOPS
    ensures FromKnownMaster(n, n.current.mac)
  {
  }

  lemma SameMastersOk(a: Node, b: Node)
    requires MastersOk(a) && SameMasters(a, b)
    ensures MastersOk(b)
  {
  }

  lemma SameAccepts(a: Node, b: Node, m: MeshMsg, now: uint32)
    requires SameMasters(a, b)
    ensures Accepts(a, m, now) == Accepts(b, m, now)
  {
  }

  lemma RejectedBeacon(n: Node, m: MeshMsg, now: uint32, jitter: nat)
    ensures !Accepts(n, m, now) ==> OnBeacon(n, m, now, jitter) == n
  {
  }

  /** Adapter data and acknowledgements leave route and clock alone. An acknowledgement can make its
      sender the master, but only of a node that has none, and such a node has no route. */
  lemma OtherMasters(n: Node, m: MeshMsg, now: uint32)
    requires MastersOk(n)
    ensures OnAdapterData(n, m, now).node == n
    ensures MastersOk(OnEnrollment(n, m)) && SameMasters(n, OnEnrollment(n, m))
    ensures var e := OnJoinAck(n, m).node;
            && MastersOk(e) && e.lastBeaconRx == n.lastBeaconRx && e.current == n.current && e.dualMode == n.dualMode
            && (n.hasMaster ==> e.hasMaster && e.knownMaster == n.knownMaster)
  {
    hide RelayDownlink, Transmit;
  }

  lemma BootMasters(n: Node, peers: seq<Peer>)
    requires MastersOk(n)
    ensures MastersOk(Booted(n, peers))
    ensures n.hasMaster && n.knownMaster != BROADCAST_MAC ==>
              Booted(n, peers).hasMaster && Booted(n, peers).knownMaster == n.knownMaster
    ensures n.hasMaster && n.knownMaster == BROADCAST_MAC ==> !Booted(n, peers).hasMaster
  {
  }

  lemma StepKeepsInv(u: Unit, step: Step)
    requires Inv(u)
    ensures Inv(Next(u, step)) && Next(u, step).node.dualMode == u.node.dualMode
  {
    hide OnFrame, AcceptedBeacon;
    match step
    case Frame(src, m, jitter) =>
      hide MastersOk;
      FrameMasters(u.node, src, m, Now(u), jitter);
    case Timeout =>
      StaleIsSilent(u);
    case Tick =>
    case Pass(ms) =>
    case PowerCut(peers) =>
      hide MastersOk;
      BootMasters(u.node, peers);
  }

  // ---------- Who can become master, and when ----------

  /** Nothing but an accepted beacon of a stranger replaces the known master, and that only after at least
      nine seconds since boot without any accepted beacon. */
  lemma ReplacedOnlyWhenStale(u: Unit, step: Step)
    requires Inv(u) && u.node.hasMaster && !step.PowerCut?
    requires Next(u, step).node.knownMaster != u.node.knownMaster
    ensures step.Frame? && AcceptedBeacon(u.node, step.msg, Now(u)) && !FromKnownMaster(u.node, step.msg.origin)
    ensures Next(u, step).node.knownMaster == step.msg.origin
    ensures u.clock >= 9000 && u.clock - u.last >= 9000
  {
    hide OnFrame, AcceptedBeacon, OnTimeout, OnTick;
    StaleIsSilent(u);
    match step
    case Frame(src, m, jitter) => FramePrimary(u.node, src, m, Now(u), jitter);
    case Timeout => TimeoutPrimary(u.node, Now(u));
    case Tick => TickPrimary(u.node, Now(u));
    case Pass(ms) =>
  }

  lemma TimeoutPrimary(n: Node, now: uint32)
    ensures OnTimeout(n, now).knownMaster == n.knownMaster
  {
  }

  lemma TickPrimary(n: Node, now: uint32)
    ensures OnTick(n, now).node.knownMaster == n.knownMaster
  {
  }

  /** When a frame changes the first known master, and what it becomes. */
  lemma FramePrimary(n: Node, src: Mac, m: MeshMsg, now: uint32, jitter: nat)
    requires n.hasMaster
    ensures var e := OnFrame(n, src, m, now, jitter).node;
            e.knownMaster != n.knownMaster ==>
              && AcceptedBeacon(n, m, now) && !FromKnownMaster(n, m.origin) && e.knownMaster == m.origin
              && Elapsed(now, n.lastBeaconRx) >= STALE_MASTER_THRESHOLD_MS
  {
    hide HeardFrom, OnBeacon, Accepts, OnAdapterData, OnJoinAck, OnEnrollment;
    var recorded := if Checked(m) then n.(history := Recorded(n.history, IdOf(m))) else n;
    HeardKeeps(recorded, src, now);
    var k := HeardFrom(recorded, src, now);
    SameAccepts(n, k, m, now);
    BeaconPrimary(k, m, now, jitter);
    OtherPrimary(k, m, now);
  }

  lemma OtherPrimary(n: Node, m: MeshMsg, now: uint32)
    requires n.hasMaster
    ensures OnAdapterData(n, m, now).node.knownMaster == n.knownMaster
    ensures OnJoinAck(n, m).node.knownMaster == n.knownMaster
    ensures OnEnrollment(n, m).knownMaster == n.knownMaster
  {
    hide RelayDownlink, Transmit;
  }

  lemma BeaconPrimary(n: Node, m: MeshMsg, now: uint32, jitter: nat)
    requires n.hasMaster
    ensures OnBeacon(n, m, now, jitter).knownMaster != n.knownMaster ==>
              && Accepts(n, m, now) && !FromKnownMaster(n, m.origin)
              && OnBeacon(n, m, now, jitter).knownMaster == m.origin
              && Elapsed(now, n.lastBeaconRx) >= STALE_MASTER_THRESHOLD_MS
  {
    hide Newer, Hopped, LearnRoute;
    if Accepts(n, m, now) {
      var learned := LearnMaster(n, m.origin).(lastBeaconRx := now, current := LearnRoute(n.current, m));
      ScheduleKeeps(learned, m, now, jitter);
    }
  }

  /** A beacon of a stranger who is not to become the second master. */
  predicate FromStranger(u: Unit, m: MeshMsg) {
    && u.node.hasMaster && !FromKnownMaster(u.node, m.origin) && !(u.node.dualMode && !u.node.hasSecondary)
    && m.hopCount < MAX_HOPS
  }

  /** Nine seconds have passed since boot and since the last accepted beacon. */
  predicate LongSilent(u: Unit) { u.clock - u.last >= 9000 }

  /** The stamp of the last accepted beacon is still there, not reset by a timeout. */
  predicate Stamped(u: Unit) { u.node.lastBeaconRx == u.last % TWO_32 }

  /** What the node measures: milliseconds since the stamp, or since the clock last stood at 0 once the stamp has
      been reset, both modulo 2^32. */
  function Measured(u: Unit): nat {
    if Stamped(u) then (u.clock - u.last) % TWO_32 else u.clock % TWO_32
  }

  lemma ElapsedIs(clock: nat, since: nat)
    requires since <= clock
    ensures Elapsed(clock % TWO_32, since % TWO_32) == (clock - since) % TWO_32
  {
    assert clock == TWO_32 * (clock / TWO_32) + clock % TWO_32;
    assert since == TWO_32 * (since / TWO_32) + since % TWO_32;
  }

  /** When a stranger's beacon is accepted, at every moment. It should be exactly after a long silence. It is so
      exactly while the time the node measures has not wrapped below nine seconds: with the stamp in place while
      the silence is short or long modulo 2^32, and after a reset of the stamp while the clock is not in the
      first nine seconds of a lap. */
  lemma StrangerExactly(u: Unit, m: MeshMsg)
    requires Inv(u) && FromStranger(u, m)
    ensures Accepts(u.node, m, Now(u)) <==> Measured(u) >= 9000
    ensures Stamped(u) ==>
              ((Accepts(u.node, m, Now(u)) <==> LongSilent(u))
               <==> !LongSilent(u) || (u.clock - u.last) % TWO_32 >= 9000)
    ensures !Stamped(u) ==>
              ((Accepts(u.node, m, Now(u)) <==> LongSilent(u)) <==> u.clock % TWO_32 >= 9000)
  {
    hide TWO_32;
    StaleIsSilent(u);
    if Stamped(u) {
      ElapsedIs(u.clock, u.last);
    } else {
      ElapsedIs(u.clock, 0);
      ZeroIsZero();
    }
  }

  lemma ZeroIsZero()
    ensures 0 % TWO_32 == 0
  {
  }

  /** So until the 32-bit clock first wraps, 49 days after boot, nothing is wrong. */
  lemma StrangerBeforeWrap(u: Unit, m: MeshMsg)
    requires Inv(u) && FromStranger(u, m) && u.clock < TWO_32
    ensures Accepts(u.node, m, Now(u)) <==> LongSilent(u)
  {
    StrangerExactly(u, m);
  }

  /** The failure is reached: a node that boots with a known master and never hears of it refuses strangers in the
      first nine seconds of every later lap of the clock. */
  lemma BootedThenWrapped(n: Node, peers: seq<Peer>, m: MeshMsg, laps: nat, ms: nat)
    requires MastersOk(n) && n.flashMaster != BROADCAST_MAC && !n.dualMode && m.origin != n.flashMaster
    requires m.hopCount < MAX_HOPS && laps > 0 && ms < 9000
    ensures var states := [Unit(Booted(n, peers), 0, 0), Unit(Booted(n, peers), laps * TWO_32 + ms, 0)];
            && IsRun(states, [Pass(laps * TWO_32 + ms)]) && Inv(states[0])
            && FromStranger(states[1], m) && LongSilent(states[1]) && !Accepts(states[1].node, m, Now(states[1]))
  {
    var u := Unit(Booted(n, peers), laps * TWO_32 + ms, 0);
    BootMasters(n, peers);
    Laps(laps, ms);
    assert Inv(Unit(Booted(n, peers), 0, 0)) && Inv(u);
    StrangerExactly(u, m);
  }

  lemma Laps(laps: nat, ms: nat)
    requires ms < 9000
    ensures (laps * TWO_32 + ms) % TWO_32 == ms && (laps > 0 ==> laps * TWO_32 >= TWO_32)
  {
    assert (laps * TWO_32 + ms) / TWO_32 == laps;
  }

  /** It is reached through the reset as well: after a route has timed out, strangers are refused again in the
      first nine seconds of the next lap. `ms` is a time in them. */
  lemma TimedOutThenWrapped(u: Unit, m: MeshMsg, laps: nat, ms: nat)
    requires Inv(u) && FromStranger(u, m) && !u.node.isMaster && u.node.current.distance != 0xFF
    requires Elapsed(Now(u), u.node.lastBeaconRx) > STALE_MASTER_THRESHOLD_MS
    requires laps * TWO_32 >= u.clock && ms < 9000
    ensures var timedOut := Next(u, Timeout);
            var wrapped := Next(timedOut, Pass(laps * TWO_32 + ms - u.clock));
            && timedOut.node.current.distance == 0xFF && wrapped.clock == laps * TWO_32 + ms
            && FromStranger(wrapped, m) && LongSilent(wrapped) && !Accepts(wrapped.node, m, Now(wrapped))
  {
    hide TWO_32, MastersOk;
    var timedOut := Next(u, Timeout);
    StaleIsSilent(u);
    TimeoutResets(u);
    StepKeepsInv(u, Timeout);
    var wrapped := Next(timedOut, Pass(laps * TWO_32 + ms - u.clock));
    StepKeepsInv(timedOut, Pass(laps * TWO_32 + ms - u.clock));
    Laps(laps, ms);
    ElapsedIs(wrapped.clock, 0);
    ZeroIsZero();
  }

  lemma TimeoutResets(u: Unit)
    requires !u.node.isMaster && u.node.current.distance != 0xFF
    requires Elapsed(Now(u), u.node.lastBeaconRx) > STALE_MASTER_THRESHOLD_MS
    ensures Next(u, Timeout).node == u.node.(current := NO_ROUTE, lastBeaconRx := 0)
  {
  }

  /** In both modes the origin of an accepted beacon is a known master from then on, and the route leads to it. */
  lemma AcceptedIsKnown(u: Unit, src: Mac, m: MeshMsg, jitter: nat)
    requires Inv(u) && AcceptedBeacon(u.node, m, Now(u))
    ensures var n := Next(u, Frame(src, m, jitter)).node;
            && n.hasMaster
            && (m.origin == n.knownMaster || (n.dualMode && n.hasSecondary && m.origin == n.knownSecondary))
            && n.flashMaster == n.knownMaster
  {
    hide OnFrame, AcceptedBeacon;
    FrameMasters(u.node, src, m, Now(u), jitter);
  }

  // ---------- Runs ----------

  /** At every moment of every run, power cuts included, a live route of a single-master node leads to its
      known master, and flash holds that master. */
  lemma {:induction false} RunKeepsInv(states: seq<Unit>, steps: seq<Step>)
    requires IsRun(states, steps) && Inv(states[0])
    ensures Inv(states[|steps|]) && states[|steps|].node.dualMode == states[0].node.dualMode
    ensures var n := states[|steps|].node;
            && (!n.dualMode && n.current.distance != 0xFF ==> n.hasMaster && n.current.mac == n.knownMaster)
            && (n.hasMaster ==> n.flashMaster == n.knownMaster)
    decreases |steps|
  {
    hide Next, Inv;
    if steps != [] {
      var n := |steps| - 1;
      RunKeepsInv(states[..|states| - 1], steps[..n]);
      StepKeepsInv(states[n], steps[n]);
    }
    InvMeans(states[|steps|]);
  }

  lemma InvMeans(u: Unit)
    requires Inv(u)
    ensures var n := u.node;
            && (!n.dualMode && n.current.distance != 0xFF ==> n.hasMaster && n.current.mac == n.knownMaster)
            && (n.hasMaster ==> n.flashMaster == n.knownMaster)
  {
  }

  /** A factory-fresh node, both addresses erased in flash, as it first boots. */
  predicate Factory(u: Unit) {
    && u.node.flashMaster == BROADCAST_MAC && u.node.flashSecondary == BROADCAST_MAC
    && u == Unit(Booted(u.node, u.node.peers), 0, 0)
  }

  /** From the factory on, whatever happens: a live route of a single-master node leads to its known master, and
      flash holds exactly the master it knows. */
  lemma FactoryRun(states: seq<Unit>, steps: seq<Step>)
    requires IsRun(states, steps) && Factory(states[0])
    ensures Inv(states[|steps|])
    ensures var n := states[|steps|].node;
            && (!n.dualMode && n.current.distance != 0xFF ==> n.hasMaster && n.current.mac == n.knownMaster)
            && n.flashMaster == if n.hasMaster then n.knownMaster else BROADCAST_MAC
  {
    hide Next;
    RunKeepsInv(states, steps);
  }

  /** And a master learned from the factory on is kept as long as its beacons keep arriving. */
  lemma FactoryMasterStays(states: seq<Unit>, steps: seq<Step>, k: nat)
    requires IsRun(states, steps) && Factory(states[0]) && k <= |steps|
    requires states[k].node.hasMaster && states[k].node.knownMaster != BROADCAST_MAC
    requires forall i | k <= i < |steps| :: states[i].clock - states[i].last < 9000
    ensures states[|steps|].node.hasMaster && states[|steps|].node.knownMaster == states[k].node.knownMaster
  {
    hide Next, Inv;
    FactoryRun(states[..k + 1], steps[..k]);
    FreshMasterStays(states[k..], steps[k..]);
  }

  /** A master whose beacons keep arriving is never replaced: if no state of a run is nine seconds past
      boot or the last accepted beacon, the known master stays, through any number of power cuts. */
  lemma {:induction false} FreshMasterStays(states: seq<Unit>, steps: seq<Step>)
    requires IsRun(states, steps) && Inv(states[0])
    requires states[0].node.hasMaster && states[0].node.knownMaster != BROADCAST_MAC
    requires forall i | 0 <= i < |steps| :: states[i].clock - states[i].last < 9000
    ensures states[|steps|].node.hasMaster && states[|steps|].node.knownMaster == states[0].node.knownMaster
    decreases |steps|
  {
    hide Next, Inv;
    if steps != [] {
      var n := |steps| - 1;
      FreshMasterStays(states[..|states| - 1], steps[..n]);
      RunKeepsInv(states[..|states| - 1], steps[..n]);
      FreshStep(states[n], steps[n]);
    }
  }

  lemma FreshStep(u: Unit, step: Step)
    requires Inv(u) && u.node.hasMaster && u.node.knownMaster != BROADCAST_MAC && u.clock - u.last < 9000
    ensures Next(u, step).node.hasMaster && Next(u, step).node.knownMaster == u.node.knownMaster
  {
    hide OnFrame, OnTick, OnTimeout, AcceptedBeacon, MastersOk, ClockOk;
    if step.PowerCut? {
      BootMasters(u.node, step.peers);
    } else {
      StepKeepsMaster(u, step);
      if Next(u, step).node.knownMaster != u.node.knownMaster { ReplacedOnlyWhenStale(u, step); }
    }
  }

  lemma StepKeepsMaster(u: Unit, step: Step)
    requires Inv(u) && u.node.hasMaster && !step.PowerCut?
    ensures Next(u, step).node.hasMaster
  {
    hide HeardFrom, OnBeacon, OnAdapterData, MastersOk, Accepts;
    match step
    case Frame(src, m, jitter) =>
      var n, now := u.node, Now(u);
      var recorded := if Checked(m) then n.(history := Recorded(n.history, IdOf(m))) else n;
      HeardKeeps(recorded, src, now);
      var k := HeardFrom(recorded, src, now);
      SameMastersOk(n, k);
      if Accepts(k, m, now) { AcceptedMasters(k, m, now, jitter); } else { RejectedBeacon(k, m, now, jitter); }
      OtherMasters(k, m, now);
    case _ =>
  }
}
