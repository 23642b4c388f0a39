/**
 Hearing the master, and what follows for runs: a node always takes the beacons of its masters, and as long as
 they keep coming its route is never cleared.
 */
module MasterHeard {
  import opened Basics
  import opened MeshTypes
  import opened ReplayCache
  import opened MeshNode
  import opened Forwarding
  import opened HandlerLaws
  import opened MasterLearning

  /** The step brings a beacon that has not come too far. */
  ghost predicate BringsBeacon(u: Unit, step: Step) {
    step.Frame? && Admitted(u.node, step.msg) && step.msg.messageType == 1 && step.msg.hopCount < 10
  }

  /** And from a master the node knows. */
  predicate KnownOrigin(n: Node, origin: Mac) {
    (n.hasMaster && origin == n.knownMaster) || (n.dualMode && n.hasSecondary && origin == n.knownSecondary)
  }

  /** The beacons a node takes are the ones that are welcome. */
  lemma TakenExactly(n: Node, m: MeshMsg, now: uint32)
    ensures AcceptedBeacon(n, m, now)
       <==> Admitted(n, m) && m.messageType == 1 && m.hopCount < 10 && Welcome(n, m.origin, now)
  {
    hide Admitted, Window;
    AdmittedIs(n, m);
  }

  /** A beacon of a known master, or of anyone while none is known, is always heard, however long or short ago the
      last one was: it sets the stamp, and the route leads to its origin, no longer than its own path. */
  lemma KnownMasterHeard(u: Unit, step: Step)
    requires BringsBeacon(u, step) && (!u.node.hasMaster || KnownOrigin(u.node, step.msg.origin))
    ensures var v := Next(u, step);
            && v.clock == v.last == u.clock && v.node.lastBeaconRx == u.clock % 0x1_0000_0000
            && v.node.current.mac == step.msg.origin && v.node.current.distance <= step.msg.hopCount + 1
            && v.node.hasMaster
  {
    hide OnFrame, Admitted, AcceptedBeacon;
    var m := step.msg;
    TakenExactly(u.node, m, Now(u));
    BeaconSetsRoute(u.node, step.src, m, Now(u), step.jitter);
    BeaconSetsMasters(u.node, step.src, m, Now(u), step.jitter);
  }

  /** A boot forgets the route, the relay and its stamp, the replay history and a waiting enrollment; role, key and
      what is in flash stay, and the masters are those in flash, the second one only in dual mode. */
  lemma BootForgets(n: Node, peers: seq<Peer>)
    ensures var b := Booted(n, peers);
            && b.own == n.own && b.isMaster == n.isMaster && b.dualMode == n.dualMode && b.publicKey == n.publicKey
            && b.enrolled == n.enrolled && b.flashMaster == n.flashMaster && b.flashSecondary == n.flashSecondary
            && b.peers == peers && b.current.distance == 0xFF && b.lastBeaconRx == 0 && b.history == []
            && b.relay == None && b.relayedEpoch == 0 && b.relayedSeq == 0 && b.enrollment == None
            && (b.hasMaster <==> n.flashMaster != [0xFF, 0xFF, 0xFF, 0xFF, 0xFF, 0xFF])
            && (b.hasMaster ==> b.knownMaster == n.flashMaster)
            && (b.hasSecondary <==> n.dualMode && n.flashSecondary != [0xFF, 0xFF, 0xFF, 0xFF, 0xFF, 0xFF])
            && (b.hasSecondary ==> b.knownSecondary == n.flashSecondary)
  {
  }

  /** A live route carries the stamp of the beacon it came from. */
  predicate Live(u: Unit) { u.node.current.distance != 0xFF ==> u.node.lastBeaconRx == u.last % 0x1_0000_0000 }

  lemma FrameKeepsLive(u: Unit, step: Step)
    requires Live(u) && step.Frame?
    ensures Live(Next(u, step)) && Next(u, step).clock == u.clock
    ensures AcceptedBeacon(u.node, step.msg, Now(u)) ==>
              Next(u, step).last == u.clock && Next(u, step).node.current.distance != 0xFF
    ensures !AcceptedBeacon(u.node, step.msg, Now(u)) ==>
              Next(u, step).last == u.last && Next(u, step).node.current == u.node.current
  {
    hide OnFrame, Admitted, AcceptedBeacon;
    TakenExactly(u.node, step.msg, Now(u));
    if AcceptedBeacon(u.node, step.msg, Now(u)) {
      BeaconSetsRoute(u.node, step.src, step.msg, Now(u), step.jitter);
    } else {
      OtherFramesKeepRoute(u.node, step.src, step.msg, Now(u), step.jitter);
    }
  }

  /** Only a beacon that is taken touches the route or its stamp. */
  lemma OtherFramesKeepRoute(n: Node, src: Mac, m: MeshMsg, now: uint32, jitter: nat)
    requires !(Admitted(n, m) && m.messageType == 1 && m.hopCount < 10 && Welcome(n, m.origin, now))
    ensures var e := OnFrame(n, src, m, now, jitter).node;
            e.current == n.current && e.lastBeaconRx == n.lastBeaconRx
  {
    hide OnFrame, Admitted, Welcome;
    if !Admitted(n, m) {
      RefusedIsIgnored(n, src, m, now, jitter);
    } else if m.messageType == 0 {
      DataIsNoted(n, src, m, now, jitter);
    } else if m.messageType == 1 {
      UnwelcomeBeacon(n, src, m, now, jitter);
    } else if m.messageType == 2 {
      RequestIsKept(n, src, m, now, jitter);
    } else if m.messageType == 4 {
      if m.target == n.own { AckCounts(n, src, m, now, jitter); } else { AckForOthers(n, src, m, now, jitter); }
    } else {
      OtherTypesAreNoted(n, src, m, now, jitter);
    }
  }

  /** A timeout clears a live route exactly when the silence, on the node's clock, is longer than nine seconds. */
  lemma TimeoutExactly(u: Unit)
    requires u.last <= u.clock && Live(u) && !u.node.isMaster && u.node.current.distance != 0xFF
    ensures Next(u, Timeout).node.current.distance == 0xFF <==> (u.clock - u.last) % 0x1_0000_0000 > 9000
    ensures Next(u, Timeout).node.current.distance != 0xFF ==> Next(u, Timeout) == u
  {
    ElapsedIs(u.clock, u.last);
    RouteTimesOut(u.node, Now(u));
  }

  /** A step other than a power cut keeps the route, if no timeout comes upon a silence of more than nine seconds. */
  lemma StepKeepsLive(u: Unit, step: Step)
    requires u.last <= u.clock && Live(u) && u.node.current.distance != 0xFF && !step.PowerCut?
    requires step.Timeout? ==> u.clock - u.last <= 9000
    ensures var v := Next(u, step);
            && v.last <= v.clock && Live(v) && v.node.current.distance != 0xFF
            && u.clock <= v.clock && u.last <= v.last
  {
    hide OnFrame, AcceptedBeacon;
    match step
    case Frame(src, m, jitter) => FrameKeepsLive(u, step);
    case Timeout => TimeoutKeeps(u);
    case Tick => TickKeeps(u.node, Now(u));
    case Pass(ms) =>
  }

  lemma TimeoutKeeps(u: Unit)
    requires u.last <= u.clock && Live(u) && u.node.current.distance != 0xFF && u.clock - u.last <= 9000
    ensures Next(u, Timeout) == u
  {
    if !u.node.isMaster { TimeoutExactly(u); }
  }

  lemma TickKeeps(n: Node, now: uint32)
    ensures var e := OnTick(n, now).node; e.current == n.current && e.lastBeaconRx == n.lastBeaconRx
  {
  }

  /** At step `k` a beacon of the route's own master arrives. */
  ghost predicate Refreshes(states: seq<Unit>, steps: seq<Step>, k: nat)
    requires |states| == |steps| + 1 && k < |steps|
  {
    BringsBeacon(states[k], steps[k]) && steps[k].msg.origin == states[k].node.current.mac
  }

  /** Before step `i` a beacon of the route's master came within the last nine seconds. */
  ghost predicate Refreshed(states: seq<Unit>, steps: seq<Step>, i: nat)
    requires |states| == |steps| + 1 && i < |steps|
  {
    || states[i].clock - states[0].last <= 9000
    || exists k: nat :: k < i && states[i].clock - states[k].clock <= 9000 && Refreshes(states, steps, k)
  }

  lemma RefreshSetsLast(u: Unit, step: Step)
    requires Inv(u) && u.node.current.distance != 0xFF && BringsBeacon(u, step)
    requires step.msg.origin == u.node.current.mac
    ensures Next(u, step).last == u.clock
  {
    hide Next, BringsBeacon;
    KnownMasterHeard(u, step);
  }

  /** What holds of the states of a run as long as the route lives. */
  ghost predicate Alive(states: seq<Unit>, steps: seq<Step>, n: nat)
    requires |states| == |steps| + 1 && n <= |steps|
  {
    && Inv(states[n]) && Live(states[n]) && states[n].node.current.distance != 0xFF
    && states[0].last <= states[n].last
    && forall k: nat | k < n && Refreshes(states, steps, k) :: states[k].clock <= states[n].last
  }

  lemma AliveStep(states: seq<Unit>, steps: seq<Step>, n: nat)
    requires |states| == |steps| + 1 && n < |steps| && states[n + 1] == Next(states[n], steps[n])
    requires Alive(states, steps, n) && !steps[n].PowerCut? && (steps[n].Timeout? ==> Refreshed(states, steps, n))
    ensures Alive(states, steps, n + 1)
  {
    hide Next, BringsBeacon, MastersOk, Live;
    var u, step := states[n], steps[n];
    StepKeepsInv(u, step);
    if step.Timeout? {
      assert u.clock - u.last <= 9000;
    }
    StepKeepsLive(u, step);
    if Refreshes(states, steps, n) {
      RefreshSetsLast(u, step);
    }
  }

  /** A route whose master's beacons keep arriving is never cleared: if before every timeout check one came within
      nine seconds, the node has a route at every moment of the run. */
  lemma {:induction false} RouteSurvives(states: seq<Unit>, steps: seq<Step>, n: nat)
    requires IsRun(states, steps) && n <= |steps|
    requires Inv(states[0]) && Live(states[0]) && states[0].node.current.distance != 0xFF
    requires forall i | 0 <= i < |steps| :: !steps[i].PowerCut?
    requires forall i: nat | i < |steps| && steps[i].Timeout? :: Refreshed(states, steps, i)
    ensures Alive(states, steps, n) && states[n].node.current.distance != 0xFF
    decreases n
  {
    hide Next, Inv, Live, Refreshes, Refreshed;
    if n > 0 {
      RouteSurvives(states, steps, n - 1);
      AliveStep(states, steps, n - 1);
    }
  }
}
