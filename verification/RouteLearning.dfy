/**
 Where routes come from. Beacons start at masters and are relayed; the radio may deliver any frame ever
 sent to any node, any number of times. Over all runs a route of distance d is backed by a chain of d
 transmissions of one beacon, and d is the least seen since the route was last reset.
 */
module RouteLearning {
  import opened Basics
  import opened MeshTypes
  import opened ReplayCache
  import opened MeshNode

  /** A transmission: who sent what. */
  datatype Sent = Sent(sender: Mac, msg: MeshMsg)

  /** A node, its receive queue, and the hop counts of the beacons it accepted since its last reset. */
  datatype Host = Host(node: Node, queue: seq<Sent>, seen: seq<nat>)

  datatype Net = Net(hosts: seq<Host>, log: seq<Sent>)

  datatype Step =
    | Beacon(host: nat, msg: MeshMsg)                 // broadcastMasterBeacon
    | Other(sender: Mac, msg: MeshMsg)                // any frame that is not a beacon
    | Deliver(frame: nat, host: nat)
    | Process(host: nat, now: uint32, jitter: nat)
    | Relay(host: nat, now: uint32)
    | Timeout(host: nat, now: uint32)

  predicate Enabled(s: Net, step: Step) {
    match step
    case Beacon(i, m) =>
      && i < |s.hosts| && s.hosts[i].node.isMaster
      && m.messageType == TYPE_MASTER_BEACON && m.hopCount == 0
      && m.origin == m.lastHop == s.hosts[i].node.own
    case Other(_, m) => m.messageType != TYPE_MASTER_BEACON
    case Deliver(t, i) => t < |s.log| && i < |s.hosts|
    case Process(i, _, _) => i < |s.hosts| && s.hosts[i].queue != []
    case Relay(i, _) => i < |s.hosts|
    case Timeout(i, _) => i < |s.hosts|
  }

  /** The beacons a master builds are the ones that may start here: version 2, type 1, for everybody, from the master
      itself with no hop yet, and one byte of data. */
  lemma BuiltIsBeacon(s: Net, i: nat, epoch: uint32, seqNum: uint16)
    requires i < |s.hosts| && s.hosts[i].node.isMaster
    ensures var n := s.hosts[i].node;
            var m := Built(n, epoch, seqNum, 0, None, TYPE_MASTER_BEACON);
            var beacon := m.(data := m.data[0 := 1]);
            && Enabled(s, Beacon(i, beacon))
            && beacon == MeshMsg(2, 1, 0, n.own, [0xFF, 0xFF, 0xFF, 0xFF, 0xFF, 0xFF], n.own, [1] + Fill(63, 0), 0,
                                 epoch, seqNum, Fill(32, 0))
  {
  }

  function LogOf(own: Mac, sends: seq<Send>): (out: seq<Sent>)
    ensures |out| == |sends| && forall i | 0 <= i < |sends| :: out[i] == Sent(own, sends[i].msg)
  {
    seq(|sends|, i requires 0 <= i < |sends| => Sent(own, sends[i].msg))
  }

  /** The first beacon after a timeout, or one of another origin, starts the route afresh. */
  predicate Resets(r: Route, m: MeshMsg) {
    r.distance == 0xFF || r.mac != m.origin
  }

  function Noted(h: Host, m: MeshMsg): seq<nat> {
    if Resets(h.node.current, m) then [m.hopCount] else h.seen + [m.hopCount]
  }

  function SeenAfter(h: Host, m: MeshMsg, now: uint32): seq<nat> {
    if AcceptedBeacon(h.node, m, now) then Noted(h, m) else h.seen
  }

  function Next(s: Net, step: Step): Net
    requires Enabled(s, step)
  {
    match step
    case Beacon(i, m) => s.(log := s.log + [Sent(s.hosts[i].node.own, m)])
    case Other(sender, m) => s.(log := s.log + [Sent(sender, m)])
    case Deliver(t, i) =>
      var h := s.hosts[i];
      s.(hosts := s.hosts[i := if |h.queue| < 7 then h.(queue := h.queue + [s.log[t]]) else h])
    case Process(i, now, jitter) =>
      var h := s.hosts[i];
      var f := h.queue[0];
      var e := OnFrame(h.node, f.sender, f.msg, now, jitter);
      Net(s.hosts[i := Host(e.node, h.queue[1..], SeenAfter(h, f.msg, now))], s.log + LogOf(h.node.own, e.sends))
    case Relay(i, now) =>
      var h := s.hosts[i];
      var e := OnTick(h.node, now);
      Net(s.hosts[i := h.(node := e.node)], s.log + LogOf(h.node.own, e.sends))
    case Timeout(i, now) =>
      var h := s.hosts[i];
      var n := OnTimeout(h.node, now);
      s.(hosts := s.hosts[i := Host(n, h.queue, if n.current.distance == 0xFF then [] else h.seen)])
  }

  // ---------- Chains ----------

  /** The senders of a beacon from its origin to its last hop: hop count `i` was sent by `chain[i]`. */
  ghost predicate IsChain(log: seq<Sent>, m: MeshMsg, chain: seq<Mac>) {
    && m.messageType == TYPE_MASTER_BEACON && |chain| == m.hopCount + 1
    && chain[0] == m.origin && chain[m.hopCount] == m.lastHop
    && forall i: byte | i < |chain| :: Sent(chain[i], m.(hopCount := i, lastHop := chain[i])) in log
  }

  ghost predicate Traced(log: seq<Sent>, m: MeshMsg) {
    exists chain :: IsChain(log, m, chain)
  }

  lemma TracedGrows(log: seq<Sent>, more: seq<Sent>, m: MeshMsg)
    requires Traced(log, m)
    ensures Traced(log + more, m)
  {
    var chain :| IsChain(log, m, chain);
    assert IsChain(log + more, m, chain);
  }

  /** Relaying a traced beacon makes the next link of its chain. */
  lemma RelayTraced(log: seq<Sent>, m: MeshMsg, own: Mac)
    requires Traced(log, m) && m.hopCount < MAX_HOPS
    ensures var next := m.(hopCount := m.hopCount + 1, lastHop := own);
            Traced(log + [Sent(own, next)], next)
  {
    var chain :| IsChain(log, m, chain);
    var next := m.(hopCount := m.hopCount + 1, lastHop := own);
    var longer := chain + [own];
    forall i: byte | i < |longer|
      ensures Sent(longer[i], next.(hopCount := i, lastHop := longer[i])) in log + [Sent(own, next)]
    {
      if i < |chain| {
        assert next.(hopCount := i, lastHop := longer[i]) == m.(hopCount := i, lastHop := chain[i]);
      } else {
        assert (log + [Sent(own, next)])[|log|] == Sent(own, next);
      }
    }
    assert IsChain(log + [Sent(own, next)], next, longer);
  }

  // ---------- The invariant ----------

  function Least(seen: seq<nat>): (d: nat)
    requires seen != []
    ensures d in seen && forall x | x in seen :: d <= x
  {
    if |seen| == 1 then seen[0]
    else
      var d := Least(seen[1..]);
      assert forall x | x in seen :: x == seen[0] || x in seen[1..];
      if seen[0] < d then seen[0] else d
  }

  ghost predicate BeaconTraced(log: seq<Sent>, m: MeshMsg) {
    m.messageType == TYPE_MASTER_BEACON ==> Traced(log, m)
  }

  /** A beacon waiting to be relayed is one hop past a traced one. */
  ghost predicate RelayReady(log: seq<Sent>, n: Node) {
    n.relay.Some? ==> exists m :: Traced(log, m) && m.hopCount < MAX_HOPS && n.relay.value == Hopped(n, m)
  }

  /** The route is backed by a traced beacon, and its distance is the least seen since the reset. */
  ghost predicate RouteBacked(log: seq<Sent>, h: Host) {
    var r := h.node.current;
    if r.distance == 0xFF then h.seen == []
    else
      && h.seen != [] && r.distance == 1 + Least(h.seen) && 1 <= r.distance <= MAX_HOPS
      && exists m :: Traced(log, m) && m.origin == r.mac && m.hopCount + 1 == r.distance && m.lastHop == r.nextHop
  }

  ghost predicate HostInv(log: seq<Sent>, h: Host) {
    && (forall f | f in h.queue :: BeaconTraced(log, f.msg))
    && RelayReady(log, h.node) && RouteBacked(log, h)
  }

  ghost predicate Inv(s: Net) {
    && (forall f | f in s.log :: BeaconTraced(s.log, f.msg))
    && (forall h | h in s.hosts :: HostInv(s.log, h))
  }

  lemma HostInvGrows(log: seq<Sent>, more: seq<Sent>, h: Host)
    requires HostInv(log, h)
    ensures HostInv(log + more, h)
  {
    forall f | f in h.queue ensures BeaconTraced(log + more, f.msg) {
      if f.msg.messageType == TYPE_MASTER_BEACON { TracedGrows(log, more, f.msg); }
    }
    if h.node.relay.Some? {
      var m :| Traced(log, m) && m.hopCount < MAX_HOPS && h.node.relay.value == Hopped(h.node, m);
      TracedGrows(log, more, m);
    }
    var r := h.node.current;
    if r.distance != 0xFF {
      var m :| Traced(log, m) && m.origin == r.mac && m.hopCount + 1 == r.distance && m.lastHop == r.nextHop;
      TracedGrows(log, more, m);
    }
  }

  /** Logging frames that are traced themselves keeps everything as it was. */
  lemma LogGrows(s: Net, more: seq<Sent>)
    requires Inv(s) && forall f | f in more :: BeaconTraced(s.log + more, f.msg)
    ensures Inv(s.(log := s.log + more))
  {
    forall f | f in s.log ensures BeaconTraced(s.log + more, f.msg) {
      if f.msg.messageType == TYPE_MASTER_BEACON { TracedGrows(s.log, more, f.msg); }
    }
    forall h | h in s.hosts ensures HostInv(s.log + more, h) {
      HostInvGrows(s.log, more, h);
    }
  }

  lemma {:induction false} LeastSnoc(seen: seq<nat>, x: nat)
    requires seen != []
    ensures Least(seen + [x]) == if x < Least(seen) then x else Least(seen)
  {
    if |seen| > 1 {
      LeastSnoc(seen[1..], x);
      assert (seen + [x])[1..] == seen[1..] + [x];
    } else {
      assert (seen + [x])[1..] == [x];
    }
  }

  /** An accepted beacon leaves a backed route of the least distance. */
  lemma BeaconBacksRoute(log: seq<Sent>, h: Host, m: MeshMsg, now: uint32, jitter: nat)
    requires RouteBacked(log, h) && Traced(log, m) && Accepts(h.node, m, now)
    ensures RouteBacked(log, Host(OnBeacon(h.node, m, now, jitter), h.queue, Noted(h, m)))
  {
    hide Traced, Newer, OnBeacon, Least;
    BeaconRoute(h.node, m, now, jitter);
    var r := LearnRoute(h.node.current, m);
    if Resets(h.node.current, m) {
      LeastOfOne(m.hopCount);
    } else {
      LeastSnoc(h.seen, m.hopCount);
    }
    if r != h.node.current {
      assert Traced(log, m) && m.origin == r.mac && m.hopCount + 1 == r.distance && m.lastHop == r.nextHop;
    }
  }

  lemma LeastOfOne(x: nat)
    ensures Least([x]) == x
  {
  }

  lemma BeaconRoute(n: Node, m: MeshMsg, now: uint32, jitter: nat)
    requires Accepts(n, m, now)
    ensures var b := OnBeacon(n, m, now, jitter);
            && b.current == LearnRoute(n.current, m) && b.own == n.own && b.isMaster == n.isMaster
            && b.relay == if n.isMaster || !Newer(n, m) then n.relay else Some(Hopped(n, m))
  {
    hide LearnMaster, LearnRoute;
    LearnMasterKeeps(n, m.origin);
  }

  /** Every accepted beacon keeps the invariant of its host. */
  lemma BeaconKeepsInv(log: seq<Sent>, h: Host, m: MeshMsg, now: uint32, jitter: nat)
    requires HostInv(log, h) && Traced(log, m) && Accepts(h.node, m, now)
    ensures HostInv(log, Host(OnBeacon(h.node, m, now, jitter), h.queue, Noted(h, m)))
  {
    hide OnBeacon, Traced, RouteBacked, Accepts, BeaconTraced;
    BeaconBacksRoute(log, h, m, now, jitter);
    BeaconRoute(h.node, m, now, jitter);
    assert m.hopCount < MAX_HOPS by { AcceptedInRange(h.node, m, now); }
  }

  lemma AcceptedInRange(n: Node, m: MeshMsg, now: uint32)
    requires Accepts(n, m, now)
    ensures m.hopCount < MAX_HOPS
  {
  }

  // ---------- Steps ----------

  /** What the invariant of a host depends on. */
  predicate SameRouting(a: Node, b: Node) {
    a.own == b.own && a.current == b.current && a.relay == b.relay
  }

  lemma RoutingIsEnough(log: seq<Sent>, h: Host, n: Node, queue: seq<Sent>)
    requires HostInv(log, h) && SameRouting(h.node, n)
    requires forall f | f in queue :: f in h.queue
    ensures HostInv(log, Host(n, queue, h.seen))
  {
    hide Traced;
  }

  /** Beacons are judged without regard to peers and history. */
  lemma BeaconRouting(n: Node, history: seq<ReplayId>, peers: seq<Peer>, m: MeshMsg, now: uint32, jitter: nat)
    ensures var k := n.(history := history, peers := peers);
            && Accepts(k, m, now) == Accepts(n, m, now)
            && OnBeacon(k, m, now, jitter).isMaster == n.isMaster
            && SameRouting(if Accepts(n, m, now) then OnBeacon(n, m, now, jitter) else n, OnBeacon(k, m, now, jitter))
  {
    var k := n.(history := history, peers := peers);
    if Accepts(n, m, now) {
      hide OnBeacon;
      BeaconRoute(n, m, now, jitter);
      BeaconRoute(k, m, now, jitter);
    }
  }

  lemma OthersRouting(n: Node, m: MeshMsg, now: uint32, jitter: nat)
    requires m.messageType != TYPE_MASTER_BEACON
    ensures var e := Dispatch(n, m, now, jitter).node;
            e.isMaster == n.isMaster && SameRouting(n, e)
  {
    hide RelayDownlink, Transmit;
  }

  /** Of all messages only an accepted beacon changes the route or the pending relay. */
  lemma FrameRouting(n: Node, src: Mac, m: MeshMsg, now: uint32, jitter: nat)
    ensures var e := OnFrame(n, src, m, now, jitter).node;
            && e.isMaster == n.isMaster
            && SameRouting(if AcceptedBeacon(n, m, now) then OnBeacon(n, m, now, jitter) else n, e)
  {
    hide HeardFrom, OnBeacon, Accepts, OnAdapterData, OnJoinAck;
    var recorded := if Checked(m) then n.(history := Recorded(n.history, IdOf(m))) else n;
    HeardKeeps(recorded, src, now);
    var k := HeardFrom(recorded, src, now);
    BeaconRouting(n, k.history, k.peers, m, now, jitter);
    if m.messageType != TYPE_MASTER_BEACON {
      OthersRouting(k, m, now, jitter);
    } else {
      assert k == n.(history := k.history, peers := k.peers);
      assert TYPE_MASTER_BEACON != TYPE_ENROLLMENT && TYPE_MASTER_BEACON != TYPE_JOIN_ACK;
    }
  }

  /** Nothing a node sends in answer to a frame is a beacon; beacons wait for their relay. */
  lemma FrameSendsNoBeacon(n: Node, src: Mac, m: MeshMsg, now: uint32, jitter: nat)
    ensures forall s | s in OnFrame(n, src, m, now, jitter).sends :: s.msg.messageType != TYPE_MASTER_BEACON
  {
    hide OnBeacon, HeardFrom, Unsupported, Checked, HasNextHop, FindPeer;
    var e := OnFrame(n, src, m, now, jitter);
    forall s | s in e.sends ensures s.msg.messageType != TYPE_MASTER_BEACON {
      assert s.msg.messageType == m.messageType;
    }
  }

  /** A host's answer to a frame from its queue keeps the invariant of that host. */
  lemma ProcessKeepsHost(log: seq<Sent>, h: Host, now: uint32, jitter: nat)
    requires HostInv(log, h) && h.queue != []
    ensures var f := h.queue[0];
            HostInv(log, Host(OnFrame(h.node, f.sender, f.msg, now, jitter).node, h.queue[1..],
                              SeenAfter(h, f.msg, now)))
  {
    hide OnFrame, OnBeacon, HostInv, Accepts, Traced;
    var f := h.queue[0];
    var e := OnFrame(h.node, f.sender, f.msg, now, jitter).node;
    FrameRouting(h.node, f.sender, f.msg, now, jitter);
    if AcceptedBeacon(h.node, f.msg, now) {
      QueueTraced(log, h, f);
      BeaconKeepsInv(log, h, f.msg, now, jitter);
      RoutingIsEnough(log, Host(OnBeacon(h.node, f.msg, now, jitter), h.queue, Noted(h, f.msg)), e, h.queue[1..]);
    } else {
      RoutingIsEnough(log, h, e, h.queue[1..]);
    }
  }

  lemma QueueTraced(log: seq<Sent>, h: Host, f: Sent)
    requires HostInv(log, h) && f in h.queue && f.msg.messageType == TYPE_MASTER_BEACON
    ensures Traced(log, f.msg)
  {
  }

  lemma SwapHost(s: Net, i: nat, h: Host)
    requires Inv(s) && i < |s.hosts| && HostInv(s.log, h)
    ensures Inv(s.(hosts := s.hosts[i := h]))
  {
    hide HostInv, BeaconTraced;
    forall g | g in s.hosts[i := h] ensures HostInv(s.log, g) {
      assert g == h || g in s.hosts;
    }
  }

  lemma ProcessKeepsInv(s: Net, i: nat, now: uint32, jitter: nat)
    requires Inv(s) && Enabled(s, Process(i, now, jitter))
    ensures Inv(Next(s, Process(i, now, jitter)))
  {
    hide OnFrame, HostInv, SeenAfter, Traced;
    var h := s.hosts[i];
    assert h in s.hosts;
    ProcessKeepsHost(s.log, h, now, jitter);
    var f := h.queue[0];
    var e := OnFrame(h.node, f.sender, f.msg, now, jitter);
    var t := s.(hosts := s.hosts[i := Host(e.node, h.queue[1..], SeenAfter(h, f.msg, now))]);
    SwapHost(s, i, t.hosts[i]);
    FrameSendsNoBeacon(h.node, f.sender, f.msg, now, jitter);
    LogGrows(t, LogOf(h.node.own, e.sends));
  }

  /** What goes on the air when a beacon is relayed is traced by then. */
  lemma TickTraced(log: seq<Sent>, n: Node, now: uint32)
    requires RelayReady(log, n)
    ensures var more := LogOf(n.own, OnTick(n, now).sends);
            forall f | f in more :: BeaconTraced(log + more, f.msg)
  {
    hide HasNextHop, Traced;
    var sends := OnTick(n, now).sends;
    if sends != [] {
      var m :| Traced(log, m) && m.hopCount < MAX_HOPS && n.relay.value == Hopped(n, m);
      RelayTraced(log, m, n.own);
      assert LogOf(n.own, sends) == [Sent(n.own, n.relay.value)];
    }
  }

  lemma RelayKeepsInv(s: Net, i: nat, now: uint32)
    requires Inv(s) && Enabled(s, Relay(i, now))
    ensures Inv(Next(s, Relay(i, now)))
  {
    hide Traced, OnTick, RouteBacked, BeaconTraced;
    var h := s.hosts[i];
    assert h in s.hosts;
    TickTraced(s.log, h.node, now);
    var e := OnTick(h.node, now);
    TickRouting(h.node, now);
    assert HostInv(s.log, h.(node := e.node)) by { SameRoute(s.log, h, h.(node := e.node)); }
    SwapHost(s, i, h.(node := e.node));
    LogGrows(s.(hosts := s.hosts[i := h.(node := e.node)]), LogOf(h.node.own, e.sends));
  }

  lemma TickRouting(n: Node, now: uint32)
    ensures var e := OnTick(n, now).node;
            e == n || e == n.(relay := None)
  {
  }

  lemma SameRoute(log: seq<Sent>, h: Host, g: Host)
    requires RouteBacked(log, h) && g.node.current == h.node.current && g.seen == h.seen
    ensures RouteBacked(log, g)
  {
  }

  lemma TimeoutKeepsInv(s: Net, i: nat, now: uint32)
    requires Inv(s) && Enabled(s, Timeout(i, now))
    ensures Inv(Next(s, Timeout(i, now)))
  {
    hide Traced;
    assert s.hosts[i] in s.hosts;
    SwapHost(s, i, Next(s, Timeout(i, now)).hosts[i]);
  }

  lemma DeliverKeepsInv(s: Net, t: nat, i: nat)
    requires Inv(s) && Enabled(s, Deliver(t, i))
    ensures Inv(Next(s, Deliver(t, i)))
  {
    hide Traced;
    assert s.hosts[i] in s.hosts && s.log[t] in s.log;
    SwapHost(s, i, Next(s, Deliver(t, i)).hosts[i]);
  }

  /** A master's own beacon is a chain of one. */
  lemma OriginTraced(log: seq<Sent>, m: MeshMsg)
    requires m.messageType == TYPE_MASTER_BEACON && m.hopCount == 0 && m.origin == m.lastHop && Sent(m.origin, m) in log
    ensures Traced(log, m)
  {
    assert m.(hopCount := 0, lastHop := m.origin) == m;
    assert IsChain(log, m, [m.origin]);
  }

  lemma StepKeepsInv(s: Net, step: Step)
    requires Inv(s) && Enabled(s, step)
    ensures Inv(Next(s, step))
  {
    match step
    case Beacon(i, m) =>
      hide HostInv, Traced;
      var more := [Sent(s.hosts[i].node.own, m)];
      assert (s.log + more)[|s.log|] == more[0];
      OriginTraced(s.log + more, m);
      LogGrows(s, more);
    case Other(sender, m) =>
      hide HostInv, Traced;
      LogGrows(s, [Sent(sender, m)]);
    case Deliver(t, i) => DeliverKeepsInv(s, t, i);
    case Process(i, now, jitter) => ProcessKeepsInv(s, i, now, jitter);
    case Relay(i, now) => RelayKeepsInv(s, i, now);
    case Timeout(i, now) => TimeoutKeepsInv(s, i, now);
  }

  // ---------- Masters ----------

  ghost predicate HasMaster(s: Net, mac: Mac) {
    exists h :: h in s.hosts && h.node.isMaster && h.node.own == mac
  }

  ghost predicate FromMaster(s: Net, f: Sent) {
    f.msg.messageType == TYPE_MASTER_BEACON && f.msg.hopCount == 0 ==> HasMaster(s, f.sender)
  }

  /** Only masters start beacons. */
  ghost predicate MastersOriginate(s: Net) {
    forall f | f in s.log :: FromMaster(s, f)
  }

  /** Nobody stops being a master or changes address. */
  lemma MastersStay(s: Net, step: Step, mac: Mac)
    requires Enabled(s, step) && HasMaster(s, mac)
    ensures HasMaster(Next(s, step), mac)
  {
    hide OnFrame, OnTick, SeenAfter, OnTimeout;
    var h :| h in s.hosts && h.node.isMaster && h.node.own == mac;
    var j :| 0 <= j < |s.hosts| && s.hosts[j] == h;
    match step {
      case Process(i, now, jitter) =>
        var f := s.hosts[i].queue[0];
        FrameRouting(h.node, f.sender, f.msg, now, jitter);
        FrameKeepsOwn(h.node, f.sender, f.msg, now, jitter);
      case Relay(i, now) => TickRouting(h.node, now);
      case Timeout(i, now) => TimeoutRouting(h.node, now);
      case _ =>
    }
    assert Next(s, step).hosts[j] in Next(s, step).hosts;
  }

  lemma FrameKeepsOwn(n: Node, src: Mac, m: MeshMsg, now: uint32, jitter: nat)
    ensures OnFrame(n, src, m, now, jitter).node.own == n.own
  {
    hide OnBeacon, OnFrame;
    FrameRouting(n, src, m, now, jitter);
    if AcceptedBeacon(n, m, now) { BeaconRoute(n, m, now, jitter); }
  }

  lemma TimeoutRouting(n: Node, now: uint32)
    ensures var t := OnTimeout(n, now);
            t.isMaster == n.isMaster && t.own == n.own
  {
  }

  /** Beyond the master's own, no new beacon has hop count 0. */
  lemma NewBeaconsHop(s: Net, step: Step, f: Sent)
    requires Inv(s) && Enabled(s, step) && f in Next(s, step).log && f !in s.log
    requires f.msg.messageType == TYPE_MASTER_BEACON && f.msg.hopCount == 0
    ensures step.Beacon? && f == Sent(s.hosts[step.host].node.own, step.msg)
  {
    hide OnFrame, OnTick, SeenAfter, OnTimeout, Traced, BeaconTraced, RouteBacked;
    match step
    case Process(i, now, jitter) =>
      var g := s.hosts[i].queue[0];
      FrameSendsNoBeacon(s.hosts[i].node, g.sender, g.msg, now, jitter);
    case Relay(i, now) =>
      assert s.hosts[i] in s.hosts;
      TickHops(s.log, s.hosts[i].node, now);
    case _ =>
  }

  lemma TickHops(log: seq<Sent>, n: Node, now: uint32)
    requires RelayReady(log, n)
    ensures forall x | x in OnTick(n, now).sends :: x.msg.hopCount > 0
  {
    hide Traced, HasNextHop;
  }

  lemma StepKeepsMasters(s: Net, step: Step)
    requires Inv(s) && MastersOriginate(s) && Enabled(s, step)
    ensures MastersOriginate(Next(s, step))
  {
    hide Next, Inv, HasMaster;
    forall f | f in Next(s, step).log ensures FromMaster(Next(s, step), f) {
      if f.msg.messageType == TYPE_MASTER_BEACON && f.msg.hopCount == 0 {
        if f !in s.log {
          NewBeaconsHop(s, step, f);
          IsHost(s, step.host);
        }
        MastersStay(s, step, f.sender);
      }
    }
  }

  lemma IsHost(s: Net, i: nat)
    requires i < |s.hosts| && s.hosts[i].node.isMaster
    ensures HasMaster(s, s.hosts[i].node.own)
  {
    assert s.hosts[i] in s.hosts;
  }

  // ---------- Runs ----------

  /** Nobody has heard anything yet. */
  predicate Initial(s: Net) {
    && s.log == []
    && forall h | h in s.hosts ::
         h.queue == [] && h.seen == [] && h.node.current.distance == 0xFF && h.node.relay == None
  }

  ghost predicate IsRun(states: seq<Net>, steps: seq<Step>) {
    && |states| == |steps| + 1
    && forall i | 0 <= i < |steps| :: Enabled(states[i], steps[i]) && states[i + 1] == Next(states[i], steps[i])
  }

  lemma {:induction false} RunKeepsInv(states: seq<Net>, steps: seq<Step>)
    requires IsRun(states, steps) && Initial(states[0])
    ensures Inv(states[|steps|]) && MastersOriginate(states[|steps|])
    decreases |steps|
  {
    hide Next, Enabled;
    if steps != [] {
      hide Inv, MastersOriginate;
      var n := |steps| - 1;
      RunKeepsInv(states[..|states| - 1], steps[..n]);
      StepKeepsInv(states[n], steps[n]);
      StepKeepsMasters(states[n], steps[n]);
    }
  }

  /** The chain of transmissions behind a route: hop `i` of one beacon of master `r.mac` was sent by
      `chain[i]`, the master itself first and the next hop last. */
  ghost predicate Backs(log: seq<Sent>, r: Route, m: MeshMsg, chain: seq<Mac>) {
    && m.messageType == TYPE_MASTER_BEACON && |chain| == r.distance > 0
    && chain[0] == r.mac && chain[|chain| - 1] == r.nextHop
    && forall i: byte | i < |chain| :: Sent(chain[i], m.(origin := r.mac, hopCount := i, lastHop := chain[i])) in log
  }

  /** In every run every route has at most ten hops, as many as the chain that backs it and as few as any
      beacon accepted since the route was last reset. */
  lemma RoutesAreSound(states: seq<Net>, steps: seq<Step>, i: nat)
    requires IsRun(states, steps) && Initial(states[0])
    requires i < |states[|steps|].hosts| && states[|steps|].hosts[i].node.current.distance != 0xFF
    ensures var h := states[|steps|].hosts[i];
            var r := h.node.current;
            && 1 <= r.distance <= 10 && HasMaster(states[|steps|], r.mac)
            && (exists m, chain :: Backs(states[|steps|].log, r, m, chain))
            && (r.distance - 1) in h.seen && forall x | x in h.seen :: r.distance <= x + 1
  {
    hide Initial, Enabled, Next;
    RunKeepsInv(states, steps);
    var s := states[|steps|];
    var h := s.hosts[i];
    assert h in s.hosts && HostInv(s.log, h);
    var r := h.node.current;
    var m :| Traced(s.log, m) && m.messageType == TYPE_MASTER_BEACON
      && m.origin == r.mac && m.hopCount + 1 == r.distance && m.lastHop == r.nextHop;
    var chain :| IsChain(s.log, m, chain);
    assert Backs(s.log, r, m, chain);
    assert Sent(chain[0], m.(origin := r.mac, hopCount := 0, lastHop := chain[0])) in s.log;
    assert FromMaster(s, Sent(chain[0], m.(origin := r.mac, hopCount := 0, lastHop := chain[0])));
  }
}
