/**
 What a node must do with a frame, read off the protocol rather than off the handlers: for each type of
 message exactly what is sent, what is remembered and what stays, in the protocol's own numbers.
 */
module HandlerLaws {
  import opened Basics
  import opened MeshTypes
  import opened ReplayCache
  import opened MeshNode
  import opened Forwarding

  // ---------- Before the type is looked at ----------

  /** A frame that is not admitted might as well not have come. */
  lemma RefusedIsIgnored(n: Node, src: Mac, m: MeshMsg, now: uint32, jitter: nat)
    requires !Admitted(n, m)
    ensures OnFrame(n, src, m, now, jitter) == Effects(n, [], [])
  {
    hide Admitted;
    AdmittedIs(n, m);
  }

  /** `i` is the entry of the sender, the first with its address, unless the sender is the node itself. */
  predicate IsSender(n: Node, src: Mac, i: nat)
    requires i < |n.peers|
  {
    src != n.own && n.peers[i].mac == src && forall j | 0 <= j < i :: n.peers[j].mac != src
  }

  /** The peer list with the sender marked as heard of now, and nothing else. */
  predicate Stamped(n: Node, src: Mac, now: uint32, peers: seq<Peer>) {
    && |peers| == |n.peers|
    && forall i | 0 <= i < |peers| ::
         peers[i] == if IsSender(n, src, i) then n.peers[i].(lastSeen := now) else n.peers[i]
  }

  /** The node as the handler of the type gets to see it. */
  function Seen(n: Node, src: Mac, m: MeshMsg, now: uint32): Node {
    HeardFrom(if Checked(m) then n.(history := Recorded(n.history, IdOf(m))) else n, src, now)
  }

  lemma HeardStamps(n: Node, src: Mac, now: uint32)
    ensures var k := HeardFrom(n, src, now);
            k == n.(peers := k.peers) && Stamped(n, src, now, k.peers)
  {
    HeardKeeps(n, src, now);
    var i := FindPeer(n.peers, src);
    hide FindPeer;
    assert i < |n.peers| && src != n.own ==> IsSender(n, src, i);
    assert forall j | 0 <= j < |n.peers| && IsSender(n, src, j) :: j == i;
  }

  lemma SeenIs(n: Node, src: Mac, m: MeshMsg, now: uint32)
    ensures var k := Seen(n, src, m, now);
            && k == n.(history := k.history, peers := k.peers) && Stamped(n, src, now, k.peers)
            && (Admitted(n, m) && Numbered(m) ==> k.history == n.history + [ReplayId(m.origin, m.epochNum, m.seqNum)])
            && (!Numbered(m) ==> k.history == n.history)
  {
    hide Admitted, Window, HeardFrom, Stamped;
    AdmittedIs(n, m);
    var recorded := if Checked(m) then n.(history := Recorded(n.history, IdOf(m))) else n;
    HeardStamps(recorded, src, now);
    SameStamped(recorded, n, src, now, Seen(n, src, m, now).peers);
  }

  lemma SameStamped(a: Node, b: Node, src: Mac, now: uint32, peers: seq<Peer>)
    requires a.own == b.own && a.peers == b.peers && Stamped(a, src, now, peers)
    ensures Stamped(b, src, now, peers)
  {
    assert forall i | 0 <= i < |a.peers| :: IsSender(a, src, i) == IsSender(b, src, i);
  }

  lemma AdmittedDispatch(n: Node, src: Mac, m: MeshMsg, now: uint32, jitter: nat)
    requires Admitted(n, m)
    ensures OnFrame(n, src, m, now, jitter) == Dispatch(Seen(n, src, m, now), m, now, jitter)
  {
    hide Admitted, Dispatch, Window, HeardFrom;
    AdmittedIs(n, m);
  }

  /** An admitted frame, of any type, is recorded if it is numbered, and marks its sender. */
  lemma AdmittedIsNoted(n: Node, src: Mac, m: MeshMsg, now: uint32, jitter: nat)
    requires Admitted(n, m)
    ensures var e := OnFrame(n, src, m, now, jitter).node;
            && e.history == n.history + (if Numbered(m) then [ReplayId(m.origin, m.epochNum, m.seqNum)] else [])
            && Stamped(n, src, now, e.peers)
  {
    hide Dispatch, Admitted, Window, Seen, Stamped;
    AdmittedDispatch(n, src, m, now, jitter);
    SeenIs(n, src, m, now);
    DispatchPeers(Seen(n, src, m, now), m, now, jitter);
    DispatchHistory(Seen(n, src, m, now), m, now, jitter);
  }

  lemma DispatchPeers(n: Node, m: MeshMsg, now: uint32, jitter: nat)
    ensures Dispatch(n, m, now, jitter).node.peers == n.peers
  {
    hide RelayDownlink, Transmit, OnBeacon;
    if Accepts(n, m, now) {
      BeaconPeers(n, m, now, jitter);
    } else {
      Rejected(n, m, now, jitter);
    }
  }

  lemma BeaconPeers(n: Node, m: MeshMsg, now: uint32, jitter: nat)
    requires Accepts(n, m, now)
    ensures OnBeacon(n, m, now, jitter).peers == n.peers
  {
    hide LearnRoute, Newer;
  }

  /** Types without a handler of their own do nothing more. */
  lemma OtherTypesAreNoted(n: Node, src: Mac, m: MeshMsg, now: uint32, jitter: nat)
    requires Admitted(n, m) && (m.messageType == 3 || m.messageType > 4)
    ensures var e := OnFrame(n, src, m, now, jitter);
            e.sends == [] && e.delivered == [] && e.node == n.(history := e.node.history, peers := e.node.peers)
  {
    hide Admitted, Seen;
    AdmittedDispatch(n, src, m, now, jitter);
    SeenIs(n, src, m, now);
  }

  // ---------- Adapter data ----------

  /** The next hop of a live route can be used: a peer other than the node, heard of within eight seconds, or just
      now. */
  predicate Reachable(n: Node, src: Mac, now: uint32) {
    && n.current.distance != 0xFF && n.current.nextHop != n.own
    && exists i :: 0 <= i < |n.peers| && n.peers[i].mac == n.current.nextHop
         && (forall j | 0 <= j < i :: n.peers[j].mac != n.current.nextHop)
         && (src == n.current.nextHop || (now - n.peers[i].lastSeen) % 0x1_0000_0000 < 8000)
  }

  lemma StampedFind(n: Node, src: Mac, now: uint32, k: Node, mac: Mac)
    requires Stamped(n, src, now, k.peers)
    ensures FindPeer(k.peers, mac) == FindPeer(n.peers, mac)
  {
    hide IsSender;
    assert forall j | 0 <= j < |n.peers| :: k.peers[j].mac == n.peers[j].mac;
    SameFind(n.peers, k.peers, mac);
  }

  lemma {:induction false} SameFind(a: seq<Peer>, b: seq<Peer>, mac: Mac)
    requires |a| == |b| && forall j | 0 <= j < |a| :: a[j].mac == b[j].mac
    ensures FindPeer(a, mac) == FindPeer(b, mac)
    decreases |a|
  {
    if a != [] { SameFind(a[1..], b[1..], mac); }
  }

  lemma NextHopIff(n: Node, src: Mac, m: MeshMsg, now: uint32)
    ensures HasNextHop(Seen(n, src, m, now), now) <==> Reachable(n, src, now)
  {
    hide Seen, FindPeer;
    var k := Seen(n, src, m, now);
    SeenIs(n, src, m, now);
    StampedFind(n, src, now, k, n.current.nextHop);
    var i := FindPeer(n.peers, n.current.nextHop);
    if i < |n.peers| {
      assert IsSender(n, src, i) <==> src == n.current.nextHop && src != n.own;
      assert Elapsed(now, now) == 0;
    }
  }

  /** Uplink data below the hop limit goes one hop further along the route, if its next hop can be used; otherwise,
      and at the limit, nothing is sent. */
  lemma UplinkForwarded(n: Node, src: Mac, m: MeshMsg, now: uint32, jitter: nat)
    requires Admitted(n, m) && m.messageType == 0 && !n.isMaster && n.hasMaster
    requires m.target == n.current.mac && m.target != n.own && m.target != BROADCAST_MAC
    ensures OnFrame(n, src, m, now, jitter).sends
            == if m.hopCount < 10 && Reachable(n, src, now)
               then [Send(n.current.nextHop, m.(hopCount := m.hopCount + 1, lastHop := n.own))] else []
  {
    hide Admitted, Seen, HasNextHop, Reachable;
    AdmittedDispatch(n, src, m, now, jitter);
    SeenIs(n, src, m, now);
    NextHopIff(n, src, m, now);
  }

  /** The frames that go outward: data for another node than this and the master, data for everybody that is no
      forged configuration order, and acknowledgements for others. A master passes no data on. */
  predicate Outward(n: Node, m: MeshMsg) {
    var forged := m.dataType == 1 && m.data[0] == 0xC1 && n.hasMaster && m.origin != n.knownMaster;
    || (m.messageType == 0 && !n.isMaster && m.target == BROADCAST_MAC && !forged)
    || (m.messageType == 0 && !n.isMaster && m.target != BROADCAST_MAC && m.target != n.own
        && !(n.hasMaster && m.target == n.current.mac))
    || (m.messageType == 4 && m.target != n.own)
  }

  lemma OutwardSends(n: Node, src: Mac, m: MeshMsg, now: uint32, jitter: nat)
    requires Admitted(n, m) && Outward(n, m)
    ensures OnFrame(n, src, m, now, jitter).sends == RelayDownlink(Seen(n, src, m, now), m)
  {
    hide Admitted, Seen, RelayDownlink, Transmit;
    AdmittedDispatch(n, src, m, now, jitter);
    SeenIs(n, src, m, now);
  }

  /** Below the hop limit every outward frame goes one hop further, once to every other peer and to nobody else. */
  lemma OutwardToEveryPeer(n: Node, src: Mac, m: MeshMsg, now: uint32, jitter: nat, mac: Mac)
    requires Admitted(n, m) && Outward(n, m)
    requires forall i, j | 0 <= i < j < |n.peers| :: n.peers[i].mac != n.peers[j].mac
    ensures var sends := OnFrame(n, src, m, now, jitter).sends;
            && (forall s | s in sends :: m.hopCount < 10 && s.msg == m.(hopCount := m.hopCount + 1, lastHop := n.own))
            && CopiesTo(sends, mac) == if m.hopCount < 10 && mac != n.own && HasPeer(n, mac) then 1 else 0
  {
    hide Admitted, Seen, Outward, ToPeers, IsSender;
    OutwardSends(n, src, m, now, jitter);
    SeenIs(n, src, m, now);
    var k := Seen(n, src, m, now);
    if m.hopCount < MAX_HOPS {
      assert forall i | 0 <= i < |n.peers| :: k.peers[i].mac == n.peers[i].mac;
      EveryPeerOnce(n.own, k.peers, Hopped(k, m), mac);
      SameAddresses(n.peers, k.peers, mac);
    }
  }

  lemma SameAddresses(a: seq<Peer>, b: seq<Peer>, mac: Mac)
    requires |a| == |b| && forall i | 0 <= i < |a| :: a[i].mac == b[i].mac
    ensures (exists p :: p in a && p.mac == mac) <==> (exists p :: p in b && p.mac == mac)
  {
    if p :| p in a && p.mac == mac {
      var i :| 0 <= i < |a| && a[i] == p;
      assert b[i] in b;
    }
    if p :| p in b && p.mac == mac {
      var i :| 0 <= i < |b| && b[i] == p;
      assert a[i] in a;
    }
  }

  /** Nothing else is ever passed on. */
  lemma OnlyThose(n: Node, src: Mac, m: MeshMsg, now: uint32, jitter: nat)
    requires OnFrame(n, src, m, now, jitter).sends != []
    ensures Admitted(n, m) && m.hopCount < 10
    ensures Outward(n, m)
            || (m.messageType == 0 && !n.isMaster && n.hasMaster && m.target == n.current.mac && m.target != n.own
                && Reachable(n, src, now))
  {
    hide Admitted, Seen, HasNextHop, Reachable, ToPeers, OnBeacon, Stamped, OnFrame;
    if !Admitted(n, m) {
      RefusedIsIgnored(n, src, m, now, jitter);
    } else {
      AdmittedDispatch(n, src, m, now, jitter);
      SeenIs(n, src, m, now);
      NextHopIff(n, src, m, now);
    }
  }

  /** Data changes nothing in a node but its record and the sender's mark. */
  lemma DataIsNoted(n: Node, src: Mac, m: MeshMsg, now: uint32, jitter: nat)
    requires Admitted(n, m) && m.messageType == 0
    ensures var e := OnFrame(n, src, m, now, jitter).node; e == n.(history := e.history, peers := e.peers)
  {
    hide Admitted, Seen, RelayDownlink, Transmit;
    AdmittedDispatch(n, src, m, now, jitter);
    SeenIs(n, src, m, now);
  }

  // ---------- All the way to the master ----------

  /** A node that will pass uplink data from `src` on to `next`. */
  ghost predicate OnTheWay(n: Node, src: Mac, m: MeshMsg, now: uint32, next: Mac) {
    && Admitted(n, m) && !n.isMaster && n.hasMaster && n.current.mac == m.target && n.current.nextHop == next
    && m.target != n.own && m.target != BROADCAST_MAC && Reachable(n, src, now)
  }

  /** The message as it stands after `k` hops along the nodes. */
  function Travelled(nodes: seq<Node>, src: Mac, m: MeshMsg, k: nat): (Mac, MeshMsg)
    requires k <= |nodes| && m.hopCount + k <= 10
    decreases k
  {
    if k == 0 then (src, m)
    else (nodes[k - 1].own, m.(hopCount := m.hopCount + k, lastHop := nodes[k - 1].own))
  }

  /** Each node but the last is on the way to the one after it. */
  ghost predicate Line(nodes: seq<Node>, src: Mac, m: MeshMsg, clock: nat -> uint32) {
    && |nodes| > 0 && m.hopCount + |nodes| <= 11
    && forall i: nat | i < |nodes| - 1 ::
         var at := Travelled(nodes, src, m, i); OnTheWay(nodes[i], at.0, at.1, clock(i), nodes[i + 1].own)
  }

  lemma LineAt(nodes: seq<Node>, src: Mac, m: MeshMsg, clock: nat -> uint32, i: nat)
    requires Line(nodes, src, m, clock) && i < |nodes| - 1
    ensures var at := Travelled(nodes, src, m, i);
            && at.1.messageType == m.messageType && at.1.hopCount == m.hopCount + i < 10
            && OnTheWay(nodes[i], at.0, at.1, clock(i), nodes[i + 1].own)
  {
    hide OnTheWay;
  }

  /** What comes out at the end: each node handles the one frame the node before has sent to it. */
  function Carry(nodes: seq<Node>, src: Mac, m: MeshMsg, clock: nat -> uint32, jitter: nat, i: nat): seq<MeshMsg>
    requires i < |nodes|
    decreases |nodes| - i
  {
    var e := OnFrame(nodes[i], src, m, clock(i), jitter);
    if i == |nodes| - 1 then e.delivered
    else if |e.sends| == 1 && e.sends[0].dst == nodes[i + 1].own
    then Carry(nodes, nodes[i].own, e.sends[0].msg, clock, jitter, i + 1) else []
  }

  lemma LineFits(nodes: seq<Node>, src: Mac, m: MeshMsg, clock: nat -> uint32)
    requires Line(nodes, src, m, clock)
    ensures |nodes| > 0 && m.hopCount + |nodes| <= 11
  {
  }

  lemma {:induction false} CarryFrom(nodes: seq<Node>, src: Mac, m: MeshMsg, clock: nat -> uint32, jitter: nat, i: nat)
    requires m.messageType == 0 && Line(nodes, src, m, clock) && i < |nodes|
    ensures m.hopCount + i <= 10
    ensures var at := Travelled(nodes, src, m, i);
            var end := Travelled(nodes, src, m, |nodes| - 1);
            Carry(nodes, at.0, at.1, clock, jitter, i)
            == OnFrame(nodes[|nodes| - 1], end.0, end.1, clock(|nodes| - 1), jitter).delivered
    decreases |nodes| - i
  {
    hide OnFrame, Admitted, Reachable, Line;
    LineFits(nodes, src, m, clock);
    if i < |nodes| - 1 {
      var at := Travelled(nodes, src, m, i);
      LineAt(nodes, src, m, clock, i);
      UplinkForwarded(nodes[i], at.0, at.1, clock(i), jitter);
      CarryFrom(nodes, src, m, clock, jitter, i + 1);
    }
  }

  /** A master that takes the message, which is no forged configuration order. */
  ghost predicate Arrived(n: Node, m: MeshMsg) {
    && n.isMaster && Admitted(n, m)
    && !(m.dataType == 1 && m.data[0] == 0xC1 && n.hasMaster && m.origin != n.knownMaster)
  }

  /** Along a line of live routes uplink data reaches the adapter of the master at its end, once and as it left but for
      the hop count and the last hop. */
  lemma UplinkArrives(nodes: seq<Node>, src: Mac, m: MeshMsg, clock: nat -> uint32, jitter: nat)
    requires m.messageType == 0 && Line(nodes, src, m, clock)
    requires Arrived(nodes[|nodes| - 1], m)
    ensures Carry(nodes, src, m, clock, jitter, 0) == [Travelled(nodes, src, m, |nodes| - 1).1]
  {
    hide OnFrame, Reachable;
    CarryFrom(nodes, src, m, clock, jitter, 0);
    var end := Travelled(nodes, src, m, |nodes| - 1);
    DeliveredExactly(nodes[|nodes| - 1], end.0, end.1, clock(|nodes| - 1), jitter);
  }

  // ---------- Beacons ----------

  /** The master of the beacon is one this node knows, or may get to know now: it knows none, or has room for a second,
      or has heard none for nine seconds by its clock. */
  predicate Welcome(n: Node, origin: Mac, now: uint32) {
    || !n.hasMaster || origin == n.knownMaster
    || (n.dualMode && (!n.hasSecondary || origin == n.knownSecondary))
    || (now - n.lastBeaconRx) % 0x1_0000_0000 >= 9000
  }

  /** A beacon that has come too far, or from a stranger while the master is fresh, leaves route, masters and relay as
      they were. */
  lemma UnwelcomeBeacon(n: Node, src: Mac, m: MeshMsg, now: uint32, jitter: nat)
    requires Admitted(n, m) && m.messageType == 1 && (m.hopCount >= 10 || !Welcome(n, m.origin, now))
    ensures var e := OnFrame(n, src, m, now, jitter);
            e.sends == [] && e.delivered == [] && e.node == n.(history := e.node.history, peers := e.node.peers)
  {
    hide Admitted, Seen, OnFrame, Stamped;
    AdmittedDispatch(n, src, m, now, jitter);
    SeenIs(n, src, m, now);
    Rejected(Seen(n, src, m, now), m, now, jitter);
  }

  lemma WelcomeOnBeacon(n: Node, src: Mac, m: MeshMsg, now: uint32, jitter: nat)
    requires Admitted(n, m) && m.messageType == 1 && m.hopCount < 10 && Welcome(n, m.origin, now)
    ensures var k := Seen(n, src, m, now);
            && Accepts(k, m, now) && k == n.(history := k.history, peers := k.peers)
            && OnFrame(n, src, m, now, jitter) == Effects(OnBeacon(k, m, now, jitter), [], [])
  {
    hide Admitted, Seen, OnBeacon;
    AdmittedDispatch(n, src, m, now, jitter);
    SeenIs(n, src, m, now);
  }

  /** A welcome beacon sets the time stamp and the route: to its own path when there was no route, or one to another
      master, or a longer one; a route of this master that is no longer than it stays. */
  lemma BeaconSetsRoute(n: Node, src: Mac, m: MeshMsg, now: uint32, jitter: nat)
    requires Admitted(n, m) && m.messageType == 1 && m.hopCount < 10 && Welcome(n, m.origin, now)
    ensures var e := OnFrame(n, src, m, now, jitter);
            && e.sends == [] && e.delivered == [] && e.node.lastBeaconRx == now
            && e.node.current.mac == m.origin && e.node.current.distance <= m.hopCount + 1
            && (n.current.distance == 0xFF || n.current.mac != m.origin || n.current.distance > m.hopCount + 1 ==>
                  e.node.current == Route(m.origin, m.hopCount + 1, m.lastHop))
            && (n.current.distance != 0xFF && n.current.mac == m.origin && n.current.distance <= m.hopCount + 1 ==>
                  e.node.current == n.current)
  {
    hide Admitted, Seen, Newer, LearnMaster, OnFrame;
    WelcomeOnBeacon(n, src, m, now, jitter);
  }

  /** And it settles who the masters are, in RAM and flash: the first is learned; a known one changes nothing; in dual
      mode a second is learned beside the first; only otherwise the first is replaced. */
  lemma BeaconSetsMasters(n: Node, src: Mac, m: MeshMsg, now: uint32, jitter: nat)
    requires Admitted(n, m) && m.messageType == 1 && m.hopCount < 10 && Welcome(n, m.origin, now)
    ensures var e := OnFrame(n, src, m, now, jitter).node;
            var known := n.hasMaster && (m.origin == n.knownMaster
                                         || (n.dualMode && n.hasSecondary && m.origin == n.knownSecondary));
            var second := n.hasMaster && !known && n.dualMode && !n.hasSecondary;
            && e.hasMaster
            && e.knownMaster == (if known || second then n.knownMaster else m.origin)
            && e.flashMaster == (if known || second then n.flashMaster else m.origin)
            && e.hasSecondary == (n.hasSecondary || second)
            && e.knownSecondary == (if second then m.origin else n.knownSecondary)
            && e.flashSecondary == (if second then m.origin else n.flashSecondary)
  {
    hide Admitted, Seen, Newer, LearnRoute, OnFrame;
    WelcomeOnBeacon(n, src, m, now, jitter);
    var k := Seen(n, src, m, now);
    if !n.hasMaster && n.dualMode && n.hasSecondary && m.origin == n.knownSecondary {
      assert FromKnownMaster(k, m.origin);
    }
  }

  /** The stamp of a beacon, epoch first. */
  function Stamp(epoch: uint32, seqNum: uint16): nat { 0x1_0000 * epoch + seqNum }

  /** A welcome beacon is kept for one relay, 10 ms and the jitter later, exactly at a node that is no master and when
      it is later than every beacon kept before. */
  lemma BeaconKeptForRelay(n: Node, src: Mac, m: MeshMsg, now: uint32, jitter: nat)
    requires Admitted(n, m) && m.messageType == 1 && m.hopCount < 10 && Welcome(n, m.origin, now)
    ensures var e := OnFrame(n, src, m, now, jitter).node;
            if !n.isMaster && Stamp(m.epochNum, m.seqNum) > Stamp(n.relayedEpoch, n.relayedSeq) then
              && e.relay == Some(m.(hopCount := m.hopCount + 1, lastHop := n.own))
              && e.relayAt == (now + 10 + jitter) % 0x1_0000_0000
              && e.relayedEpoch == m.epochNum && e.relayedSeq == m.seqNum
            else
              && e.relay == n.relay && e.relayAt == n.relayAt
              && e.relayedEpoch == n.relayedEpoch && e.relayedSeq == n.relayedSeq
  {
    hide Admitted, Seen, LearnMaster, LearnRoute, OnFrame;
    WelcomeOnBeacon(n, src, m, now, jitter);
    LearnMasterRelay(Seen(n, src, m, now), m.origin);
  }

  /** Nothing else moves the stamp of the last relay. */
  lemma StampOnlyRises(n: Node, src: Mac, m: MeshMsg, now: uint32, jitter: nat)
    ensures var e := OnFrame(n, src, m, now, jitter).node;
            && Stamp(e.relayedEpoch, e.relayedSeq) >= Stamp(n.relayedEpoch, n.relayedSeq)
            && (Kept(n, m, now) ==> Stamp(e.relayedEpoch, e.relayedSeq) == Stamp(m.epochNum, m.seqNum))
            && (!Kept(n, m, now) ==> e.relayedEpoch == n.relayedEpoch && e.relayedSeq == n.relayedSeq)
  {
    hide Admitted, Welcome, OnFrame, Stamp;
    if !Admitted(n, m) {
      RefusedIsIgnored(n, src, m, now, jitter);
    } else if m.messageType == 0 {
      DataIsNoted(n, src, m, now, jitter);
    } else if m.messageType == 1 {
      if m.hopCount < 10 && Welcome(n, m.origin, now) {
        BeaconKeptForRelay(n, src, m, now, jitter);
      } else {
        UnwelcomeBeacon(n, src, m, now, jitter);
      }
    } else if m.messageType == 2 {
      RequestIsKept(n, src, m, now, jitter);
    } else if m.messageType == 4 {
      if m.target == n.own { AckCounts(n, src, m, now, jitter); } else { AckForOthers(n, src, m, now, jitter); }
    } else {
      OtherTypesAreNoted(n, src, m, now, jitter);
    }
  }

  /** The beacon is kept for a relay. */
  ghost predicate Kept(n: Node, m: MeshMsg, now: uint32) {
    && Admitted(n, m) && m.messageType == 1 && m.hopCount < 10 && Welcome(n, m.origin, now) && !n.isMaster
    && Stamp(m.epochNum, m.seqNum) > Stamp(n.relayedEpoch, n.relayedSeq)
  }

  lemma {:induction false} StampsRise(n: Node, frames: seq<Arrival>, k: nat)
    requires k <= |frames|
    ensures var a, b := After(n, frames[..k]), After(n, frames);
            Stamp(a.relayedEpoch, a.relayedSeq) <= Stamp(b.relayedEpoch, b.relayedSeq)
    decreases |frames|
  {
    hide OnFrame, Kept, Stamp;
    if k == |frames| {
      assert frames[..k] == frames;
    } else {
      var last := |frames| - 1;
      var f := frames[last];
      StampsRise(n, frames[..last], k);
      StampOnlyRises(After(n, frames[..last]), f.src, f.msg, f.now, f.jitter);
      assert frames[..last][..k] == frames[..k];
    }
  }

  /** Whatever frames come in whatever order, the beacons kept for relay have rising stamps, so none is kept twice. */
  lemma RelayedOnce(n: Node, frames: seq<Arrival>, i: nat, j: nat)
    requires i < j < |frames|
    requires Kept(After(n, frames[..i]), frames[i].msg, frames[i].now)
    requires Kept(After(n, frames[..j]), frames[j].msg, frames[j].now)
    ensures Stamp(frames[i].msg.epochNum, frames[i].msg.seqNum) < Stamp(frames[j].msg.epochNum, frames[j].msg.seqNum)
  {
    hide OnFrame, After, Stamp, Admitted, Welcome;
    var f := frames[i];
    AfterOne(n, frames, i);
    StampOnlyRises(After(n, frames[..i]), f.src, f.msg, f.now, f.jitter);
    StampsRise(n, frames[..j], i + 1);
    assert frames[..j][..i + 1] == frames[..i + 1];
  }

  lemma LearnMasterRelay(n: Node, origin: Mac)
    ensures var l := LearnMaster(n, origin);
            && l.own == n.own && l.isMaster == n.isMaster && l.relay == n.relay && l.relayAt == n.relayAt
            && l.relayedEpoch == n.relayedEpoch && l.relayedSeq == n.relayedSeq
  {
  }

  /** What else a beacon might touch stays. */
  lemma BeaconLeavesRest(n: Node, src: Mac, m: MeshMsg, now: uint32, jitter: nat)
    requires Admitted(n, m) && m.messageType == 1
    ensures SameRest(n, OnFrame(n, src, m, now, jitter).node)
  {
    hide Admitted, Seen, OnBeacon, OnFrame, Stamped;
    AdmittedDispatch(n, src, m, now, jitter);
    SeenIs(n, src, m, now);
    BeaconRest(Seen(n, src, m, now), m, now, jitter);
  }

  predicate SameRest(a: Node, b: Node) {
    && a.own == b.own && a.isMaster == b.isMaster && a.dualMode == b.dualMode && a.publicKey == b.publicKey
    && a.enrolled == b.enrolled && a.enrollment == b.enrollment
  }

  lemma BeaconRest(n: Node, m: MeshMsg, now: uint32, jitter: nat)
    ensures SameRest(n, OnBeacon(n, m, now, jitter))
  {
    hide LearnRoute, Newer;
  }

  // ---------- A due relay ----------

  /** A beacon kept for relay goes out when it is due, once, along the route if its next hop can be used, and is
      forgotten then in any case; before, nothing happens. */
  lemma DueBeaconIsSent(n: Node, now: uint32)
    ensures var e := OnTick(n, now);
            && e.delivered == []
            && (if n.relay.Some? && now >= n.relayAt then
                  && e.node == n.(relay := None)
                  && e.sends == if Reachable(n, n.own, now) then [Send(n.current.nextHop, n.relay.value)] else []
                else e.node == n && e.sends == [])
  {
    hide FindPeer;
    var i := FindPeer(n.peers, n.current.nextHop);
    if i < |n.peers| {
      assert forall j | 0 <= j < |n.peers| && n.peers[j].mac == n.current.nextHop
                        && (forall l | 0 <= l < j :: n.peers[l].mac != n.current.nextHop) :: j == i;
    }
  }

  /** A live route is cleared exactly when the node is no master and more than nine seconds have passed on its clock
      since the last beacon; the stamp goes with it, the masters stay. */
  lemma RouteTimesOut(n: Node, now: uint32)
    ensures OnTimeout(n, now)
            == if !n.isMaster && n.current.distance != 0xFF && (now - n.lastBeaconRx) % 0x1_0000_0000 > 9000
               then n.(current := Route([0, 0, 0, 0, 0, 0], 0xFF, [0, 0, 0, 0, 0, 0]), lastBeaconRx := 0) else n
  {
  }

  // ---------- Acknowledgements and requests ----------

  /** An acknowledgement for this node counts exactly when its first four data bytes are those of the node's key. Then
      the node is enrolled, and takes the sender as its master if it has none; otherwise nothing changes. */
  lemma AckCounts(n: Node, src: Mac, m: MeshMsg, now: uint32, jitter: nat)
    requires Admitted(n, m) && m.messageType == 4 && m.target == n.own
    ensures var e := OnFrame(n, src, m, now, jitter);
            var right := forall i | 0 <= i < 4 :: m.data[i] == n.publicKey[i];
            var first := right && !n.hasMaster;
            && e.sends == [] && e.delivered == []
            && e.node == n.(history := e.node.history, peers := e.node.peers, enrolled := n.enrolled || right,
                            hasMaster := n.hasMaster || right,
                            knownMaster := if first then m.origin else n.knownMaster,
                            flashMaster := if first then m.origin else n.flashMaster)
  {
    hide Admitted, Seen;
    AdmittedDispatch(n, src, m, now, jitter);
    SeenIs(n, src, m, now);
    FirstFour(m.data, n.publicKey);
  }

  lemma FirstFour(a: seq<byte>, b: seq<byte>)
    requires |a| >= 4 && |b| >= 4
    ensures a[..4] == b[..4] <==> forall i | 0 <= i < 4 :: a[i] == b[i]
  {
    if forall i | 0 <= i < 4 :: a[i] == b[i] {
      assert a[..4] == b[..4];
    }
    if a[..4] == b[..4] {
      forall i | 0 <= i < 4 ensures a[i] == b[i] {
        assert a[i] == a[..4][i];
      }
    }
  }

  /** One for somebody else changes nothing here, whatever its data. */
  lemma AckForOthers(n: Node, src: Mac, m: MeshMsg, now: uint32, jitter: nat)
    requires Admitted(n, m) && m.messageType == 4 && m.target != n.own
    ensures var e := OnFrame(n, src, m, now, jitter).node; e == n.(history := e.history, peers := e.peers)
  {
    hide Admitted, Seen, RelayDownlink;
    AdmittedDispatch(n, src, m, now, jitter);
    SeenIs(n, src, m, now);
  }

  /** A master keeps the sender and the key of an enrollment request, and answers nothing yet; other nodes ignore it. */
  lemma RequestIsKept(n: Node, src: Mac, m: MeshMsg, now: uint32, jitter: nat)
    requires Admitted(n, m) && m.messageType == 2
    ensures var e := OnFrame(n, src, m, now, jitter);
            && e.sends == [] && e.delivered == []
            && e.node == n.(history := e.node.history, peers := e.node.peers,
                            enrollment := if n.isMaster then Some((m.origin, m.key)) else n.enrollment)
  {
    hide Admitted, Seen;
    AdmittedDispatch(n, src, m, now, jitter);
    SeenIs(n, src, m, now);
  }

  // ---------- A node's own data ----------

  /** Data of the node's own goes to the master of its route, over the next hop if it can be used, numbered and not yet
      hopped; otherwise it goes nowhere. */
  lemma OwnDataIsSent(n: Node, epoch: uint32, seqNum: uint16, dataType: int32, data: Bytes64, now: uint32)
    ensures Transmit(n, TYPE_ADAPTER_DATA, Built(n, epoch, seqNum, dataType, Some(data), TYPE_ADAPTER_DATA), now)
            == if Reachable(n, n.own, now)
               then [Send(n.current.nextHop,
                          MeshMsg(2, 0, dataType, n.own, n.current.mac, n.own, data, 0, epoch, seqNum, Fill(32, 0)))]
               else []
  {
    hide FindPeer;
    var i := FindPeer(n.peers, n.current.nextHop);
    if i < |n.peers| {
      assert forall j | 0 <= j < |n.peers| && n.peers[j].mac == n.current.nextHop
                        && (forall l | 0 <= l < j :: n.peers[l].mac != n.current.nextHop) :: j == i;
    }
  }
}
