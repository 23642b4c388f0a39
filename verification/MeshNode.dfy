/**
 One node of the mesh as a value, and what each handler makes of it. Sends are listed in the order the
 radio gets them. `now` is the 32-bit millisecond clock, read once per handler.
 */
module MeshNode {
  import opened Basics
  import opened MeshTypes
  import opened ReplayCache

  datatype Peer = Peer(mac: Mac, key: Bytes32, lastSeen: uint32)

  datatype Route = Route(mac: Mac, distance: byte, nextHop: Mac)

  datatype Send = Send(dst: Mac, msg: MeshMsg)

  datatype Node = Node(
    own: Mac, isMaster: bool, dualMode: bool, publicKey: Bytes32, peers: seq<Peer>,
    current: Route, lastBeaconRx: uint32,
    hasMaster: bool, knownMaster: Mac, hasSecondary: bool, knownSecondary: Mac,
    flashMaster: Mac, flashSecondary: Mac, // the two addresses as they are in flash
    relayedEpoch: uint32, relayedSeq: uint16, relay: Option<MeshMsg>, relayAt: uint32,
    enrolled: bool, enrollment: Option<(Mac, Bytes32)>,
    history: seq<ReplayId>)

  /** A handler's result: the node, what it sends, what it hands to the adapter. */
  datatype Effects = Effects(node: Node, sends: seq<Send>, delivered: seq<MeshMsg>)

  const NO_ROUTE: Route := Route(ZERO_MAC, 0xFF, ZERO_MAC)
  const SERIAL_ADAPTER: int32 := 1
  const OP_CONFIG_SET: byte := 0xC1
  const RELAY_JITTER_MAX_MS: nat := 64

  /** `now - since` on the 32-bit clock. */
  function Elapsed(now: uint32, since: uint32): nat { (now - since) % TWO_32 }

  // ---------- Peers and sending ----------

  function FindPeer(peers: seq<Peer>, mac: Mac): (i: nat)
    ensures i <= |peers| && (i < |peers| ==> peers[i].mac == mac) && forall j | 0 <= j < i :: peers[j].mac != mac
  {
    if peers == [] then 0 else if peers[0].mac == mac then 0 else 1 + FindPeer(peers[1..], mac)
  }

  /** The next hop is usable: a known peer, heard of recently, and not this node. */
  predicate HasNextHop(n: Node, now: uint32) {
    var i := FindPeer(n.peers, n.current.nextHop);
    && n.current.distance != 0xFF
    && i < |n.peers| && Elapsed(now, n.peers[i].lastSeen) < STALE_PEER_THRESHOLD_MS
    && n.current.nextHop != n.own
  }

  /** transmitCore with a message of its own: one hop along the route, or nothing. Adapter data is
      addressed to the master of the route, whatever its target was. */
  function Transmit(n: Node, msgType: byte, m: MeshMsg, now: uint32): seq<Send> {
    var out := if msgType == TYPE_ADAPTER_DATA then m.(target := n.current.mac) else m;
    if HasNextHop(n, now) then [Send(n.current.nextHop, out)] else []
  }

  /** A message of the node's own, before it is addressed. A beacon is for everybody. */
  function Built(n: Node, epoch: uint32, seqNum: uint16, dataType: int32, data: Option<Bytes64>,
                 msgType: byte): MeshMsg {
    MeshMsg(PROTO_VERSION, msgType, dataType, n.own,
            if msgType == TYPE_MASTER_BEACON then BROADCAST_MAC else n.current.mac, n.own,
            if data.Some? then data.value else Fill(64, 0), 0, epoch, seqNum, Fill(32, 0))
  }

  function Hopped(n: Node, m: MeshMsg): MeshMsg
    requires m.hopCount < MAX_HOPS
  {
    m.(hopCount := m.hopCount + 1, lastHop := n.own)
  }

  /** One copy to every peer but oneself. */
  function ToPeers(own: Mac, peers: seq<Peer>, m: MeshMsg): (out: seq<Send>)
    ensures |out| <= |peers| && forall s | s in out :: s.msg == m
  {
    if peers == [] then []
    else (if peers[0].mac == own then [] else [Send(peers[0].mac, m)]) + ToPeers(own, peers[1..], m)
  }

  function RelayDownlink(n: Node, m: MeshMsg): seq<Send> {
    if m.hopCount >= MAX_HOPS then [] else ToPeers(n.own, n.peers, Hopped(n, m))
  }

  // ---------- Handlers ----------

  predicate FromKnownMaster(n: Node, origin: Mac) {
    || (n.hasMaster && origin == n.knownMaster)
    || (n.dualMode && n.hasSecondary && origin == n.knownSecondary)
  }

  /** A beacon counts unless it has come too far, or is from a stranger while a known master is fresh. */
  predicate Accepts(n: Node, m: MeshMsg, now: uint32) {
    && m.hopCount < MAX_HOPS
    && (|| !n.hasMaster || FromKnownMaster(n, m.origin) || (n.dualMode && !n.hasSecondary)
        || Elapsed(now, n.lastBeaconRx) >= STALE_MASTER_THRESHOLD_MS)
  }

  /** Trust on first use, a second master in dual mode, and replacement of a stale one. */
  function LearnMaster(n: Node, origin: Mac): Node {
    if !n.hasMaster then n.(knownMaster := origin, hasMaster := true, flashMaster := origin)
    else if FromKnownMaster(n, origin) then n
    else if n.dualMode && !n.hasSecondary then
      n.(knownSecondary := origin, hasSecondary := true, flashSecondary := origin)
    else n.(knownMaster := origin, flashMaster := origin)
  }

  /** Learning a master touches nothing but the known masters. */
  lemma LearnMasterKeeps(n: Node, origin: Mac)
    ensures var l := LearnMaster(n, origin);
            && l.own == n.own && l.current == n.current && l.isMaster == n.isMaster && l.relay == n.relay
            && l.relayedEpoch == n.relayedEpoch && l.relayedSeq == n.relayedSeq
  {
  }

  function LearnRoute(current: Route, m: MeshMsg): Route
    requires m.hopCount < MAX_HOPS
  {
    if current.distance == 0xFF || current.mac != m.origin || m.hopCount + 1 < current.distance
    then Route(m.origin, m.hopCount + 1, m.lastHop) else current
  }

  predicate Newer(n: Node, m: MeshMsg) {
    m.epochNum > n.relayedEpoch || (m.epochNum == n.relayedEpoch && m.seqNum > n.relayedSeq)
  }

  function RelayTime(now: uint32, jitter: nat): uint32 { (now + 10 + jitter) % TWO_32 }

  /** Keeps the beacon for a relay after 10 ms plus jitter, if it is newer than the last one relayed. */
  function ScheduleRelay(n: Node, m: MeshMsg, now: uint32, jitter: nat): Node
    requires m.hopCount < MAX_HOPS
  {
    if n.isMaster || !Newer(n, m) then n
    else n.(relayedEpoch := m.epochNum, relayedSeq := m.seqNum, relay := Some(Hopped(n, m)),
            relayAt := RelayTime(now, jitter))
  }

  function OnBeacon(n: Node, m: MeshMsg, now: uint32, jitter: nat): Node {
    if !Accepts(n, m, now) then n
    else
      var learned := LearnMaster(n, m.origin).(lastBeaconRx := now);
      ScheduleRelay(learned.(current := LearnRoute(n.current, m)), m, now, jitter)
  }

  predicate IsConfig(m: MeshMsg)
  {
    m.dataType == SERIAL_ADAPTER && m.data[0] == OP_CONFIG_SET
  }

  function OnAdapterData(n: Node, m: MeshMsg, now: uint32): Effects
  {
    var broadcast := m.target == BROADCAST_MAC;
    if !n.isMaster && m.target != n.own && !broadcast then
      if n.hasMaster && m.target == n.current.mac then
        Effects(n, if m.hopCount >= MAX_HOPS then [] else Transmit(n, TYPE_ADAPTER_DATA, Hopped(n, m), now), [])
      else Effects(n, RelayDownlink(n, m), [])
    else if IsConfig(m) && n.hasMaster && m.origin != n.knownMaster then Effects(n, [], [])
    else Effects(n, if broadcast && !n.isMaster then RelayDownlink(n, m) else [], [m])
  }

  function OnJoinAck(n: Node, m: MeshMsg): Effects
  {
    if m.target != n.own then Effects(n, RelayDownlink(n, m), [])
    else if m.data[..4] != n.publicKey[..4] then Effects(n, [], [])
    else
      var e := n.(enrolled := true);
      Effects(if n.hasMaster then e else e.(knownMaster := m.origin, hasMaster := true, flashMaster := m.origin),
              [], [])
  }

  function OnEnrollment(n: Node, m: MeshMsg): Node {
    if n.isMaster then n.(enrollment := Some((m.origin, m.key))) else n
  }

  function HeardFrom(n: Node, src: Mac, now: uint32): Node {
    var i := FindPeer(n.peers, src);
    if src == n.own || i == |n.peers| then n
    else n.(peers := n.peers[i := n.peers[i].(lastSeen := now)])
  }

  predicate Unsupported(m: MeshMsg) {
    m.protoVersion != 0 && m.protoVersion != PROTO_VERSION
  }

  predicate Checked(m: MeshMsg) {
    m.protoVersion == PROTO_VERSION && m.epochNum > 0
  }

  /** A message past the version and replay checks, dispatched by type. */
  function Dispatch(n: Node, m: MeshMsg, now: uint32, jitter: nat): Effects
  {
    if m.messageType == TYPE_ENROLLMENT then Effects(OnEnrollment(n, m), [], [])
    else if m.messageType == TYPE_JOIN_ACK then OnJoinAck(n, m)
    else if m.messageType == TYPE_MASTER_BEACON then Effects(OnBeacon(n, m, now, jitter), [], [])
    else if m.messageType == TYPE_ADAPTER_DATA then OnAdapterData(n, m, now)
    else Effects(n, [], [])
  }

  /** One entry of the receive queue. */
  function OnFrame(n: Node, src: Mac, m: MeshMsg, now: uint32, jitter: nat): Effects
  {
    if Unsupported(m) || (Checked(m) && IdOf(m) in Window(n.history)) then Effects(n, [], [])
    else
      var recorded := if Checked(m) then n.(history := Recorded(n.history, IdOf(m))) else n;
      Dispatch(HeardFrom(recorded, src, now), m, now, jitter)
  }

  /** The message is a beacon that gets past every check and changes the node. */
  predicate AcceptedBeacon(n: Node, m: MeshMsg, now: uint32) {
    && m.messageType == TYPE_MASTER_BEACON
    && !Unsupported(m) && !(Checked(m) && IdOf(m) in Window(n.history))
    && Accepts(n, m, now)
  }

  /** Hearing from somebody touches the peer list alone. */
  lemma HeardKeeps(n: Node, src: Mac, now: uint32)
    ensures HeardFrom(n, src, now) == n.(peers := HeardFrom(n, src, now).peers)
  {
  }

  /** checkMasterTimeout. */
  function OnTimeout(n: Node, now: uint32): Node {
    if n.isMaster || n.current.distance == 0xFF || Elapsed(now, n.lastBeaconRx) <= STALE_MASTER_THRESHOLD_MS then n
    else n.(current := NO_ROUTE, lastBeaconRx := 0)
  }

  /** The relay part of loop(): a due beacon goes one hop along the route, or is dropped. */
  function OnTick(n: Node, now: uint32): Effects {
    if n.relay.Some? && now >= n.relayAt
    then Effects(n.(relay := None), Transmit(n, TYPE_MASTER_BEACON, n.relay.value, now), [])
    else Effects(n, [], [])
  }
}
