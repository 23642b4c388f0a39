/**
 The mesh goes quiet. A network of nodes with frames in the air and in receive queues; once nobody
 originates anything, a weight that depends on the hop counts and the number of hosts bounds how often frames can be
 delivered, lost, processed or relayed, whatever the routes and peer lists say, cycles included.
 */
module QuietNetwork {
  import opened Basics
  import opened MeshTypes
  import opened ReplayCache
  import opened MeshNode

  /** A frame on its way to one receiver. */
  datatype Packet = Packet(to: Mac, src: Mac, msg: MeshMsg)

  datatype Host = Host(node: Node, queue: seq<Packet>)

  datatype Net = Net(hosts: seq<Host>, air: seq<Packet>)

  datatype Step =
    | Deliver(packet: nat, host: nat)                       // into the queue, or dropped when it is full
    | Lose(packet: nat)
    | Process(host: nat, now: uint32, jitter: nat)          // one entry of the drain loop
    | Relay(host: nat, now: uint32)                         // the deferred beacon, once due
    | Timeout(host: nat, now: uint32)                       // checkMasterTimeout
    | Wait                                                  // time passes

  const QUEUE_CAPACITY: nat := 7

  /** No peer list is over-long. A peer may be the broadcast address: then a frame relayed to it is for everybody. */
  predicate PeersOk(n: Node) {
    |n.peers| <= MAX_PEERS
  }

  predicate NetOk(s: Net) {
    forall h | h in s.hosts :: PeersOk(h.node)
  }

  predicate Enabled(s: Net, step: Step) {
    match step
    case Deliver(k, i) => k < |s.air| && i < |s.hosts| && s.air[k].to == s.hosts[i].node.own
    case Lose(k) => k < |s.air|
    case Process(i, _, _) => i < |s.hosts| && s.hosts[i].queue != []
    case Relay(i, now) => i < |s.hosts| && s.hosts[i].node.relay.Some? && now >= s.hosts[i].node.relayAt
    case Timeout(i, _) => i < |s.hosts|
    case Wait => true
  }

  /** Sends become packets: one for the addressee, or one for every host. */
  function Emit(hosts: seq<Host>, src: Mac, sends: seq<Send>): (out: seq<Packet>) {
    if sends == [] then []
    else (if sends[0].dst == BROADCAST_MAC then Copies(hosts, src, sends[0].msg)
          else [Packet(sends[0].dst, src, sends[0].msg)]) + Emit(hosts, src, sends[1..])
  }

  function Copies(hosts: seq<Host>, src: Mac, m: MeshMsg): seq<Packet> {
    if hosts == [] then [] else [Packet(hosts[0].node.own, src, m)] + Copies(hosts[1..], src, m)
  }

  function Without(air: seq<Packet>, k: nat): seq<Packet>
    requires k < |air|
  {
    air[..k] + air[k + 1..]
  }

  function Next(s: Net, step: Step): Net
    requires Enabled(s, step)
  {
    match step
    case Deliver(k, i) =>
      var h := s.hosts[i];
      var queue := if |h.queue| < QUEUE_CAPACITY then h.queue + [s.air[k]] else h.queue;
      Net(s.hosts[i := h.(queue := queue)], Without(s.air, k))
    case Lose(k) => s.(air := Without(s.air, k))
    case Process(i, now, jitter) =>
      var h := s.hosts[i];
      var e := OnFrame(h.node, h.queue[0].src, h.queue[0].msg, now, jitter);
      Net(s.hosts[i := Host(e.node, h.queue[1..])], s.air + Emit(s.hosts, h.node.own, e.sends))
    case Relay(i, now) =>
      var h := s.hosts[i];
      var e := OnTick(h.node, now);
      Net(s.hosts[i := h.(node := e.node)], s.air + Emit(s.hosts, h.node.own, e.sends))
    case Timeout(i, now) =>
      s.(hosts := s.hosts[i := s.hosts[i].(node := OnTimeout(s.hosts[i].node, now))])
    case Wait => s
  }

  // ---------- Weights ----------

  /** `n` times `x`, by addition. */
  function Times(n: nat, x: nat): nat {
    if n == 0 then 0 else x + Times(n - 1, x)
  }

  function HopsLeft(hop: nat): nat { if hop < MAX_HOPS then MAX_HOPS - hop else 0 }

  /** What a frame can become in a network of `h` hosts: sixteen copies to everybody, for every hop still allowed. */
  function Weight(hop: nat, h: nat): (w: nat)
    ensures w > 0
    decreases HopsLeft(hop), 0
  {
    if hop >= MAX_HOPS then 1 else 16 * Spread(hop + 1, h)
  }

  /** The weight of a frame for each of `h` hosts and one more. */
  function Spread(hop: nat, h: nat): (w: nat)
    ensures w >= Weight(hop, h)
    decreases HopsLeft(hop), 1
  {
    Times(h + 1, Weight(hop, h))
  }

  function QueueWeight(q: seq<Packet>, h: nat): nat {
    if q == [] then 0 else 2 * Weight(q[0].msg.hopCount, h) + QueueWeight(q[1..], h)
  }

  function AirWeight(air: seq<Packet>, h: nat): nat {
    if air == [] then 0 else 3 * Weight(air[0].msg.hopCount, h) + AirWeight(air[1..], h)
  }

  function RelayWeight(relay: Option<MeshMsg>, h: nat): nat {
    match relay case None => 0 case Some(m) => 4 * Spread(m.hopCount, h)
  }

  function HostWeight(host: Host, h: nat): nat { QueueWeight(host.queue, h) + RelayWeight(host.node.relay, h) }

  function HostsWeight(hosts: seq<Host>, h: nat): nat {
    if hosts == [] then 0 else HostWeight(hosts[0], h) + HostsWeight(hosts[1..], h)
  }

  function Potential(s: Net): nat { HostsWeight(s.hosts, |s.hosts|) + AirWeight(s.air, |s.hosts|) }

  lemma {:induction false} QueueAppend(a: seq<Packet>, b: seq<Packet>, h: nat)
    ensures QueueWeight(a + b, h) == QueueWeight(a, h) + QueueWeight(b, h)
    decreases |a|
  {
    if a == [] {
      assert a + b == b;
    } else {
      QueueAppend(a[1..], b, h);
      assert (a + b)[1..] == a[1..] + b;
    }
  }

  lemma {:induction false} AirAppend(a: seq<Packet>, b: seq<Packet>, h: nat)
    ensures AirWeight(a + b, h) == AirWeight(a, h) + AirWeight(b, h)
    decreases |a|
  {
    if a == [] {
      assert a + b == b;
    } else {
      AirAppend(a[1..], b, h);
      assert (a + b)[1..] == a[1..] + b;
    }
  }

  lemma AirRemove(air: seq<Packet>, k: nat, h: nat)
    requires k < |air|
    ensures AirWeight(air, h) == AirWeight(Without(air, k), h) + 3 * Weight(air[k].msg.hopCount, h)
  {
    assert air == air[..k] + air[k..] && air[k..][1..] == air[k + 1..];
    AirAppend(air[..k], air[k..], h);
    AirAppend(air[..k], air[k + 1..], h);
  }

  lemma {:induction false} HostsUpdate(hosts: seq<Host>, i: nat, host: Host, h: nat)
    requires i < |hosts|
    ensures HostsWeight(hosts[i := host], h) == HostsWeight(hosts, h) - HostWeight(hosts[i], h) + HostWeight(host, h)
    decreases |hosts|
  {
    hide HostWeight;
    if i == 0 {
      assert hosts[0 := host][1..] == hosts[1..];
    } else {
      HostsUpdate(hosts[1..], i - 1, host, h);
      assert hosts[i := host][1..] == hosts[1..][i - 1 := host];
    }
  }

  // ---------- What a node sends in return ----------

  /** All sends are copies of a frame one hop further; a frame out of hops causes none. */
  ghost predicate RelaysOf(m: MeshMsg, sends: seq<Send>) {
    && |sends| <= MAX_PEERS
    && (m.hopCount >= MAX_HOPS ==> sends == [])
    && forall s | s in sends :: s.msg.hopCount == m.hopCount + 1
  }

  lemma RelayDownlinkRelays(n: Node, m: MeshMsg)
    requires PeersOk(n)
    ensures RelaysOf(m, RelayDownlink(n, m))
  {
  }

  lemma TransmitOnce(n: Node, msgType: byte, m: MeshMsg, now: uint32)
    ensures |Transmit(n, msgType, m, now)| <= 1
    ensures forall s | s in Transmit(n, msgType, m, now) :: s.msg.hopCount == m.hopCount
  {
    hide HasNextHop;
  }

  /** One processed entry: at most ten frames one hop further and at most one beacon kept for relay. */
  lemma FrameRelays(n: Node, src: Mac, m: MeshMsg, now: uint32, jitter: nat)
    requires PeersOk(n)
    ensures var e := OnFrame(n, src, m, now, jitter);
            && RelaysOf(m, e.sends) && PeersOk(e.node) && e.node.own == n.own
            && (e.node.relay == n.relay
                || (e.sends == [] && m.hopCount < MAX_HOPS && e.node.relay.Some?
                    && e.node.relay.value.hopCount == m.hopCount + 1))
  {
    var recorded := if Checked(m) then n.(history := Recorded(n.history, IdOf(m))) else n;
    HeardKeepsPeers(recorded, src, now);
    HeardKeeps(recorded, src, now);
    DispatchRelays(HeardFrom(recorded, src, now), m, now, jitter);
  }

  lemma DispatchRelays(n: Node, m: MeshMsg, now: uint32, jitter: nat)
    requires PeersOk(n)
    ensures var e := Dispatch(n, m, now, jitter);
            && RelaysOf(m, e.sends) && e.node.peers == n.peers && e.node.own == n.own
            && (e.node.relay == n.relay
                || (e.sends == [] && m.hopCount < MAX_HOPS && e.node.relay.Some?
                    && e.node.relay.value.hopCount == m.hopCount + 1))
  {
    hide RelayDownlink, Transmit, OnBeacon;
    RelayDownlinkRelays(n, m);
    if m.messageType == TYPE_ADAPTER_DATA {
      if m.hopCount < MAX_HOPS {
        TransmitOnce(n, TYPE_ADAPTER_DATA, Hopped(n, m), now);
      }
    } else if m.messageType == TYPE_MASTER_BEACON {
      BeaconSchedules(n, m, now, jitter);
    }
  }

  lemma BeaconSchedules(n: Node, m: MeshMsg, now: uint32, jitter: nat)
    ensures var b := OnBeacon(n, m, now, jitter);
            && b.peers == n.peers && b.own == n.own
            && (b.relay == n.relay
                || (m.hopCount < MAX_HOPS && b.relay.Some? && b.relay.value.hopCount == m.hopCount + 1))
  {
  }

  lemma HeardKeepsPeers(n: Node, src: Mac, now: uint32)
    requires PeersOk(n)
    ensures PeersOk(HeardFrom(n, src, now))
  {
  }

  lemma {:induction false} TimesScale(n: nat, x: nat)
    ensures Times(n, 3 * x) == 3 * Times(n, x)
  {
    if n > 0 { TimesScale(n - 1, x); }
  }

  lemma {:induction false} TimesMonotone(n: nat, k: nat, x: nat)
    requires n <= k
    ensures Times(n, x) <= Times(k, x)
    decreases k
  {
    if n < k {
      TimesMonotone(n, k - 1, x);
    }
  }

  lemma TenTimes(n: nat, x: nat)
    requires n <= 10
    ensures Times(n, x) <= 10 * x
  {
    TimesMonotone(n, 10, x);
    assert Times(1, x) == x;
    assert Times(2, x) == 2 * x;
    assert Times(4, x) == 4 * x;
    assert Times(6, x) == 6 * x;
    assert Times(8, x) == 8 * x;
  }

  lemma {:induction false} CopiesWeigh(hosts: seq<Host>, src: Mac, m: MeshMsg, h: nat)
    ensures AirWeight(Copies(hosts, src, m), h) == Times(|hosts|, 3 * Weight(m.hopCount, h))
    decreases |hosts|
  {
    hide Weight;
    if hosts != [] {
      CopiesWeigh(hosts[1..], src, m, h);
      var p, rest := Packet(hosts[0].node.own, src, m), Copies(hosts[1..], src, m);
      assert Copies(hosts, src, m) == [p] + rest && ([p] + rest)[1..] == rest;
    }
  }

  /** One send, to one address or to everybody, puts at most this much in the air. */
  lemma SendWeighs(hosts: seq<Host>, src: Mac, send: Send)
    ensures AirWeight(Emit(hosts, src, [send]), |hosts|) <= 3 * Spread(send.msg.hopCount, |hosts|)
  {
    hide Weight;
    var h, w := |hosts|, Weight(send.msg.hopCount, |hosts|);
    assert [send][1..] == [] && Emit(hosts, src, []) == [];
    TimesScale(h + 1, w);
    TimesMonotone(h, h + 1, 3 * w);
    CopiesWeigh(hosts, src, send.msg, h);
    var p := Packet(send.dst, src, send.msg);
    assert Emit(hosts, src, [send])
        == (if send.dst == BROADCAST_MAC then Copies(hosts, src, send.msg) else [p]) + [];
    assert Copies(hosts, src, send.msg) + [] == Copies(hosts, src, send.msg) && [p] + [] == [p] && [p][1..] == [];
    TimesMonotone(1, h + 1, 3 * w);
    assert Times(1, 3 * w) == 3 * w;
  }

  lemma EmitFirst(hosts: seq<Host>, src: Mac, sends: seq<Send>)
    requires sends != []
    ensures Emit(hosts, src, sends) == Emit(hosts, src, [sends[0]]) + Emit(hosts, src, sends[1..])
  {
    var first := if sends[0].dst == BROADCAST_MAC then Copies(hosts, src, sends[0].msg)
                 else [Packet(sends[0].dst, src, sends[0].msg)];
    assert [sends[0]][1..] == [] && first + [] == first;
  }

  lemma {:induction false} RelaysWeigh(hosts: seq<Host>, src: Mac, m: MeshMsg, sends: seq<Send>)
    requires RelaysOf(m, sends)
    ensures AirWeight(Emit(hosts, src, sends), |hosts|) <= Times(|sends|, 3 * Spread(m.hopCount + 1, |hosts|))
    decreases |sends|
  {
    hide Weight, Spread;
    if sends == [] {
      NothingEmitted(hosts, src);
    } else {
      assert sends[0] in sends;
      RelaysWeigh(hosts, src, m, sends[1..]);
      SendWeighs(hosts, src, sends[0]);
      EmitFirst(hosts, src, sends);
      AirAppend(Emit(hosts, src, [sends[0]]), Emit(hosts, src, sends[1..]), |hosts|);
    }
  }

  // ---------- The bound ----------

  predicate Productive(step: Step) {
    step.Deliver? || step.Lose? || step.Process? || step.Relay?
  }

  lemma DeliverFalls(s: Net, k: nat, i: nat)
    requires NetOk(s) && Enabled(s, Deliver(k, i))
    ensures NetOk(Next(s, Deliver(k, i))) && Potential(Next(s, Deliver(k, i))) < Potential(s)
  {
    hide Weight;
    AirRemove(s.air, k, |s.hosts|);
    var h := s.hosts[i];
    var n := Next(s, Deliver(k, i));
    assert h in s.hosts && s.air[k] in s.air;
    HostsUpdate(s.hosts, i, n.hosts[i], |s.hosts|);
    QueueAppend(h.queue, [s.air[k]], |s.hosts|);
  }

  lemma LoseFalls(s: Net, k: nat)
    requires NetOk(s) && Enabled(s, Lose(k))
    ensures NetOk(Next(s, Lose(k))) && Potential(Next(s, Lose(k))) < Potential(s)
  {
    AirRemove(s.air, k, |s.hosts|);
  }

  /** What replaces a processed frame weighs less than the frame did in the queue. */
  lemma RelaysLight(hosts: seq<Host>, src: Mac, m: MeshMsg, sends: seq<Send>)
    requires RelaysOf(m, sends)
    ensures AirWeight(Emit(hosts, src, sends), |hosts|) < 2 * Weight(m.hopCount, |hosts|)
    ensures m.hopCount < MAX_HOPS ==> 4 * Spread(m.hopCount + 1, |hosts|) < 2 * Weight(m.hopCount, |hosts|)
  {
    hide Spread, Emit;
    RelaysWeigh(hosts, src, m, sends);
    SpreadPositive(m.hopCount + 1, |hosts|);
    if m.hopCount < MAX_HOPS {
      TenTimes(|sends|, 3 * Spread(m.hopCount + 1, |hosts|));
    } else {
      NothingEmitted(hosts, src);
    }
  }

  lemma SpreadPositive(hop: nat, h: nat)
    ensures Spread(hop, h) > 0
  {
    hide Weight;
  }

  lemma ProcessFalls(s: Net, i: nat, now: uint32, jitter: nat)
    requires NetOk(s) && Enabled(s, Process(i, now, jitter))
    ensures NetOk(Next(s, Process(i, now, jitter))) && Potential(Next(s, Process(i, now, jitter))) < Potential(s)
  {
    hide OnFrame, Emit, Weight, Spread, RelaysOf, PeersOk;
    var h := s.hosts[i];
    assert h in s.hosts;
    var m := h.queue[0].msg;
    FrameRelays(h.node, h.queue[0].src, m, now, jitter);
    var e := OnFrame(h.node, h.queue[0].src, m, now, jitter);
    RelaysLight(s.hosts, h.node.own, m, e.sends);
    AirAppend(s.air, Emit(s.hosts, h.node.own, e.sends), |s.hosts|);
    HostsUpdate(s.hosts, i, Host(e.node, h.queue[1..]), |s.hosts|);
    if e.sends == [] { NothingEmitted(s.hosts, h.node.own); }
  }

  lemma NothingEmitted(hosts: seq<Host>, src: Mac)
    ensures Emit(hosts, src, []) == []
  {
  }

  lemma TickEmits(hosts: seq<Host>, n: Node, now: uint32)
    requires n.relay.Some? && now >= n.relayAt
    ensures var e := OnTick(n, now);
            e.node == n.(relay := None)
            && AirWeight(Emit(hosts, n.own, e.sends), |hosts|) <= 3 * Spread(n.relay.value.hopCount, |hosts|)
  {
    hide Weight, Spread, Transmit, Emit;
    TransmitOnce(n, TYPE_MASTER_BEACON, n.relay.value, now);
    var sends := OnTick(n, now).sends;
    NothingEmitted(hosts, n.own);
    if sends != [] {
      assert sends[0] in sends && sends == [sends[0]];
      SendWeighs(hosts, n.own, sends[0]);
    }
  }

  lemma RelayFalls(s: Net, i: nat, now: uint32)
    requires NetOk(s) && Enabled(s, Relay(i, now))
    ensures NetOk(Next(s, Relay(i, now))) && Potential(Next(s, Relay(i, now))) < Potential(s)
  {
    hide OnTick, Emit, Weight, Spread;
    var h := s.hosts[i];
    assert h in s.hosts;
    TickEmits(s.hosts, h.node, now);
    SpreadPositive(h.node.relay.value.hopCount, |s.hosts|);
    var e := OnTick(h.node, now);
    AirAppend(s.air, Emit(s.hosts, h.node.own, e.sends), |s.hosts|);
    HostsUpdate(s.hosts, i, h.(node := e.node), |s.hosts|);
  }

  lemma IdleKeeps(s: Net, step: Step)
    requires NetOk(s) && Enabled(s, step) && !Productive(step)
    ensures NetOk(Next(s, step)) && Potential(Next(s, step)) == Potential(s)
  {
    match step
    case Timeout(i, now) =>
      assert s.hosts[i] in s.hosts;
      HostsUpdate(s.hosts, i, Next(s, step).hosts[i], |s.hosts|);
    case Wait =>
  }

  lemma StepFalls(s: Net, step: Step)
    requires NetOk(s) && Enabled(s, step)
    ensures NetOk(Next(s, step))
    ensures Potential(Next(s, step)) + (if Productive(step) then 1 else 0) <= Potential(s)
  {
    hide Next, Potential, NetOk;
    match step
    case Deliver(k, i) => DeliverFalls(s, k, i);
    case Lose(k) => LoseFalls(s, k);
    case Process(i, now, jitter) => ProcessFalls(s, i, now, jitter);
    case Relay(i, now) => RelayFalls(s, i, now);
    case _ => IdleKeeps(s, step);
  }

  ghost predicate IsRun(states: seq<Net>, steps: seq<Step>) {
    && |states| == |steps| + 1
    && forall i | 0 <= i < |steps| :: Enabled(states[i], steps[i]) && states[i + 1] == Next(states[i], steps[i])
  }

  function ProductiveSteps(steps: seq<Step>): nat {
    if steps == [] then 0 else ProductiveSteps(steps[..|steps| - 1]) + (if Productive(steps[|steps| - 1]) then 1 else 0)
  }

  /** The mesh goes quiet: from any state, whatever order things happen in, the number of deliveries,
      losses, processed frames and relays is at most the potential of that state. */
  lemma {:induction false} GoesQuiet(states: seq<Net>, steps: seq<Step>)
    requires IsRun(states, steps) && NetOk(states[0])
    ensures NetOk(states[|steps|])
    ensures ProductiveSteps(steps) + Potential(states[|steps|]) <= Potential(states[0])
    decreases |steps|
  {
    hide NetOk, Next, Potential;
    if steps != [] {
      var n := |steps| - 1;
      GoesQuiet(states[..|states| - 1], steps[..n]);
      StepFalls(states[n], steps[n]);
    }
  }

  /** And quiet is quiet: with no weight left, no frame is in the air, queued or waiting to be relayed. */
  lemma NoWeightNoFrames(s: Net)
    requires Potential(s) == 0
    ensures s.air == [] && forall h | h in s.hosts :: h.queue == [] && h.node.relay == None
  {
    NoWeightNoQueues(s.hosts, |s.hosts|);
  }

  lemma {:induction false} NoWeightNoQueues(hosts: seq<Host>, h: nat)
    requires HostsWeight(hosts, h) == 0
    ensures forall host | host in hosts :: host.queue == [] && host.node.relay == None
    decreases |hosts|
  {
    hide Weight, Spread;
    if hosts != [] {
      NoWeightNoQueues(hosts[1..], h);
      if hosts[0].node.relay.Some? { SpreadPositive(hosts[0].node.relay.value.hopCount, h); }
      assert forall host | host in hosts :: host == hosts[0] || host in hosts[1..];
    }
  }

  /** Until then something can happen: a frame can be lost at least, a queued one processed, a waiting
      beacon relayed once its time has come. */
  lemma NotQuietNotStuck(s: Net)
    requires s.air != [] || exists h :: h in s.hosts && (h.queue != [] || h.node.relay.Some?)
    ensures exists step :: Enabled(s, step) && Productive(step)
  {
    if s.air != [] {
      assert Enabled(s, Lose(0));
    } else {
      var h :| h in s.hosts && (h.queue != [] || h.node.relay.Some?);
      var i :| 0 <= i < |s.hosts| && s.hosts[i] == h;
      if h.queue != [] {
        assert Enabled(s, Process(i, 0, 0));
      } else {
        assert Enabled(s, Relay(i, h.node.relayAt));
      }
    }
  }
}
