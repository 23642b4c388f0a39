/**
 What a node makes of the frames that reach it: what it passes on, what it hands to its adapter, and how
 often it handles the same message.
 */
module Forwarding {
  import opened Basics
  import opened MeshTypes
  import opened ReplayCache
  import opened MeshNode

  /** Only messages of version 2 with an epoch are checked for replays. */
  predicate Numbered(m: MeshMsg) { m.protoVersion == 2 && m.epochNum > 0 }

  /** The id is among the last sixteen of the history. */
  ghost predicate Recent(history: seq<ReplayId>, id: ReplayId) {
    exists k :: 0 <= k < |history| && |history| - 16 <= k && history[k] == id
  }

  /** The frame is of a version this node speaks, and not one it has just seen. */
  ghost predicate Admitted(n: Node, m: MeshMsg) {
    && (m.protoVersion == 0 || m.protoVersion == 2)
    && !(Numbered(m) && Recent(n.history, ReplayId(m.origin, m.epochNum, m.seqNum)))
  }

  lemma RecentIsWindow(history: seq<ReplayId>, id: ReplayId)
    ensures Recent(history, id) <==> id in Window(history)
  {
    var w := Window(history);
    if id in w {
      var j :| 0 <= j < |w| && w[j] == id;
      assert history[j + |history| - |w|] == id;
    }
    if Recent(history, id) {
      var k :| 0 <= k < |history| && |history| - 16 <= k && history[k] == id;
      RecentInWindow(history, k);
    }
  }

  /** What the node checks is what is meant. */
  lemma AdmittedIs(n: Node, m: MeshMsg)
    ensures Admitted(n, m) <==> !Unsupported(m) && !(Checked(m) && IdOf(m) in Window(n.history))
    ensures Numbered(m) <==> Checked(m)
  {
    RecentIsWindow(n.history, IdOf(m));
  }

  predicate HasPeer(n: Node, mac: Mac) {
    exists p :: p in n.peers && p.mac == mac
  }

  // ---------- Passing on ----------

  lemma {:induction false} ToPeersKnown(own: Mac, peers: seq<Peer>, m: MeshMsg)
    ensures forall s | s in ToPeers(own, peers, m) ::
              s.msg == m && s.dst != own && exists p :: p in peers && p.mac == s.dst
  {
    if peers != [] {
      ToPeersKnown(own, peers[1..], m);
    }
  }

  lemma DownlinkKnown(n: Node, m: MeshMsg)
    ensures forall s | s in RelayDownlink(n, m) ::
              m.hopCount < MAX_HOPS && s.msg == Hopped(n, m) && s.dst != n.own && HasPeer(n, s.dst)
  {
    if m.hopCount < MAX_HOPS {
      ToPeersKnown(n.own, n.peers, Hopped(n, m));
    }
  }

  lemma TransmitKnown(n: Node, m: MeshMsg, now: uint32)
    requires m.target == n.current.mac
    ensures forall s | s in Transmit(n, TYPE_ADAPTER_DATA, m, now) :: s.msg == m && s.dst != n.own && HasPeer(n, s.dst)
  {
    if HasNextHop(n, now) {
      assert n.peers[FindPeer(n.peers, n.current.nextHop)] in n.peers;
    }
  }

  lemma DispatchForwards(n: Node, m: MeshMsg, now: uint32, jitter: nat)
    ensures forall s | s in Dispatch(n, m, now, jitter).sends ::
              && m.hopCount < MAX_HOPS && s.msg == Hopped(n, m) && s.dst != n.own && HasPeer(n, s.dst)
              && m.messageType in {TYPE_ADAPTER_DATA, TYPE_JOIN_ACK} && (m.target != n.own || m.target == BROADCAST_MAC)
  {
    hide RelayDownlink, Transmit, OnBeacon, HasPeer;
    DownlinkKnown(n, m);
    if m.hopCount < MAX_HOPS && m.target == n.current.mac {
      TransmitKnown(n, Hopped(n, m), now);
    }
  }

  /** Everything a node sends in answer to a frame is that frame, one hop further and otherwise unchanged, even
      where the code writes the target anew; it goes to known peers and never back to the node itself. */
  lemma ForwardsUnchanged(n: Node, src: Mac, m: MeshMsg, now: uint32, jitter: nat)
    ensures forall s | s in OnFrame(n, src, m, now, jitter).sends ::
              && Admitted(n, m) && m.hopCount < MAX_HOPS && (m.target != n.own || m.target == BROADCAST_MAC)
              && s.msg == m.(hopCount := m.hopCount + 1, lastHop := n.own)
              && s.dst != n.own && HasPeer(n, s.dst)
  {
    hide Dispatch, HasPeer, HeardFrom, Admitted, Window;
    AdmittedIs(n, m);
    var recorded := if Checked(m) then n.(history := Recorded(n.history, IdOf(m))) else n;
    HeardKeeps(recorded, src, now);
    var k := HeardFrom(recorded, src, now);
    DispatchForwards(k, m, now, jitter);
    forall mac | HasPeer(k, mac) ensures HasPeer(n, mac) {
      HeardAddresses(recorded, src, now, mac);
      SamePeers(recorded, n, mac);
    }
  }

  lemma HeardAddresses(n: Node, src: Mac, now: uint32, mac: Mac)
    requires HasPeer(HeardFrom(n, src, now), mac)
    ensures HasPeer(n, mac)
  {
    var k := HeardFrom(n, src, now);
    var p :| p in k.peers && p.mac == mac;
    var i :| 0 <= i < |k.peers| && k.peers[i] == p;
    assert n.peers[i] in n.peers && n.peers[i].mac == mac;
  }

  lemma SamePeers(a: Node, b: Node, mac: Mac)
    requires a.peers == b.peers && HasPeer(a, mac)
    ensures HasPeer(b, mac)
  {
  }

  /** How many of the sends go to an address. */
  function CopiesTo(sends: seq<Send>, mac: Mac): nat {
    if sends == [] then 0 else (if sends[0].dst == mac then 1 else 0) + CopiesTo(sends[1..], mac)
  }

  /** A downlink relay reaches every peer of a list without duplicates exactly once, and nobody else. */
  lemma {:induction false} EveryPeerOnce(own: Mac, peers: seq<Peer>, m: MeshMsg, mac: Mac)
    requires forall i, j | 0 <= i < j < |peers| :: peers[i].mac != peers[j].mac
    ensures CopiesTo(ToPeers(own, peers, m), mac)
            == if mac != own && exists p :: p in peers && p.mac == mac then 1 else 0
    decreases |peers|
  {
    if peers != [] {
      EveryPeerOnce(own, peers[1..], m, mac);
      var rest := ToPeers(own, peers[1..], m);
      assert ([Send(peers[0].mac, m)] + rest)[1..] == rest && [] + rest == rest;
      if peers[0].mac == mac {
        assert peers[0] in peers;
      } else {
        assert forall p | p in peers :: p == peers[0] || p in peers[1..];
      }
    }
  }

  // ---------- Handing over ----------

  /** The adapter gets a message once, as it arrived, exactly when it is admitted adapter data for this node, for
      everybody, or at a master, and not a configuration order from anyone but the known master. */
  lemma DeliveredExactly(n: Node, src: Mac, m: MeshMsg, now: uint32, jitter: nat)
    ensures var forUs := n.isMaster || m.target == n.own || m.target == BROADCAST_MAC;
            var forged := m.dataType == 1 && m.data[0] == 0xC1 && n.hasMaster && m.origin != n.knownMaster;
            OnFrame(n, src, m, now, jitter).delivered
            == if Admitted(n, m) && m.messageType == 0 && forUs && !forged then [m] else []
  {
    hide RelayDownlink, Transmit, OnBeacon, HeardFrom, Window, Admitted;
    AdmittedIs(n, m);
    var recorded := if Checked(m) then n.(history := Recorded(n.history, IdOf(m))) else n;
    HeardKeeps(recorded, src, now);
  }

  // ---------- Handling once ----------

  datatype Arrival = Arrival(src: Mac, msg: MeshMsg, now: uint32, jitter: nat)

  /** The node after a sequence of frames, whatever else they make it do. */
  function After(n: Node, frames: seq<Arrival>): Node
    decreases |frames|
  {
    if frames == [] then n
    else
      var f := frames[|frames| - 1];
      OnFrame(After(n, frames[..|frames| - 1]), f.src, f.msg, f.now, f.jitter).node
  }

  /** Everything sent in answer to a sequence of frames, in order. */
  function Answers(n: Node, frames: seq<Arrival>): seq<Send>
    decreases |frames|
  {
    if frames == [] then []
    else
      var f := frames[|frames| - 1];
      var before := frames[..|frames| - 1];
      Answers(n, before) + OnFrame(After(n, before), f.src, f.msg, f.now, f.jitter).sends
  }

  /** Everything handed to the adapter, in order. */
  function Deliveries(n: Node, frames: seq<Arrival>): seq<MeshMsg>
    decreases |frames|
  {
    if frames == [] then []
    else
      var f := frames[|frames| - 1];
      var before := frames[..|frames| - 1];
      Deliveries(n, before) + OnFrame(After(n, before), f.src, f.msg, f.now, f.jitter).delivered
  }

  lemma DispatchHistory(n: Node, m: MeshMsg, now: uint32, jitter: nat)
    ensures Dispatch(n, m, now, jitter).node.history == n.history
  {
    hide RelayDownlink, Transmit, OnBeacon;
    if Accepts(n, m, now) {
      BeaconHistory(n, m, now, jitter);
    } else {
      assert OnBeacon(n, m, now, jitter) == n by { Rejected(n, m, now, jitter); }
    }
  }

  lemma Rejected(n: Node, m: MeshMsg, now: uint32, jitter: nat)
    requires !Accepts(n, m, now)
    ensures OnBeacon(n, m, now, jitter) == n
  {
  }

  lemma BeaconHistory(n: Node, m: MeshMsg, now: uint32, jitter: nat)
    requires Accepts(n, m, now)
    ensures OnBeacon(n, m, now, jitter).history == n.history
  {
    hide LearnRoute, Newer;
  }

  lemma FrameHistory(n: Node, src: Mac, m: MeshMsg, now: uint32, jitter: nat)
    ensures OnFrame(n, src, m, now, jitter).node.history
            == if Admitted(n, m) && Numbered(m) then n.history + [ReplayId(m.origin, m.epochNum, m.seqNum)]
               else n.history
  {
    hide Dispatch, HeardFrom, Window, Admitted;
    AdmittedIs(n, m);
    var recorded := if Checked(m) then n.(history := Recorded(n.history, IdOf(m))) else n;
    HeardKeeps(recorded, src, now);
    DispatchHistory(HeardFrom(recorded, src, now), m, now, jitter);
  }

  lemma {:induction false} HistoryGrows(n: Node, frames: seq<Arrival>, k: nat)
    requires Spread(n.history) && k <= |frames|
    ensures Spread(After(n, frames).history)
    ensures After(n, frames[..k]).history <= After(n, frames).history
    decreases |frames|
  {
    hide OnFrame, Admitted, Numbered, Spread;
    if k == |frames| {
      assert frames[..k] == frames;
    }
    if frames != [] {
      var last := |frames| - 1;
      var before := After(n, frames[..last]);
      var f := frames[last];
      HistoryGrows(n, frames[..last], if k < last then k else last);
      FrameHistory(before, f.src, f.msg, f.now, f.jitter);
      StepKeepsSpread(before, f.msg);
      if k < |frames| {
        assert frames[..last][..k] == frames[..k];
      }
    }
  }

  lemma StepKeepsSpread(n: Node, m: MeshMsg)
    requires Spread(n.history)
    ensures Admitted(n, m) && Numbered(m) ==> Spread(n.history + [IdOf(m)])
  {
    hide Admitted;
    AdmittedIs(n, m);
    RecordedKeepsSpread(n.history, IdOf(m));
  }

  /** A message of the current protocol is handled a second time only after sixteen others, all different from it
      and from each other, have been recorded since. */
  lemma HandledTwice(n: Node, frames: seq<Arrival>, i: nat, j: nat)
    requires n.history == [] && i < j < |frames|
    requires Numbered(frames[i].msg) && Numbered(frames[j].msg) && IdOf(frames[i].msg) == IdOf(frames[j].msg)
    requires Admitted(After(n, frames[..i]), frames[i].msg) && Admitted(After(n, frames[..j]), frames[j].msg)
    ensures var past, present := After(n, frames[..i + 1]).history, After(n, frames[..j]).history;
            && past <= present && |present| - |past| >= 16
            && var between := present[|past|..][..16];
               IdOf(frames[i].msg) !in between && |set id | id in between| == 16
  {
    hide OnFrame, After, Window, Recent;
    var f := frames[i];
    var id := IdOf(f.msg);
    AfterOne(n, frames, i);
    FrameHistory(After(n, frames[..i]), f.src, f.msg, f.now, f.jitter);
    var past, present := After(n, frames[..i + 1]).history, After(n, frames[..j]).history;
    HistoryGrows(n, frames[..j], i + 1);
    assert frames[..j][..i + 1] == frames[..i + 1];
    var at := |past| - 1;
    assert present[at] == id;
    if |present| <= at + REPLAY_CACHE_SIZE {
      RecentInWindow(present, at);
      RecentIsWindow(present, id);
    }
    var between := present[|past|..][..REPLAY_CACHE_SIZE];
    assert forall k | 0 <= k < |between| :: between[k] == present[|past| + k];
    DistinctCount(between);
  }

  lemma AfterOne(n: Node, frames: seq<Arrival>, i: nat)
    requires i < |frames|
    ensures After(n, frames[..i + 1])
            == OnFrame(After(n, frames[..i]), frames[i].src, frames[i].msg, frames[i].now, frames[i].jitter).node
  {
    assert frames[..i + 1][..i] == frames[..i];
  }
}
