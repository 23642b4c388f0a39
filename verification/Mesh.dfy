/**
 The mesh node itself: the handlers of a received message, the route timeout and the deferred relay, in
 place on the node's fields, each proved to do what MeshNode says. Radio and adapter are the lists `sent`
 and `delivered`; the clock and the jitter are parameters.
 */
module Mesh {
  import opened Basics
  import opened MeshTypes
  import opened MeshNode
  import opened ReplayCache
  import opened PeerTable
  import opened EepromImage
  import opened EepromStore
  import opened Forwarding
  import opened RecvRing
  import MasterLearning

  /** The fields whose saves commit at once are the same in flash as in RAM. */
  predicate Anchored(image: Image, flash: Image) {
    && Region(image, KnownMasterField) == Region(flash, KnownMasterField)
    && Region(image, SecondaryField) == Region(flash, SecondaryField)
    && Region(image, EnrolledField) == Region(flash, EnrolledField)
  }

  /** What goes out of the node: frames to the radio, messages to the adapter. */
  class Outlet {
    var sent: seq<Send>
    var delivered: seq<MeshMsg>

    constructor ()
      ensures sent == [] && delivered == []
    {
      sent, delivered := [], [];
    }
  }

  class Mesh {
    const deviceMac: Mac
    const devicePublicKey: Bytes32
    const peers: PeerList
    const cache: Cache
    const store: Store
    var isMaster: bool
    var dualMasterMode: bool
    var currentMaster: Route
    var lastBeaconReceivedMs: uint32
    var hasMasterMac: bool
    var knownMasterMac: Mac
    var hasMasterMacSecondary: bool
    var knownMasterMacSecondary: Mac
    var lastRelayedEpoch: uint32
    var lastRelayedSeqNum: uint16
    var relayPending: bool
    var relayPendingMsg: MeshMsg
    var relayPendingAt: uint32
    var bootEpoch: uint32
    var txSeqNum: uint16
    var lastBeaconMillis: uint32
    var enrollmentPending: bool
    var enrollmentMac: Mac
    var enrollmentPubKey: Bytes32
    const out: Outlet

    /** In production mode, with the master addresses and the enrolled flag in flash as they are in RAM. */
    ghost predicate Valid()
      reads peers, store, store.buffer, cache, cache.replayCache
    {
      && peers.store == store && peers.Valid() && cache.Valid() && store.Valid()
      && store.isInitialized && !store.isDevMode && Anchored(store.State().image, store.flash)
    }

    ghost function FlashMaster(): Mac
      reads store
    {
      Region(store.flash, KnownMasterField)
    }

    ghost function FlashSecondary(): Mac
      reads store
    {
      Region(store.flash, SecondaryField)
    }

    ghost function IsEnrolled(): bool
      reads store
    {
      Load(store.flash, EnrolledField).enrolled
    }

    ghost function State(): Node
      reads this, peers, peers.peerMacs, store, store.buffer, cache, cache.replayCache
      requires Valid()
    {
      Node(deviceMac, isMaster, dualMasterMode, devicePublicKey, peers.Peers(), currentMaster, lastBeaconReceivedMs,
           hasMasterMac, knownMasterMac, hasMasterMacSecondary, knownMasterMacSecondary,
           FlashMaster(), FlashSecondary(),
           lastRelayedEpoch, lastRelayedSeqNum, if relayPending then Some(relayPendingMsg) else None, relayPendingAt,
           IsEnrolled(),
           if enrollmentPending then Some((enrollmentMac, enrollmentPubKey)) else None, cache.history)
    }

    /** A blank node on a store that has just booted. */
    constructor (mac: Mac, publicKey: Bytes32, master: bool, dual: bool, s: Store)
      requires s.Valid() && s.isInitialized && !s.isDevMode && s.State().image == s.flash
      ensures Valid() && store == s && fresh(peers) && fresh(peers.peerMacs) && fresh(cache) && fresh(cache.replayCache)
      ensures fresh(out) && out.sent == [] && out.delivered == []
      ensures deviceMac == mac && devicePublicKey == publicKey && isMaster == master && dualMasterMode == dual
      ensures currentMaster == NO_ROUTE && lastBeaconReceivedMs == 0 && !relayPending && !enrollmentPending
      ensures lastRelayedEpoch == 0 && lastRelayedSeqNum == 0 && relayPendingAt == 0 && cache.history == []
      ensures !hasMasterMac && knownMasterMac == BROADCAST_MAC
      ensures !hasMasterMacSecondary && knownMasterMacSecondary == BROADCAST_MAC
    {
      deviceMac, devicePublicKey, store := mac, publicKey, s;
      isMaster, dualMasterMode := master, dual;
      peers := new PeerList(s);
      cache := new Cache();
      out := new Outlet();
      currentMaster, lastBeaconReceivedMs := NO_ROUTE, 0;
      lastRelayedEpoch, lastRelayedSeqNum := 0, 0;
      relayPending, relayPendingAt, enrollmentPending := false, 0, false;
      bootEpoch, txSeqNum, lastBeaconMillis := 0, 0, 0;
      relayPendingMsg := JoinAck(mac, mac, publicKey);
      enrollmentMac, enrollmentPubKey := mac, publicKey;
      hasMasterMac, knownMasterMac := false, BROADCAST_MAC;
      hasMasterMacSecondary, knownMasterMacSecondary := false, BROADCAST_MAC;
    }

    /** Masters as the store remembers them. */
    method LoadMasters()
      requires Valid() && store.State().image == store.flash
      requires !hasMasterMac && !hasMasterMacSecondary && knownMasterMac == knownMasterMacSecondary == BROADCAST_MAC
      modifies this`hasMasterMac, this`knownMasterMac, this`hasMasterMacSecondary, this`knownMasterMacSecondary
      ensures Valid()
      ensures hasMasterMac == (Region(store.flash, KnownMasterField) != BROADCAST_MAC)
      ensures knownMasterMac == Region(store.flash, KnownMasterField)
      ensures hasMasterMacSecondary == (dualMasterMode && Region(store.flash, SecondaryField) != BROADCAST_MAC)
      ensures knownMasterMacSecondary == if dualMasterMode then Region(store.flash, SecondaryField) else BROADCAST_MAC
    {
      hide Mirrors, Region, Anchored, Load;
      LoadedMacs(store.flash);
      var known := store.LoadKnownMasterMac();
      if known.Some? {
        hasMasterMac, knownMasterMac := true, known.value;
      }
      if dualMasterMode {
        var second := store.LoadKnownMasterMacSecondary();
        if second.Some? {
          hasMasterMacSecondary, knownMasterMacSecondary := true, second.value;
        }
      }
    }

    static lemma LoadedMacs(img: Image)
      ensures Load(img, KnownMasterField).mac == MacIn(Region(img, KnownMasterField))
      ensures Load(img, SecondaryField).mac == MacIn(Region(img, SecondaryField))
    {
    }

    /** Peers and masters loaded, the node is a freshly booted one. */
    static method PowerUp(mac: Mac, publicKey: Bytes32, master: bool, dual: bool, s: Store) returns (m: Mesh)
      requires s.Valid() && s.isInitialized && !s.isDevMode && s.State().image == s.flash
      ensures m.Valid() && m.out.sent == [] && m.out.delivered == []
      ensures m.State() == MasterLearning.Booted(m.State(), Reloaded(Load(s.flash, PeerListField).records))
      ensures m.State().own == mac && m.State().publicKey == publicKey && m.isMaster == master
              && m.dualMasterMode == dual
    {
      hide Mirrors, Reloaded, Region, Anchored;
      m := new Mesh(mac, publicKey, master, dual, s);
      m.peers.LoadPeers();
      m.LoadMasters();
    }

    // ----- Sending -----

    method SendMessage(target: Mac, msg: MeshMsg)
      modifies out`sent
      ensures out.sent == old(out.sent) + (if target == deviceMac then [] else [Send(target, msg)])
    {
      if target == deviceMac {
        return;
      }
      out.sent := out.sent + [Send(target, msg)];
    }

    method RelayDownlink(msg: MeshMsg)
      requires Valid()
      modifies out`sent
      ensures out.sent == old(out.sent) + MeshNode.RelayDownlink(State(), msg)
    {
      hide Mirrors, Anchored, FlashMaster, FlashSecondary, IsEnrolled, ToPeers;
      if msg.hopCount >= MAX_HOPS {
        return;
      }
      var relay := msg.(hopCount := msg.hopCount + 1, lastHop := deviceMac);
      ghost var list := peers.Peers();
      var i := 0;
      assert list[0..] == list;
      while i < peers.peerCount
        invariant i <= peers.peerCount
        invariant out.sent + ToPeers(deviceMac, list[i..], relay) == old(out.sent) + ToPeers(deviceMac, list, relay)
      {
        NextPeer(deviceMac, list, i, relay);
        if peers.peerMacs[i].mac != deviceMac {
          SendMessage(peers.peerMacs[i].mac, relay);
        }
        i := i + 1;
      }
    }

    static lemma NextPeer(own: Mac, list: seq<Peer>, i: nat, m: MeshMsg)
      requires i < |list|
      ensures ToPeers(own, list[i..], m)
              == (if list[i].mac == own then [] else [Send(list[i].mac, m)]) + ToPeers(own, list[i + 1..], m)
      ensures ToPeers(own, list[|list|..], m) == []
    {
      assert list[i..][1..] == list[i + 1..];
    }

    method IsPeerInRange(mac: Mac, millis: uint32) returns (inRange: bool)
      requires Valid()
      ensures var i := MeshNode.FindPeer(peers.Peers(), mac);
              inRange == (i < peers.peerCount && Elapsed(millis, peers.Peers()[i].lastSeen) < STALE_PEER_THRESHOLD_MS)
    {
      var i := peers.FindPeer(mac);
      inRange := i < peers.peerCount && (millis - peers.peerMacs[i].lastSeen) % TWO_32 < STALE_PEER_THRESHOLD_MS;
    }

    /** The index of the next hop, or the number of peers. */
    method FindNextHopToMaster(millis: uint32) returns (i: nat)
      requires Valid()
      ensures i <= peers.peerCount && (i < peers.peerCount <==> HasNextHop(State(), millis))
      ensures i < peers.peerCount ==> peers.Peers()[i].mac == currentMaster.nextHop != deviceMac
    {
      hide Mirrors, Anchored, FlashMaster, FlashSecondary, IsEnrolled, MeshNode.FindPeer, HasNextHop;
      NextHopIff(State(), millis);
      if currentMaster.distance == 0xFF {
        return peers.peerCount;
      }
      ghost var n := State();
      i := 0;
      while i < peers.peerCount
        invariant i <= peers.peerCount
        invariant forall j | 0 <= j < i && n.peers[j].mac == currentMaster.nextHop :: !HasNextHop(n, millis)
      {
        var mac := peers.peerMacs[i].mac;
        var inRange := IsPeerInRange(mac, millis);
        assert n.peers[i].mac == mac;
        if mac == currentMaster.nextHop && inRange && mac != deviceMac {
          return;
        }
        i := i + 1;
      }
      if HasNextHop(n, millis) {
        assert n.peers[MeshNode.FindPeer(n.peers, n.current.nextHop)].mac == currentMaster.nextHop;
      }
    }

    static lemma NextHopIff(n: Node, now: uint32)
      ensures var i := MeshNode.FindPeer(n.peers, n.current.nextHop);
              HasNextHop(n, now) <==>
                && n.current.distance != 0xFF && n.current.nextHop != n.own
                && i < |n.peers| && Elapsed(now, n.peers[i].lastSeen) < STALE_PEER_THRESHOLD_MS
    {
    }

    /** A message of the node's own, under the next sequence number. */
    method BuildMessage(dataType: int32, data: Option<Bytes64>, msgType: byte) returns (msg: MeshMsg)
      requires Valid()
      modifies this`txSeqNum
      ensures Valid() && State() == old(State()) && txSeqNum == (old(txSeqNum) + 1) % 0x1_0000
      ensures msg == Built(State(), bootEpoch, txSeqNum, dataType, data, msgType)
    {
      hide Mirrors, Anchored, FlashMaster, FlashSecondary, IsEnrolled;
      txSeqNum := (txSeqNum + 1) % 0x1_0000;
      var target := if msgType == TYPE_MASTER_BEACON then BROADCAST_MAC else currentMaster.mac;
      msg := MeshMsg(PROTO_VERSION, msgType, dataType, deviceMac, target, deviceMac,
                     if data.Some? then data.value else Fill(64, 0), 0, bootEpoch, txSeqNum, Fill(32, 0));
    }

    /** The message given, or else one of the node's own, goes one hop along the route, or nowhere. */
    method TransmitCore(dataType: int32, data: Option<Bytes64>, msgType: byte, msgOverride: Option<MeshMsg>,
                        millis: uint32)
      requires Valid()
      modifies this`txSeqNum, out`sent
      ensures Valid() && State() == old(State())
      ensures txSeqNum == if msgOverride.Some? then old(txSeqNum) else (old(txSeqNum) + 1) % 0x1_0000
      ensures var msg := if msgOverride.Some? then msgOverride.value
                         else Built(State(), bootEpoch, txSeqNum, dataType, data, msgType);
              out.sent == old(out.sent) + Transmit(State(), msgType, msg, millis)
    {
      hide Mirrors, Anchored, FlashMaster, FlashSecondary, IsEnrolled, HasNextHop, Built;
      var msg;
      if msgOverride.Some? {
        msg := msgOverride.value;
      } else {
        msg := BuildMessage(dataType, data, msgType);
      }
      if msgType == TYPE_ADAPTER_DATA {
        msg := msg.(target := currentMaster.mac);
      }
      SendToNextHop(msg, millis);
    }

    method SendToNextHop(msg: MeshMsg, millis: uint32)
      requires Valid()
      modifies out`sent
      ensures out.sent == old(out.sent) + if HasNextHop(State(), millis) then [Send(currentMaster.nextHop, msg)] else []
    {
      hide Mirrors, Anchored, FlashMaster, FlashSecondary, IsEnrolled, HasNextHop;
      var i := FindNextHopToMaster(millis);
      if i < peers.peerCount && peers.peerMacs[i].mac != deviceMac {
        assert peers.peerMacs[i] == peers.Peers()[i];
        SendMessage(peers.peerMacs[i].mac, msg);
      }
    }

    /** Adapter data of the node's own: along the route, or from a master to all its peers. */
    method TransmitData(dataType: int32, data: Option<Bytes64>, millis: uint32)
      requires Valid()
      modifies this`txSeqNum, out`sent
      ensures Valid() && State() == old(State()) && txSeqNum == (old(txSeqNum) + 1) % 0x1_0000
      ensures var msg := Built(State(), bootEpoch, txSeqNum, dataType, data, TYPE_ADAPTER_DATA);
              out.sent == old(out.sent)
                          + if isMaster then ToPeers(deviceMac, State().peers, msg.(target := BROADCAST_MAC))
                            else Transmit(State(), TYPE_ADAPTER_DATA, msg, millis)
    {
      hide Mirrors, Anchored, FlashMaster, FlashSecondary, IsEnrolled, HasNextHop, Built, ToPeers;
      if isMaster {
        var msg := BuildMessage(dataType, data, TYPE_ADAPTER_DATA);
        BroadcastToAllPeers(msg.(target := BROADCAST_MAC));
      } else {
        TransmitCore(dataType, data, TYPE_ADAPTER_DATA, None, millis);
      }
    }

    method BroadcastToAllPeers(msg: MeshMsg)
      requires Valid()
      modifies out`sent
      ensures out.sent == old(out.sent) + ToPeers(deviceMac, peers.Peers(), msg)
    {
      hide Anchored, Region, ToPeers;
      ghost var list := peers.Peers();
      var i := 0;
      assert list[0..] == list;
      NobodyLeft(deviceMac, list, msg);
      while i < peers.peerCount
        invariant i <= peers.peerCount
        invariant out.sent + ToPeers(deviceMac, list[i..], msg) == old(out.sent) + ToPeers(deviceMac, list, msg)
      {
        NextPeer(deviceMac, list, i, msg);
        if peers.peerMacs[i].mac != deviceMac {
          SendMessage(peers.peerMacs[i].mac, msg);
        }
        i := i + 1;
      }
    }

    static lemma NobodyLeft(own: Mac, list: seq<Peer>, m: MeshMsg)
      ensures ToPeers(own, list[|list|..], m) == []
    {
    }

    /** The beacon of a master: one broadcast every three seconds, new, from this node, with no hop yet. */
    method BroadcastMasterBeacon(millis: uint32)
      requires Valid()
      modifies this`txSeqNum, this`lastBeaconMillis, out`sent
      ensures Valid() && State() == old(State())
      ensures var due := (millis - old(lastBeaconMillis)) % 0x1_0000_0000 >= 3000;
              var msg := Built(State(), bootEpoch, txSeqNum, 0, None, TYPE_MASTER_BEACON);
              && out.sent == old(out.sent) + (if due then [Send(BROADCAST_MAC, msg.(data := msg.data[0 := 1]))] else [])
              && lastBeaconMillis == (if due then millis else old(lastBeaconMillis))
              && txSeqNum == if due then (old(txSeqNum) + 1) % 0x1_0000 else old(txSeqNum)
    {
      hide Mirrors, Anchored, FlashMaster, FlashSecondary, IsEnrolled, Built;
      if (millis - lastBeaconMillis) % TWO_32 < MASTER_BEACON_INTERVAL_MS {
        return;
      }
      SetBeaconTime(millis);
      var beacon := BuildMessage(0, None, TYPE_MASTER_BEACON);
      beacon := beacon.(data := beacon.data[0 := 1]);
      out.sent := out.sent + [Send(BROADCAST_MAC, beacon)];
    }

    method SetBeaconTime(millis: uint32)
      requires Valid()
      modifies this`lastBeaconMillis
      ensures Valid() && State() == old(State()) && lastBeaconMillis == millis
    {
      hide Mirrors, Anchored, FlashMaster, FlashSecondary, IsEnrolled;
      lastBeaconMillis := millis;
    }

    // ----- Beacons -----

    /** What committing a master address or the enrolled flag does to flash. */
    static lemma AnchorMoves(st: StoreState, s: Setting, g: Field)
      requires st.ready && !st.dev && Savable(s) && Immediate(s) && Anchored(st.image, st.flash)
      requires g in {KnownMasterField, SecondaryField, EnrolledField}
      ensures var after := EepromStore.Apply(st, Save(s));
              && after.ready && !after.dev && after.image == after.flash && Anchored(after.image, after.flash)
              && Region(after.flash, g) == if g == FieldOf(s) then Encode(s) else Region(st.flash, g)
    {
      hide Put, Region, Encode;
      PutRegion(st.image, FieldOf(s), Encode(s), g);
    }

    /** Stores the primary master, in RAM and flash. */
    method SetMaster(mac: Mac)
      requires Valid()
      modifies this, store, store.buffer
      ensures Valid() && State() == old(State()).(knownMaster := mac, hasMaster := true, flashMaster := mac)
    {
      hide Mirrors, Anchored, FlashMaster, FlashSecondary, IsEnrolled;
      CommitMaster(mac);
      knownMasterMac := mac;
      hasMasterMac := true;
    }

    method CommitMaster(mac: Mac)
      requires Valid()
      modifies store, store.buffer
      ensures Valid() && FlashMaster() == mac && FlashSecondary() == old(FlashSecondary())
              && IsEnrolled() == old(IsEnrolled())
    {
      hide Mirrors, Region, Anchored, EepromStore.Apply, Load;
      ghost var st := store.State();
      AnchorMoves(st, KnownMaster(Some(mac)), KnownMasterField);
      AnchorMoves(st, KnownMaster(Some(mac)), SecondaryField);
      AnchorMoves(st, KnownMaster(Some(mac)), EnrolledField);
      ghost var before := store.flash;
      store.SaveKnownMasterMac(mac);
      SameEnrolled(before, store.flash);
    }

    static lemma SameEnrolled(a: Image, b: Image)
      requires Region(a, EnrolledField) == Region(b, EnrolledField)
      ensures Load(a, EnrolledField) == Load(b, EnrolledField)
    {
    }

    /** The next boot epoch, in flash before the first message carries it. */
    method StartEpoch()
      requires Valid()
      modifies this`bootEpoch, this`txSeqNum, store, store.buffer
      ensures Valid() && State() == old(State()) && txSeqNum == 0
      ensures bootEpoch == Load(old(store.State()).image, BootEpochField).epoch + 1
      ensures store.State() == EepromStore.Apply(old(store.State()), Save(BootEpoch(bootEpoch)))
    {
      hide Mirrors, Anchored, FlashMaster, FlashSecondary, IsEnrolled, Region, EepromStore.Apply, Load;
      NextEpoch(store.State().image);
      var last := store.LoadBootEpoch();
      CommitEpoch(last + 1);
      bootEpoch := last + 1;
      txSeqNum := 0;
    }

    static lemma NextEpoch(img: Image)
      ensures Load(img, BootEpochField).epoch + 1 < TWO_32
    {
    }

    method CommitEpoch(epoch: uint32)
      requires Valid()
      modifies store, store.buffer
      ensures Valid() && store.State() == EepromStore.Apply(old(store.State()), Save(BootEpoch(epoch)))
      ensures FlashMaster() == old(FlashMaster()) && FlashSecondary() == old(FlashSecondary())
      ensures IsEnrolled() == old(IsEnrolled())
    {
      hide Mirrors, Region, Anchored, EepromStore.Apply, Load;
      ghost var st := store.State();
      AnchorMoves(st, BootEpoch(epoch), KnownMasterField);
      AnchorMoves(st, BootEpoch(epoch), SecondaryField);
      AnchorMoves(st, BootEpoch(epoch), EnrolledField);
      ghost var before := store.flash;
      store.SaveBootEpoch(epoch);
      SameEnrolled(before, store.flash);
    }

    method SetSecondary(mac: Mac)
      requires Valid()
      modifies this, store, store.buffer
      ensures Valid() && State() == old(State()).(knownSecondary := mac, hasSecondary := true, flashSecondary := mac)
    {
      hide Mirrors, Anchored, FlashMaster, FlashSecondary, IsEnrolled;
      CommitSecondary(mac);
      knownMasterMacSecondary := mac;
      hasMasterMacSecondary := true;
    }

    method CommitSecondary(mac: Mac)
      requires Valid()
      modifies store, store.buffer
      ensures Valid() && FlashSecondary() == mac && FlashMaster() == old(FlashMaster())
              && IsEnrolled() == old(IsEnrolled())
    {
      hide Mirrors, Region, Anchored, EepromStore.Apply, Load;
      ghost var st := store.State();
      AnchorMoves(st, Secondary(Some(mac)), KnownMasterField);
      AnchorMoves(st, Secondary(Some(mac)), SecondaryField);
      AnchorMoves(st, Secondary(Some(mac)), EnrolledField);
      ghost var before := store.flash;
      store.SaveKnownMasterMacSecondary(mac);
      SameEnrolled(before, store.flash);
    }

    /** Trust on first use; false when a stranger is refused. */
    method CheckMaster(origin: Mac, millis: uint32) returns (ok: bool)
      requires Valid()
      modifies this, store, store.buffer
      ensures Valid()
      ensures forall m: MeshMsg | m.origin == origin && m.hopCount < MAX_HOPS :: ok == Accepts(old(State()), m, millis)
      ensures State() == if ok then LearnMaster(old(State()), origin) else old(State())
    {
      hide Mirrors, Anchored, FlashMaster, FlashSecondary, IsEnrolled;
      var fromPrimary := hasMasterMac && origin == knownMasterMac;
      var fromSecondary := dualMasterMode && hasMasterMacSecondary && origin == knownMasterMacSecondary;
      if !hasMasterMac {
        SetMaster(origin);
      } else if !fromPrimary && !fromSecondary {
        if dualMasterMode && !hasMasterMacSecondary {
          SetSecondary(origin);
        } else if (millis - lastBeaconReceivedMs) % TWO_32 < STALE_MASTER_THRESHOLD_MS {
          return false;
        } else {
          SetMaster(origin);
        }
      }
      return true;
    }

    method ProcessMasterBeacon(msg: MeshMsg, millis: uint32, jitterMs: nat)
      requires Valid()
      modifies this, store, store.buffer
      ensures Valid() && State() == OnBeacon(old(State()), msg, millis, jitterMs)
    {
      hide Mirrors, Anchored, FlashMaster, FlashSecondary, IsEnrolled, LearnMaster, LearnRoute, ScheduleRelay, Accepts;
      AcceptsHop(State(), msg, millis);
      if msg.hopCount >= MAX_HOPS {
        return;
      }
      var ok := CheckMaster(msg.origin, millis);
      if !ok {
        return;
      }
      LearnMasterKeeps(old(State()), msg.origin);
      lastBeaconReceivedMs := millis;
      RememberRoute(msg);
      KeepForRelay(msg, millis, jitterMs);
    }

    method RememberRoute(msg: MeshMsg)
      requires Valid() && msg.hopCount < MAX_HOPS
      modifies this
      ensures Valid() && State() == old(State()).(current := LearnRoute(old(currentMaster), msg))
    {
      hide Mirrors, Anchored, FlashMaster, FlashSecondary, IsEnrolled;
      var newDistance := msg.hopCount + 1;
      if currentMaster.distance == 0xFF || currentMaster.mac != msg.origin || newDistance < currentMaster.distance {
        currentMaster := Route(msg.origin, newDistance, msg.lastHop);
      }
    }

    method KeepForRelay(msg: MeshMsg, millis: uint32, jitterMs: nat)
      requires Valid() && msg.hopCount < MAX_HOPS
      modifies this
      ensures Valid() && State() == ScheduleRelay(old(State()), msg, millis, jitterMs)
    {
      hide Mirrors, Anchored, FlashMaster, FlashSecondary, IsEnrolled, RelayTime;
      if isMaster {
        return;
      }
      var isNewer := msg.epochNum > lastRelayedEpoch
                     || (msg.epochNum == lastRelayedEpoch && msg.seqNum > lastRelayedSeqNum);
      if !isNewer {
        return;
      }
      MarkRelayed(msg.epochNum, msg.seqNum);
      SetPending(msg.(hopCount := msg.hopCount + 1, lastHop := deviceMac), RelayTime(millis, jitterMs));
    }

    method MarkRelayed(epoch: uint32, seqNum: uint16)
      requires Valid()
      modifies this
      ensures Valid() && State() == old(State()).(relayedEpoch := epoch, relayedSeq := seqNum)
    {
      hide Mirrors, Anchored, FlashMaster, FlashSecondary, IsEnrolled;
      lastRelayedEpoch := epoch;
      lastRelayedSeqNum := seqNum;
    }

    method SetPending(relay: MeshMsg, due: uint32)
      requires Valid()
      modifies this
      ensures Valid() && State() == old(State()).(relay := Some(relay), relayAt := due)
    {
      hide Mirrors, Anchored, FlashMaster, FlashSecondary, IsEnrolled;
      relayPendingMsg := relay;
      relayPendingAt := due;
      relayPending := true;
    }

    static lemma AcceptsHop(n: Node, m: MeshMsg, now: uint32)
      ensures m.hopCount >= MAX_HOPS ==> !Accepts(n, m, now)
    {
    }

    /** The route goes stale nine seconds after the last accepted beacon. */
    method CheckMasterTimeout(millis: uint32)
      requires Valid()
      modifies this
      ensures Valid() && State() == OnTimeout(old(State()), millis)
    {
      hide Mirrors, Anchored, FlashMaster, FlashSecondary, IsEnrolled;
      if isMaster || currentMaster.distance == 0xFF {
        return;
      }
      if (millis - lastBeaconReceivedMs) % TWO_32 > STALE_MASTER_THRESHOLD_MS {
        currentMaster := Route(ZERO_MAC, 0xFF, ZERO_MAC);
        lastBeaconReceivedMs := 0;
      }
    }

    // ----- Data, enrollment, acknowledgements -----

    method ProcessAdapterData(msg: MeshMsg, millis: uint32)
      requires Valid()
      modifies this`txSeqNum, out
      ensures Valid() && State() == old(State())
      ensures var e := OnAdapterData(State(), msg, millis);
              && e.node == State() && out.sent == old(out.sent) + e.sends
              && out.delivered == old(out.delivered) + e.delivered
    {
      hide Mirrors, Anchored, FlashMaster, FlashSecondary, IsEnrolled, MeshNode.RelayDownlink, Transmit;
      var addressedToSelf := msg.target == deviceMac;
      var isBroadcastTarget := msg.target == BROADCAST_MAC;
      var addressedToMaster := hasMasterMac && msg.target == currentMaster.mac;
      if !isMaster && !addressedToSelf && !isBroadcastTarget {
        if addressedToMaster {
          if msg.hopCount >= MAX_HOPS {
            return;
          }
          var relay := msg.(hopCount := msg.hopCount + 1, lastHop := deviceMac);
          TransmitCore(relay.dataType, Some(relay.data), TYPE_ADAPTER_DATA, Some(relay), millis);
          return;
        }
        RelayDownlink(msg);
        return;
      }
      var isConfigOpcode := msg.dataType == SERIAL_ADAPTER && msg.data[0] == OP_CONFIG_SET;
      if isConfigOpcode && hasMasterMac && msg.origin != knownMasterMac {
        return;
      }
      out.delivered := out.delivered + [msg];
      if isBroadcastTarget && !isMaster {
        RelayDownlink(msg);
      }
    }

    method ProcessEnrollmentRequest(msg: MeshMsg)
      requires Valid()
      modifies this
      ensures Valid() && State() == OnEnrollment(old(State()), msg)
    {
      hide Mirrors, Anchored, FlashMaster, FlashSecondary, IsEnrolled;
      if !isMaster {
        return;
      }
      enrollmentMac := msg.origin;
      enrollmentPubKey := msg.key;
      enrollmentPending := true;
    }

    method SetEnrolled()
      requires Valid()
      modifies store, store.buffer
      ensures Valid() && State() == old(State()).(enrolled := true)
    {
      hide Mirrors, Region, Anchored, EepromStore.Apply, Load;
      ghost var st := store.State();
      AnchorMoves(st, Enrolled(true), KnownMasterField);
      AnchorMoves(st, Enrolled(true), SecondaryField);
      AnchorMoves(st, Enrolled(true), EnrolledField);
      store.SaveEnrolledFlag(true);
      EnrolledLoads(store.flash);
    }

    static lemma EnrolledLoads(img: Image)
      requires Region(img, EnrolledField) == Encode(Enrolled(true))
      ensures Load(img, EnrolledField).enrolled
    {
    }

    method ProcessJoinAck(msg: MeshMsg)
      requires Valid()
      modifies this, store, store.buffer, out
      ensures Valid()
      ensures var e := OnJoinAck(old(State()), msg);
              && State() == e.node && out.sent == old(out.sent) + e.sends && out.delivered == old(out.delivered)
    {
      hide Mirrors, Anchored, FlashMaster, FlashSecondary, IsEnrolled, MeshNode.RelayDownlink;
      if msg.target != deviceMac {
        RelayDownlink(msg);
        return;
      }
      if msg.data[..4] != devicePublicKey[..4] {
        return;
      }
      SetEnrolled();
      if !hasMasterMac {
        SetMaster(msg.origin);
      }
    }

    // ----- Dispatch -----

    /** One entry of the receive queue: version check, replay check, and the handler of its type. */
    method ProcessEntry(src: Mac, msg: MeshMsg, millis: uint32, jitterMs: nat)
      requires Valid()
      modifies this, peers.peerMacs, store, store.buffer, cache, cache.replayCache, out
      ensures Valid()
      ensures var e := OnFrame(old(State()), src, msg, millis, jitterMs);
              && State() == e.node && out.sent == old(out.sent) + e.sends
              && out.delivered == old(out.delivered) + e.delivered
    {
      hide Mirrors, Anchored, FlashMaster, FlashSecondary, IsEnrolled, Dispatch, HeardFrom, Window;
      ghost var n := State();
      if msg.protoVersion != 0 && msg.protoVersion != PROTO_VERSION {
        return;
      }
      if msg.protoVersion == PROTO_VERSION && msg.epochNum > 0 {
        var replay := cache.IsReplay(msg);
        if replay {
          return;
        }
      }
      UpdatePeerLastSeen(src, millis);
      DispatchMessage(msg, millis, jitterMs);
    }

    /** The drain loop on the receive queue: the frames waiting in it are processed in the order of arrival, each at
        its own reading of the clock and with its own jitter. */
    method DrainRecvQueue(queue: RecvQueue, clock: nat -> uint32, jitter: nat -> nat) returns (entries: seq<Entry>)
      requires Valid() && queue.Valid()
      modifies queue, this, peers.peerMacs, store, store.buffer, cache, cache.replayCache, out
      ensures Valid() && queue.Valid()
      ensures old(queue.ring.processed) + entries == old(queue.ring.accepted) == queue.ring.processed
      ensures var frames := Arrivals(entries, clock, jitter);
              && State() == After(old(State()), frames)
              && out.sent == old(out.sent) + Answers(old(State()), frames)
              && out.delivered == old(out.delivered) + Deliveries(old(State()), frames)
    {
      hide RecvRing.Inv, Mirrors, Anchored, FlashMaster, FlashSecondary, IsEnrolled, After, Answers, Deliveries;
      entries := queue.Drain();
      ProcessAll(Arrivals(entries, clock, jitter));
    }

    method ProcessAll(frames: seq<Arrival>)
      requires Valid()
      modifies this, peers.peerMacs, store, store.buffer, cache, cache.replayCache, out
      ensures Valid() && State() == After(old(State()), frames)
      ensures out.sent == old(out.sent) + Answers(old(State()), frames)
      ensures out.delivered == old(out.delivered) + Deliveries(old(State()), frames)
    {
      hide Mirrors, Anchored, FlashMaster, FlashSecondary, IsEnrolled, OnFrame, After, Answers, Deliveries;
      ghost var n, sent, delivered := State(), out.sent, out.delivered;
      NothingYet(n, frames);
      var i := 0;
      while i < |frames|
        invariant Valid() && i <= |frames| && State() == After(n, frames[..i])
        invariant out.sent == sent + Answers(n, frames[..i]) && out.delivered == delivered + Deliveries(n, frames[..i])
      {
        OneMore(n, frames, i);
        ProcessEntry(frames[i].src, frames[i].msg, frames[i].now, frames[i].jitter);
        i := i + 1;
      }
      assert frames[..i] == frames;
    }

    static lemma NothingYet(n: Node, frames: seq<Arrival>)
      ensures After(n, frames[..0]) == n && Answers(n, frames[..0]) == [] && Deliveries(n, frames[..0]) == []
    {
    }

    static lemma OneMore(n: Node, frames: seq<Arrival>, i: nat)
      requires i < |frames|
      ensures var f := frames[i];
              var e := OnFrame(After(n, frames[..i]), f.src, f.msg, f.now, f.jitter);
              && After(n, frames[..i + 1]) == e.node
              && Answers(n, frames[..i + 1]) == Answers(n, frames[..i]) + e.sends
              && Deliveries(n, frames[..i + 1]) == Deliveries(n, frames[..i]) + e.delivered
    {
      hide OnFrame;
      assert frames[..i + 1][..i] == frames[..i];
    }

    static function Arrivals(entries: seq<Entry>, clock: nat -> uint32, jitter: nat -> nat): (a: seq<Arrival>)
      ensures |a| == |entries|
    {
      seq(|entries|, i requires 0 <= i < |entries| => Arrival(entries[i].src, entries[i].msg, clock(i), jitter(i)))
    }

    method UpdatePeerLastSeen(src: Mac, millis: uint32)
      requires Valid()
      modifies peers.peerMacs
      ensures Valid() && State() == HeardFrom(old(State()), src, millis)
    {
      hide Mirrors, Anchored, FlashMaster, FlashSecondary, IsEnrolled, MeshNode.FindPeer;
      peers.UpdateLastSeen(deviceMac, src, millis);
    }

    method DispatchMessage(msg: MeshMsg, millis: uint32, jitterMs: nat)
      requires Valid()
      modifies this, store, store.buffer, out
      ensures Valid()
      ensures var e := Dispatch(old(State()), msg, millis, jitterMs);
              && State() == e.node && out.sent == old(out.sent) + e.sends
              && out.delivered == old(out.delivered) + e.delivered
    {
      hide Mirrors, Anchored, FlashMaster, FlashSecondary, IsEnrolled, OnBeacon, OnJoinAck, OnAdapterData, OnEnrollment;
      if msg.messageType == TYPE_ENROLLMENT {
        ProcessEnrollmentRequest(msg);
      } else if msg.messageType == TYPE_JOIN_ACK {
        AckDelivers(State(), msg);
        ProcessJoinAck(msg);
      } else if msg.messageType == TYPE_MASTER_BEACON {
        ProcessMasterBeacon(msg, millis, jitterMs);
      } else if msg.messageType == TYPE_ADAPTER_DATA {
        ProcessAdapterData(msg, millis);
      }
    }

    static lemma AckDelivers(n: Node, m: MeshMsg)
      ensures OnJoinAck(n, m).delivered == []
    {
      hide MeshNode.RelayDownlink;
    }

    /** The deferred relay of loop(): due beacons go out once. */
    method RelayPendingBeacon(millis: uint32)
      requires Valid()
      modifies this, out
      ensures Valid()
      ensures var e := OnTick(old(State()), millis);
              && State() == e.node && out.sent == old(out.sent) + e.sends && out.delivered == old(out.delivered)
    {
      hide Mirrors, Anchored, FlashMaster, FlashSecondary, IsEnrolled, HasNextHop;
      if relayPending && millis >= relayPendingAt {
        ghost var n := State();
        relayPending := false;
        TransmitCore(relayPendingMsg.dataType, Some(relayPendingMsg.data), TYPE_MASTER_BEACON,
                     Some(relayPendingMsg), millis);
        SameNextHop(n, State(), millis);
      }
    }

    static lemma SameNextHop(a: Node, b: Node, now: uint32)
      requires b == a.(relay := None)
      ensures HasNextHop(a, now) == HasNextHop(b, now)
    {
    }
  }
}
