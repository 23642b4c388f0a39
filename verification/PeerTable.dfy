/**
 The peer list: at most ten entries with distinct addresses, which behaves as a map from addresses to keys
 and survives a reboot through its 38-byte records in the settings image.
 */
module PeerTable {
  import opened Basics
  import opened MeshTypes
  import opened MeshNode
  import opened EepromImage
  import opened EepromMigration
  import opened EepromStore

  const NO_KEY: Bytes32 := Fill(32, 0)

  datatype Edit =
    | Add(mac: Mac)
    | AddLearned(own: Mac, mac: Mac, now: uint32)
    | Enroll(mac: Mac, key: Bytes32)
    | Remove(mac: Mac)
    | Heard(own: Mac, mac: Mac, now: uint32)

  function Known(peers: seq<Peer>, mac: Mac): bool { FindPeer(peers, mac) < |peers| }

  function Appended(peers: seq<Peer>, p: Peer): seq<Peer> {
    if |peers| >= MAX_PEERS then peers else peers + [p]
  }

  /** The last entry takes the place of the one removed. */
  function Removed(peers: seq<Peer>, mac: Mac): seq<Peer> {
    var i := FindPeer(peers, mac);
    if i == |peers| then peers else peers[i := peers[|peers| - 1]][..|peers| - 1]
  }

  function Edited(peers: seq<Peer>, op: Edit): seq<Peer> {
    match op
    case Add(mac) => if Known(peers, mac) then peers else Appended(peers, Peer(mac, NO_KEY, 0))
    case AddLearned(own, mac, now) =>
      if Known(peers, mac) || mac == own then peers else Appended(peers, Peer(mac, NO_KEY, now))
    case Enroll(mac, key) =>
      var i := FindPeer(peers, mac);
      if i < |peers| then peers[i := peers[i].(key := key)] else Appended(peers, Peer(mac, key, 0))
    case Remove(mac) => Removed(peers, mac)
    case Heard(own, mac, now) =>
      var i := FindPeer(peers, mac);
      if mac == own || i == |peers| then peers else peers[i := peers[i].(lastSeen := now)]
  }

  // ---------- A map of at most ten entries ----------

  ghost predicate Distinct(peers: seq<Peer>) {
    forall i, j | 0 <= i < j < |peers| :: peers[i].mac != peers[j].mac
  }

  ghost predicate Table(peers: seq<Peer>) { |peers| <= 10 && Distinct(peers) }

  function Lookup(peers: seq<Peer>, mac: Mac): Option<Peer> {
    var i := FindPeer(peers, mac);
    if i < |peers| then Some(peers[i]) else None
  }

  lemma FoundAt(peers: seq<Peer>, mac: Mac, i: nat)
    requires Distinct(peers) && i < |peers| && peers[i].mac == mac
    ensures FindPeer(peers, mac) == i
  {
  }

  lemma NotFound(peers: seq<Peer>, mac: Mac)
    requires forall i | 0 <= i < |peers| :: peers[i].mac != mac
    ensures FindPeer(peers, mac) == |peers|
  {
  }

  lemma StepKeepsTable(peers: seq<Peer>, op: Edit)
    requires Table(peers)
    ensures Table(Edited(peers, op))
  {
  }

  /** From a list without duplicates, no sequence of operations makes one, or an eleventh entry. */
  lemma {:induction false} RunKeepsTable(states: seq<seq<Peer>>, ops: seq<Edit>)
    requires |states| == |ops| + 1 && Table(states[0])
    requires forall i | 0 <= i < |ops| :: states[i + 1] == Edited(states[i], ops[i])
    ensures Table(states[|ops|])
    decreases |ops|
  {
    hide Edited, Table;
    if ops != [] {
      var n := |ops| - 1;
      RunKeepsTable(states[..|states| - 1], ops[..n]);
      StepKeepsTable(states[n], ops[n]);
    }
  }

  /** Removal takes away exactly the named peer. */
  lemma RemovedExactly(peers: seq<Peer>, mac: Mac, other: Mac)
    requires Distinct(peers)
    ensures Lookup(Removed(peers, mac), other) == if other == mac then None else Lookup(peers, other)
    ensures |Removed(peers, mac)| == |peers| - (if Lookup(peers, mac).Some? then 1 else 0)
  {
    hide FindPeer;
    var i, last := FindPeer(peers, mac), |peers| - 1;
    if i < |peers| {
      var rest := Removed(peers, mac);
      var k := FindPeer(peers, other);
      if other == mac || k == |peers| {
        NotFound(rest, other);
      } else {
        FoundAt(rest, other, if k == last then i else k);
      }
    }
  }

  /** Enrolling sets the key of the named peer, if it is known or there is room, and of nobody else. */
  lemma EnrolledExactly(peers: seq<Peer>, mac: Mac, key: Bytes32, other: Mac)
    requires Table(peers)
    ensures var after := Lookup(Edited(peers, Enroll(mac, key)), other);
            if other != mac then after == Lookup(peers, other)
            else match Lookup(peers, mac)
                 case Some(p) => after == Some(p.(key := key))
                 case None => after == if |peers| < 10 then Some(Peer(mac, key, 0)) else None
  {
    hide FindPeer;
    SetOrAppended(peers, mac, other, Peer(mac, key, 0));
    var i := FindPeer(peers, mac);
    if i < |peers| {
      SetAt(peers, i, peers[i].(key := key), other);
    }
  }

  lemma SetOrAppended(peers: seq<Peer>, mac: Mac, other: Mac, p: Peer)
    requires Table(peers) && p.mac == mac
    ensures !Known(peers, mac) ==>
              Lookup(Appended(peers, p), other)
              == if other == mac && |peers| < MAX_PEERS then Some(p) else Lookup(peers, other)
  {
    hide FindPeer;
    if !Known(peers, mac) && |peers| < MAX_PEERS {
      var longer := peers + [p];
      var k := FindPeer(peers, other);
      if other == mac {
        FoundAt(longer, mac, |peers|);
      } else if k < |peers| {
        FoundAt(longer, other, k);
      } else {
        NotFound(longer, other);
      }
    }
  }

  lemma SetAt(peers: seq<Peer>, i: nat, p: Peer, other: Mac)
    requires Distinct(peers) && i < |peers| && p.mac == peers[i].mac
    ensures Lookup(peers[i := p], other) == if other == p.mac then Some(p) else Lookup(peers, other)
  {
    hide FindPeer;
    var k := FindPeer(peers, other);
    if other == p.mac {
      FoundAt(peers[i := p], other, i);
    } else if k < |peers| {
      FoundAt(peers[i := p], other, k);
    } else {
      NotFound(peers[i := p], other);
    }
  }

  /** Adding makes an unknown peer known, without a key, if there is room; a known one keeps its key. */
  lemma AddedExactly(peers: seq<Peer>, mac: Mac, other: Mac)
    requires Table(peers)
    ensures Lookup(Edited(peers, Add(mac)), other)
            == if other == mac && Lookup(peers, mac) == None && |peers| < 10 then Some(Peer(mac, Fill(32, 0), 0))
               else Lookup(peers, other)
  {
    hide FindPeer;
    SetOrAppended(peers, mac, other, Peer(mac, NO_KEY, 0));
  }

  /** Adding a sender that was heard keeps the time as well, and never adds the node itself. */
  lemma LearnedExactly(peers: seq<Peer>, own: Mac, mac: Mac, now: uint32, other: Mac)
    requires Table(peers)
    ensures Lookup(Edited(peers, AddLearned(own, mac, now)), other)
            == if other == mac && mac != own && Lookup(peers, mac) == None && |peers| < 10
               then Some(Peer(mac, Fill(32, 0), now))
               else Lookup(peers, other)
  {
    hide FindPeer;
    SetOrAppended(peers, mac, other, Peer(mac, NO_KEY, now));
  }

  /** Hearing from a peer sets its time and nothing else, and never adds one. */
  lemma HeardExactly(peers: seq<Peer>, own: Mac, mac: Mac, now: uint32, other: Mac)
    requires Table(peers)
    ensures var after, before := Lookup(Edited(peers, Heard(own, mac, now)), other), Lookup(peers, other);
            after == if other == mac && mac != own && before.Some? then Some(before.value.(lastSeen := now)) else before
    ensures |Edited(peers, Heard(own, mac, now))| == |peers|
  {
    hide FindPeer;
    var i := FindPeer(peers, mac);
    if i < |peers| {
      SetAt(peers, i, peers[i].(lastSeen := now), other);
    }
  }

  // ---------- Records ----------

  function Record(p: Peer): (b: seq<byte>)
    ensures |b| == PEER_RECORD_SIZE
  {
    p.mac + p.key
  }

  function Flat(peers: seq<Peer>): (b: seq<byte>)
    ensures |b| == PEER_RECORD_SIZE * |peers|
  {
    if peers == [] then [] else Record(peers[0]) + Flat(peers[1..])
  }

  /** The peer region of the image: a record per peer, the rest erased. */
  function RecordsOf(peers: seq<Peer>): PeerRecords
    requires |peers| <= MAX_PEERS
  {
    Flat(peers) + Blank(PEER_LIST_SIZE - PEER_RECORD_SIZE * |peers|)
  }

  function PeerOf(b: seq<byte>): Peer
    requires |b| >= PEER_RECORD_SIZE
  {
    Peer(b[..6], b[6..38], 0)
  }

  /** Reading records back: those with an erased address are empty slots. */
  function PeersIn(b: seq<byte>): seq<Peer>
    requires |b| % PEER_RECORD_SIZE == 0
    decreases |b|
  {
    if b == [] then []
    else (if b[..6] == BROADCAST_MAC then [] else [PeerOf(b)]) + PeersIn(b[38..])
  }

  const DEFAULT_PEERS: seq<Peer> :=
    [Peer([0xAA, 0xBB, 0xCC, 0xDD, 0xEE, 1], NO_KEY, 0), Peer([0xAA, 0xBB, 0xCC, 0xDD, 0xEE, 2], NO_KEY, 0)]

  /** What a boot makes of the records: the peers in them, or the defaults when there are none. */
  function Reloaded(b: PeerRecords): seq<Peer> {
    var peers := PeersIn(b);
    if peers == [] then DEFAULT_PEERS else peers
  }

  /** A reboot forgets when peers were last seen. */
  function Forgotten(peers: seq<Peer>): (out: seq<Peer>)
    ensures |out| == |peers| && forall i | 0 <= i < |peers| :: out[i] == peers[i].(lastSeen := 0)
  {
    seq(|peers|, i requires 0 <= i < |peers| => peers[i].(lastSeen := 0))
  }

  function Addressed(peers: seq<Peer>): seq<Peer> {
    if peers == [] then []
    else (if peers[0].mac == BROADCAST_MAC then [] else [peers[0].(lastSeen := 0)]) + Addressed(peers[1..])
  }

  lemma {:induction false} BlankHasNoPeers(n: nat)
    ensures PeersIn(Blank(PEER_RECORD_SIZE * n)) == []
  {
    if n > 0 {
      BlankHasNoPeers(n - 1);
      var b := Blank(PEER_RECORD_SIZE * n);
      assert b[38..] == Blank(PEER_RECORD_SIZE * (n - 1)) && b[..6] == BROADCAST_MAC;
    }
  }

  lemma {:induction false} PeersInFlat(peers: seq<Peer>, tail: seq<byte>)
    requires |tail| % PEER_RECORD_SIZE == 0
    ensures |Flat(peers) + tail| % PEER_RECORD_SIZE == 0
    ensures PeersIn(Flat(peers) + tail) == Addressed(peers) + PeersIn(tail)
    decreases |peers|
  {
    hide PeersIn, Record;
    if peers == [] {
      assert Flat(peers) + tail == tail;
    } else {
      var rest := Flat(peers[1..]) + tail;
      PeersInFlat(peers[1..], tail);
      FirstRecord(peers[0], rest);
      assert Flat(peers) + tail == Record(peers[0]) + rest;
      var first := if peers[0].mac == BROADCAST_MAC then [] else [peers[0].(lastSeen := 0)];
      assert first + (Addressed(peers[1..]) + PeersIn(tail)) == (first + Addressed(peers[1..])) + PeersIn(tail);
    }
  }

  lemma FirstRecord(p: Peer, rest: seq<byte>)
    requires |rest| % PEER_RECORD_SIZE == 0
    ensures |Record(p) + rest| % PEER_RECORD_SIZE == 0
    ensures PeersIn(Record(p) + rest) == (if p.mac == BROADCAST_MAC then [] else [p.(lastSeen := 0)]) + PeersIn(rest)
  {
    var b := Record(p) + rest;
    assert b[..6] == p.mac && b[6..38] == p.key && b[38..] == rest;
  }

  predicate AllAddressed(peers: seq<Peer>) { forall p | p in peers :: p.mac != BROADCAST_MAC }

  lemma {:induction false} AddressedAll(peers: seq<Peer>)
    ensures |Addressed(peers)| <= |peers|
    ensures if AllAddressed(peers) then Addressed(peers) == Forgotten(peers) else |Addressed(peers)| < |peers|
  {
    if peers != [] {
      AddressedAll(peers[1..]);
      assert AllAddressed(peers) == (peers[0].mac != BROADCAST_MAC && AllAddressed(peers[1..])) by {
        assert forall p | p in peers :: p == peers[0] || p in peers[1..];
      }
      assert Forgotten(peers) == [peers[0].(lastSeen := 0)] + Forgotten(peers[1..]);
    }
  }

  /** The records in the peer region: entry `i` from byte 38 * i on, six bytes of address and 32 of key, and 0xFF after
      the last. */
  lemma RecordBytes(peers: seq<Peer>, i: nat, k: nat)
    requires |peers| <= 10 && i < 10 && k < 38
    ensures RecordsOf(peers)[38 * i + k]
            == if i >= |peers| then 0xFF else if k < 6 then peers[i].mac[k] else peers[i].key[k - 6]
  {
    if i < |peers| { FlatAt(peers, i, k); }
  }

  lemma {:induction false} FlatAt(peers: seq<Peer>, i: nat, k: nat)
    requires i < |peers| && k < PEER_RECORD_SIZE
    ensures PEER_RECORD_SIZE * i + k < |Flat(peers)|
    ensures Flat(peers)[PEER_RECORD_SIZE * i + k] == Record(peers[i])[k]
  {
    if i > 0 { FlatAt(peers[1..], i - 1, k); }
  }

  /** How many entries have an address. */
  function AddressCount(peers: seq<Peer>): nat {
    if peers == [] then 0
    else (if peers[0].mac == [0xFF, 0xFF, 0xFF, 0xFF, 0xFF, 0xFF] then 0 else 1) + AddressCount(peers[1..])
  }

  /** Any region of ten records, gaps included, loads as the entries with an address, in order and closed up. */
  lemma LoadsInOrder(peers: seq<Peer>, i: nat)
    requires |peers| == 10 && i < 10 && peers[i].mac != [0xFF, 0xFF, 0xFF, 0xFF, 0xFF, 0xFF]
    ensures var loaded := Reloaded(Flat(peers));
            && |loaded| == AddressCount(peers) > AddressCount(peers[..i])
            && loaded[AddressCount(peers[..i])] == Peer(peers[i].mac, peers[i].key, 0)
  {
    hide PeersIn, Flat;
    PeersInFlat(peers, []);
    assert Flat(peers) + [] == Flat(peers);
    BlankHasNoPeers(0);
    assert Blank(0) == [];
    assert Addressed(peers) + [] == Addressed(peers);
    AddressedAt(peers, i);
  }

  lemma {:induction false} AddressedAt(peers: seq<Peer>, i: nat)
    requires i < |peers| && peers[i].mac != BROADCAST_MAC
    ensures |Addressed(peers)| == AddressCount(peers) > AddressCount(peers[..i])
    ensures Addressed(peers)[AddressCount(peers[..i])] == peers[i].(lastSeen := 0)
    decreases i
  {
    AddressedSize(peers[1..]);
    if i > 0 {
      AddressedAt(peers[1..], i - 1);
      assert peers[..i][1..] == peers[1..][..i - 1];
    }
  }

  lemma {:induction false} AddressedSize(peers: seq<Peer>)
    ensures |Addressed(peers)| == AddressCount(peers)
  {
    if peers != [] { AddressedSize(peers[1..]); }
  }

  /** With no address in it, a region loads as the two entries every new device has. */
  lemma NoneLoadsDefaults()
    ensures Reloaded(Blank(380)) == [Peer([0xAA, 0xBB, 0xCC, 0xDD, 0xEE, 0x01], Fill(32, 0), 0),
                                     Peer([0xAA, 0xBB, 0xCC, 0xDD, 0xEE, 0x02], Fill(32, 0), 0)]
  {
    BlankHasNoPeers(10);
  }

  /** A list comes back from its records as it was, in the same order, exactly when it is not empty and holds no
      erased address. */
  lemma RecordsRoundTrip(peers: seq<Peer>)
    requires |peers| <= MAX_PEERS
    ensures Reloaded(RecordsOf(peers)) == Forgotten(peers)
            <==> peers != [] && AllAddressed(peers)
  {
    hide PeersIn;
    var k := MAX_PEERS - |peers|;
    BlankHasNoPeers(k);
    assert PEER_RECORD_SIZE * k == PEER_LIST_SIZE - PEER_RECORD_SIZE * |peers|;
    PeersInFlat(peers, Blank(PEER_RECORD_SIZE * k));
    assert PeersIn(RecordsOf(peers)) == Addressed(peers);
    AddressedAll(peers);
    if Addressed(peers) == [] && peers != [] {
      assert peers[0].mac == BROADCAST_MAC;
      assert Forgotten(peers)[0].mac != DEFAULT_PEERS[0].mac;
    }
  }

  /** End to end: once a saved list has been flushed, a power cut brings the same list back. */
  lemma TableSurvivesPowerCut(st0: StoreState, states: seq<StoreState>, ops: seq<EepromStore.Op>, now: uint32,
                              peers: seq<Peer>)
    requires EepromStore.IsRun(states, ops) && states[0] == Restarted(st0)
    requires Table(peers) && peers != [] && AllAddressed(peers)
    requires Load(states[|ops|].image, PeerListField) == PeerList(RecordsOf(peers))
    ensures var after := Restarted(EepromStore.Apply(states[|ops|], ForceFlush(now)));
            Reloaded(Load(after.image, PeerListField).records) == Forgotten(peers)
  {
    hide Load, Boot, Reloaded, RecordsOf;
    NothingLost(st0, states, ops, ForceFlush(now), PeerListField);
    RecordsRoundTrip(peers);
  }

  // ---------- The list itself ----------

  /** The first four key bytes come back to the enrolled node as its fingerprint. */
  function JoinAck(own: Mac, mac: Mac, key: Bytes32): MeshMsg {
    MeshMsg(0, TYPE_JOIN_ACK, 0, own, mac, own, key[..4] + Fill(60, 0), 0, 0, 0, Fill(32, 0))
  }

  /** The acknowledgement on the radio: an unnumbered message of type 4 for the enrolled node, from this one, with the
      first four bytes of the key as its data. */
  lemma JoinAckIs(own: Mac, mac: Mac, key: Bytes32)
    ensures var m := JoinAck(own, mac, key);
            && m.protoVersion == 0 && m.messageType == 4 && m.epochNum == m.seqNum == 0 && m.hopCount == 0
            && m.origin == own && m.lastHop == own && m.target == mac
            && (forall i | 0 <= i < 64 :: m.data[i] == if i < 4 then key[i] else 0)
  {
  }

  /** The acknowledgement of an enrollment enrolls the node it is for, and, if that node knows no master yet,
      makes the sender its master. */
  lemma JoinAckEnrolls(n: Node, own: Mac)
    ensures var e := OnJoinAck(n, JoinAck(own, n.own, n.publicKey)).node;
            e.enrolled && e.hasMaster && e.knownMaster == if n.hasMaster then n.knownMaster else own
  {
    var m := JoinAck(own, n.own, n.publicKey);
    assert m.data[..4] == n.publicKey[..4];
  }

  class PeerList {
    const peerMacs: array<Peer>
    var peerCount: nat
    const store: Store

    ghost predicate Valid()
      reads this, store
    {
      peerMacs.Length == MAX_PEERS && peerCount <= MAX_PEERS && store.Valid()
    }

    ghost function Peers(): (p: seq<Peer>)
      reads this, peerMacs
      requires peerCount <= peerMacs.Length
      ensures |p| == peerCount
    {
      peerMacs[..peerCount]
    }

    constructor (s: Store)
      requires s.Valid()
      ensures Valid() && Peers() == [] && store == s && fresh(peerMacs)
    {
      peerMacs := new Peer[MAX_PEERS](_ => Peer(ZERO_MAC, NO_KEY, 0));
      peerCount := 0;
      store := s;
    }

    /** The index of the peer, or the count. */
    method FindPeer(mac: Mac) returns (i: nat)
      requires Valid()
      ensures i == MeshNode.FindPeer(Peers(), mac)
    {
      i := 0;
      while i < peerCount
        invariant i <= peerCount
        invariant forall j | 0 <= j < i :: peerMacs[j].mac != mac
      {
        if peerMacs[i].mac == mac {
          FirstAt(Peers(), mac, i);
          return;
        }
        i := i + 1;
      }
      NotFound(Peers(), mac);
    }

    static lemma FirstAt(peers: seq<Peer>, mac: Mac, i: nat)
      requires i < |peers| && peers[i].mac == mac && forall j | 0 <= j < i :: peers[j].mac != mac
      ensures MeshNode.FindPeer(peers, mac) == i
    {
    }

    method AppendPeer(p: Peer) returns (ok: bool)
      requires Valid()
      modifies this, peerMacs
      ensures Valid() && ok == (old(peerCount) < MAX_PEERS) && Peers() == Appended(old(Peers()), p)
    {
      if peerCount >= MAX_PEERS {
        return false;
      }
      peerMacs[peerCount] := p;
      peerCount := peerCount + 1;
      return true;
    }

    /** Renders the records and hands them to the store. */
    method SavePeers()
      requires Valid()
      modifies store, store.buffer
      ensures Valid()
      ensures store.State() == EepromStore.Apply(old(store.State()), Save(PeerList(RecordsOf(Peers()))))
    {
      hide EepromStore.Apply, RecordsOf, Store.Padded;
      var peerRecords := Render();
      PaddedRecords(Peers());
      if !store.isInitialized || store.isDevMode {
        NotSaved(store.State(), PeerList(RecordsOf(Peers())));
      }
      store.SavePeerList(peerRecords, peerCount);
    }

    method Render() returns (peerRecords: seq<byte>)
      requires Valid()
      ensures peerRecords == RecordsOf(Peers())
    {
      hide Flat;
      peerRecords := Fill(PEER_LIST_SIZE, 0xFF);
      ghost var peers := Peers();
      NoneFlat(peers);
      var i := 0;
      while i < peerCount
        invariant i <= peerCount
        invariant peerRecords == Flat(peers[..i]) + Blank(PEER_LIST_SIZE - PEER_RECORD_SIZE * i)
      {
        NextRecord(peers, i, peerRecords);
        peerRecords := peerRecords[..PEER_RECORD_SIZE * i] + peerMacs[i].mac + peerMacs[i].key
                       + peerRecords[PEER_RECORD_SIZE * (i + 1)..];
        i := i + 1;
      }
      assert peers[..i] == peers;
    }

    static lemma NoneFlat(peers: seq<Peer>)
      ensures Flat(peers[..0]) == []
    {
    }

    static lemma NextRecord(peers: seq<Peer>, i: nat, r: seq<byte>)
      requires i < |peers| <= MAX_PEERS
      requires r == Flat(peers[..i]) + Blank(PEER_LIST_SIZE - PEER_RECORD_SIZE * i)
      ensures r[..PEER_RECORD_SIZE * i] + peers[i].mac + peers[i].key + r[PEER_RECORD_SIZE * (i + 1)..]
              == Flat(peers[..i + 1]) + Blank(PEER_LIST_SIZE - PEER_RECORD_SIZE * (i + 1))
    {
      FlatSnoc(peers[..i], peers[i]);
      assert peers[..i + 1] == peers[..i] + [peers[i]];
      assert r[PEER_RECORD_SIZE * (i + 1)..] == Blank(PEER_LIST_SIZE - PEER_RECORD_SIZE * (i + 1));
    }

    static lemma {:induction false} FlatSnoc(peers: seq<Peer>, p: Peer)
      ensures Flat(peers + [p]) == Flat(peers) + Record(p)
    {
      if peers == [] {
        assert peers + [p] == [p] && Flat([]) == [];
      } else {
        FlatSnoc(peers[1..], p);
        assert (peers + [p])[1..] == peers[1..] + [p];
      }
    }

    static lemma PaddedRecords(peers: seq<Peer>)
      requires |peers| <= MAX_PEERS
      ensures |RecordsOf(peers)| >= PEER_RECORD_SIZE * |peers|
      ensures Store.Padded(RecordsOf(peers), |peers|) == RecordsOf(peers)
    {
    }

    /** The list of a booting device. */
    method LoadPeers()
      requires Valid()
      modifies this, peerMacs
      ensures Valid()
      ensures Peers() == if store.isInitialized then Reloaded(Load(store.State().image, PeerListField).records)
              else DEFAULT_PEERS
    {
      peerCount := 0;
      var peerRecords := store.LoadPeerList(MAX_PEERS);
      if peerRecords.Some? {
        ghost var whole := Load(store.State().image, PeerListField).records;
        assert whole[..PEER_LIST_SIZE] == whole;
        ReadRecords(peerRecords.value);
      }
      if peerCount == 0 {
        assert Peers() == [];
        var first := AppendPeer(DEFAULT_PEERS[0]);
        var second := AppendPeer(DEFAULT_PEERS[1]);
        assert Peers() == [] + [DEFAULT_PEERS[0]] + [DEFAULT_PEERS[1]];
      }
    }

    method ReadRecords(r: seq<byte>)
      requires Valid() && peerCount == 0 && |r| == PEER_LIST_SIZE
      modifies this, peerMacs
      ensures Valid() && Peers() == PeersIn(r)
    {
      hide PeersIn;
      var i := 0;
      NoRecords(r);
      while i < MAX_PEERS
        invariant Valid() && i <= MAX_PEERS && peerCount <= i
        invariant Peers() + PeersIn(r[PEER_RECORD_SIZE * i..]) == PeersIn(r)
      {
        ghost var rest := r[PEER_RECORD_SIZE * i..];
        var record: seq<byte> := r[PEER_RECORD_SIZE * i..PEER_RECORD_SIZE * (i + 1)];
        assert |record| == PEER_RECORD_SIZE;
        ReadRecord(rest, record, r[PEER_RECORD_SIZE * (i + 1)..]);
        if record[..6] != BROADCAST_MAC {
          var ok := AppendPeer(PeerOf(record));
        }
        i := i + 1;
      }
      NoRecords(r);
    }

    static lemma NoRecords(r: seq<byte>)
      requires |r| == PEER_LIST_SIZE
      ensures PeersIn(r[PEER_LIST_SIZE..]) == [] && r[0..] == r
    {
    }

    static lemma ReadRecord(b: seq<byte>, record: seq<byte>, rest: seq<byte>)
      requires b == record + rest && |record| == PEER_RECORD_SIZE && |rest| % PEER_RECORD_SIZE == 0
      ensures PeersIn(b) == (if record[..6] == BROADCAST_MAC then [] else [PeerOf(record)]) + PeersIn(rest)
    {
      assert b[..6] == record[..6] && b[6..38] == record[6..38] && b[38..] == rest;
    }

    /** With a full list the device reports a memory error and restarts. */
    method AddPeer(mac: Mac) returns (restarts: bool)
      requires Valid()
      modifies this, peerMacs, store, store.buffer
      ensures Valid() && Peers() == Edited(old(Peers()), Add(mac))
      ensures restarts == (!Known(old(Peers()), mac) && |old(Peers())| == MAX_PEERS)
      ensures store.State() == if Peers() == old(Peers()) then old(store.State())
                               else EepromStore.Apply(old(store.State()), Save(PeerList(RecordsOf(Peers()))))
    {
      restarts := Include(mac, 0);
    }

    method AddPeerToEEPROM(own: Mac, mac: Mac, millis: uint32) returns (restarts: bool)
      requires Valid()
      modifies this, peerMacs, store, store.buffer
      ensures Valid() && Peers() == Edited(old(Peers()), AddLearned(own, mac, millis))
      ensures restarts == (mac != own && !Known(old(Peers()), mac) && |old(Peers())| == MAX_PEERS)
      ensures store.State() == if Peers() == old(Peers()) then old(store.State())
                               else EepromStore.Apply(old(store.State()), Save(PeerList(RecordsOf(Peers()))))
    {
      if mac == own {
        return false;
      }
      restarts := Include(mac, millis);
    }

    /** What both ways of adding have in common. */
    method Include(mac: Mac, lastSeen: uint32) returns (restarts: bool)
      requires Valid()
      modifies this, peerMacs, store, store.buffer
      ensures Valid()
      ensures Peers() == if Known(old(Peers()), mac) then old(Peers())
              else Appended(old(Peers()), Peer(mac, NO_KEY, lastSeen))
      ensures restarts == (!Known(old(Peers()), mac) && |old(Peers())| == MAX_PEERS)
      ensures store.State() == if Peers() == old(Peers()) then old(store.State())
                               else EepromStore.Apply(old(store.State()), Save(PeerList(RecordsOf(Peers()))))
    {
      hide RecordsOf, EepromStore.Apply;
      var i := FindPeer(mac);
      if i < peerCount {
        return false;
      }
      var ok := AppendPeer(Peer(mac, NO_KEY, lastSeen));
      if !ok {
        return true;
      }
      SavePeers();
      return false;
    }

    /** The list is saved even when the peer was not in it. */
    method RemovePeer(mac: Mac)
      requires Valid()
      modifies this, peerMacs, store, store.buffer
      ensures Valid() && Peers() == Edited(old(Peers()), Remove(mac))
      ensures store.State() == EepromStore.Apply(old(store.State()), Save(PeerList(RecordsOf(Peers()))))
    {
      hide RecordsOf, EepromStore.Apply, Edited;
      Drop(mac);
      SavePeers();
    }

    method Drop(mac: Mac)
      requires Valid()
      modifies this, peerMacs
      ensures Valid() && Peers() == Edited(old(Peers()), Remove(mac))
    {
      hide MeshNode.FindPeer;
      ghost var was := Peers();
      var i := FindPeer(mac);
      if i < peerCount {
        peerCount := peerCount - 1;
        peerMacs[i] := peerMacs[peerCount];
        assert Peers() == was[i := was[|was| - 1]][..|was| - 1];
      }
    }

    /** Sets or adds the key, saves, and answers with the acknowledgement; a full list answers nothing. */
    method EnrollPeer(own: Mac, mac: Mac, key: Bytes32) returns (ack: Option<MeshMsg>)
      requires Valid()
      modifies this, peerMacs, store, store.buffer
      ensures Valid() && Peers() == Edited(old(Peers()), Enroll(mac, key))
      ensures ack == if Known(Peers(), mac) then Some(JoinAck(own, mac, key)) else None
      ensures store.State() == if ack == None then old(store.State())
                               else EepromStore.Apply(old(store.State()), Save(PeerList(RecordsOf(Peers()))))
    {
      hide RecordsOf, EepromStore.Apply, JoinAck, Edited;
      var ok := SetKey(mac, key);
      if !ok {
        return None;
      }
      SavePeers();
      ack := Some(JoinAck(own, mac, key));
    }

    method SetKey(mac: Mac, key: Bytes32) returns (ok: bool)
      requires Valid()
      modifies this, peerMacs
      ensures Valid() && Peers() == Edited(old(Peers()), Enroll(mac, key))
      ensures ok == Known(Peers(), mac)
    {
      var i := FindPeer(mac);
      if i < peerCount {
        peerMacs[i] := peerMacs[i].(key := key);
        ok := true;
      } else {
        ok := AppendPeer(Peer(mac, key, 0));
      }
      if ok {
        FirstAt(Peers(), mac, i);
      }
    }

    method UpdateLastSeen(own: Mac, mac: Mac, millis: uint32)
      requires Valid()
      modifies peerMacs
      ensures Valid() && Peers() == Edited(old(Peers()), Heard(own, mac, millis))
    {
      if mac == own {
        return;
      }
      var i := FindPeer(mac);
      if i < peerCount {
        peerMacs[i] := peerMacs[i].(lastSeen := millis);
      }
    }
  }
}
