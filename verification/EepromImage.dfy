/**
 The 512-byte settings image: where each setting lives, how it is encoded, and the laws of loading and
 saving as functions of the image.
 */
module EepromImage {
  import opened Basics
  import opened MeshTypes
  import opened Crc16

  const TOTAL_SIZE: nat := 512
  const PEER_RECORD_SIZE: nat := 38
  const PEER_LIST_SIZE: nat := 380

  type Image = s: seq<byte> | |s| == 512 witness Fill(512, 0xFF)

  datatype Field =
    | MasterFlagField | DevFlagField | AdapterTypeField | MeshKeyField | PeerListField | RebootReasonField
    | RebootCountField | KeypairField | EnrolledField | BootEpochField | KnownMasterField | SchemaField
    | TxPowerField | NodeIdField | SecondaryField

  function Start(f: Field): nat {
    match f
    case MasterFlagField => 0
    case DevFlagField => 1
    case AdapterTypeField => 8
    case MeshKeyField => 16
    case PeerListField => 32
    case RebootReasonField => 412
    case RebootCountField => 413
    case KeypairField => 417
    case EnrolledField => 483
    case BootEpochField => 484
    case KnownMasterField => 488
    case SchemaField => 494
    case TxPowerField => 495
    case NodeIdField => 496
    case SecondaryField => 497
  }

  function Size(f: Field): nat {
    match f
    case MeshKeyField => 16
    case PeerListField => 380
    case KeypairField => 66
    case BootEpochField => 4
    case KnownMasterField => 6
    case SecondaryField => 6
    case _ => 1
  }

  /** No two fields share a byte. */
  lemma Apart(f: Field, g: Field)
    ensures Start(f) + Size(f) <= 512
    ensures f != g ==> Start(f) + Size(f) <= Start(g) || Start(g) + Size(g) <= Start(f)
  {
  }

  function ReadAt(img: Image, at: nat, n: nat): (b: seq<byte>)
    requires at + n <= 512
    ensures |b| == n
  {
    img[at..at + n]
  }

  function WriteAt(img: Image, at: nat, b: seq<byte>): (r: Image)
    requires at + |b| <= 512
    ensures forall k | 0 <= k < 512 :: r[k] == if at <= k < at + |b| then b[k - at] else img[k]
  {
    img[..at] + b + img[at + |b|..]
  }

  function Region(img: Image, f: Field): (b: seq<byte>)
    ensures |b| == Size(f)
  {
    Apart(f, f);
    ReadAt(img, Start(f), Size(f))
  }

  function Put(img: Image, f: Field, b: seq<byte>): Image
    requires |b| == Size(f)
  {
    Apart(f, f);
    WriteAt(img, Start(f), b)
  }

  /** Writing a field sets it and leaves every other field alone. */
  lemma PutRegion(img: Image, f: Field, b: seq<byte>, g: Field)
    requires |b| == Size(f)
    ensures Region(Put(img, f, b), g) == if f == g then b else Region(img, g)
  {
    hide Start, Size;
    Apart(f, g);
    Apart(g, f);
  }

  // ---------- Settings ----------

  type Key16 = s: seq<byte> | |s| == 16 witness Fill(16, 0)
  type PeerRecords = s: seq<byte> | |s| == 380 witness Fill(380, 0xFF)

  /** A setting as its save takes it and its load gives it back. */
  datatype Setting =
    | MasterFlag(isMaster: bool)
    | DevFlag(isDev: bool)
    | AdapterType(adapterType: byte)
    | MeshKey(meshKey: Key16)
    | PeerList(records: PeerRecords)
    | RebootReason(reason: byte)
    | RebootCount(count: byte)
    | Keypair(keys: Option<(Bytes32, Bytes32)>)
    | Enrolled(enrolled: bool)
    | BootEpoch(epoch: uint32)
    | KnownMaster(mac: Option<Mac>)
    | Schema(version: byte)
    | TxPower(preset: byte)
    | NodeId(nodeId: byte)
    | Secondary(mac: Option<Mac>)

  const OUTDOOR: byte := 2

  function FieldOf(s: Setting): Field {
    match s
    case MasterFlag(_) => MasterFlagField
    case DevFlag(_) => DevFlagField
    case AdapterType(_) => AdapterTypeField
    case MeshKey(_) => MeshKeyField
    case PeerList(_) => PeerListField
    case RebootReason(_) => RebootReasonField
    case RebootCount(_) => RebootCountField
    case Keypair(_) => KeypairField
    case Enrolled(_) => EnrolledField
    case BootEpoch(_) => BootEpochField
    case KnownMaster(_) => KnownMasterField
    case Schema(_) => SchemaField
    case TxPower(_) => TxPowerField
    case NodeId(_) => NodeIdField
    case Secondary(_) => SecondaryField
  }

  function EpochBytes(e: uint32): (b: seq<byte>)
    ensures |b| == 4
  {
    [e % 0x100, e / 0x100 % 0x100, e / 0x1_0000 % 0x100, e / 0x100_0000]
  }

  function KeyRecord(privateKey: Bytes32, publicKey: Bytes32): (b: seq<byte>)
    ensures |b| == 66
  {
    var crc := Checksum(privateKey + publicKey);
    privateKey + publicKey + [crc % 0x100, crc / 0x100]
  }

  function MacBytes(mac: Option<Mac>): Mac {
    match mac case None => BROADCAST_MAC case Some(m) => m
  }

  /** The bytes a save writes. A cleared master address is all 0xFF; there is no saving of no keypair. */
  function Encode(s: Setting): (b: seq<byte>)
    requires s.Keypair? ==> s.keys.Some?
    ensures |b| == Size(FieldOf(s))
  {
    match s
    case MasterFlag(on) => [if on then 1 else 0]
    case DevFlag(on) => [if on then 1 else 0]
    case AdapterType(x) => [x]
    case MeshKey(k) => k
    case PeerList(r) => r
    case RebootReason(x) => [x]
    case RebootCount(x) => [x]
    case Keypair(k) => KeyRecord(k.value.0, k.value.1)
    case Enrolled(on) => [if on then 1 else 0xFF]
    case BootEpoch(e) => EpochBytes(e)
    case KnownMaster(m) => MacBytes(m)
    case Schema(v) => [v]
    case TxPower(p) => [p]
    case NodeId(x) => [x]
    case Secondary(m) => MacBytes(m)
  }

  function KeysIn(b: seq<byte>): Option<(Bytes32, Bytes32)>
    requires |b| == 66
  {
    if b[64] as int + 0x100 * (b[65] as int) == Checksum(b[..64]) then Some((b[..32], b[32..64])) else None
  }

  function MacIn(b: Mac): Option<Mac> { if b == BROADCAST_MAC then None else Some(b) }

  /** What a load makes of the bytes of its field. */
  function Decode(f: Field, b: seq<byte>): (s: Setting)
    requires |b| == Size(f)
    ensures FieldOf(s) == f
  {
    match f
    case MasterFlagField => MasterFlag(b[0] == 1)
    case DevFlagField => DevFlag(b[0] == 1)
    case AdapterTypeField => AdapterType(if b[0] == 0xFF then 0 else b[0])
    case MeshKeyField => MeshKey(b)
    case PeerListField => PeerList(b)
    case RebootReasonField => RebootReason(b[0])
    case RebootCountField => RebootCount(b[0])
    case KeypairField => Keypair(KeysIn(b))
    case EnrolledField => Enrolled(b[0] == 1)
    case BootEpochField => var e := LittleEndian32(b); BootEpoch(if e == 0xFFFF_FFFF then 0 else e)
    case KnownMasterField => KnownMaster(MacIn(b))
    case SchemaField => Schema(b[0])
    case TxPowerField => TxPower(if b[0] > 2 then OUTDOOR else b[0])
    case NodeIdField => NodeId(if b[0] == 0xFF then 0 else b[0])
    case SecondaryField => Secondary(MacIn(b))
  }

  function Load(img: Image, f: Field): (s: Setting)
    ensures FieldOf(s) == f
  {
    Decode(f, Region(img, f))
  }

  /** The values an erased cell stands for cannot be told from an unset one. */
  predicate Sentinel(s: Setting) {
    match s
    case AdapterType(x) => x == 0xFF
    case NodeId(x) => x == 0xFF
    case BootEpoch(e) => e == 0xFFFF_FFFF
    case KnownMaster(m) => m == Some(BROADCAST_MAC)
    case Secondary(m) => m == Some(BROADCAST_MAC)
    case TxPower(p) => p > 2
    case _ => false
  }

  lemma EpochRoundTrip(e: uint32)
    ensures LittleEndian32(EpochBytes(e)) == e
  {
    var a, b, c := e / 0x100, e / 0x1_0000, e / 0x100_0000;
    assert b == a / 0x100 && c == b / 0x100 && c < 0x100;
    assert e == 0x100 * a + e % 0x100 && a == 0x100 * b + a % 0x100 && b == 0x100 * c + b % 0x100;
  }

  lemma KeysRoundTrip(p: Bytes32, q: Bytes32)
    ensures KeysIn(KeyRecord(p, q)) == Some((p, q))
  {
    hide Checksum;
    var b := KeyRecord(p, q);
    assert b[..64] == p + q && b[..32] == p && b[32..64] == q;
  }

  lemma DecodeEncode(s: Setting)
    requires s.Keypair? ==> s.keys.Some?
    ensures Decode(FieldOf(s), Encode(s)) == s <==> !Sentinel(s)
  {
    hide KeyRecord, KeysIn, EpochBytes, LittleEndian32;
    match s
    case Keypair(k) => KeysRoundTrip(k.value.0, k.value.1);
    case BootEpoch(e) => EpochRoundTrip(e);
    case _ =>
  }

  /** A saved setting is what its load gives back, exactly when it is not one of the erased values; and no
      other load notices. */
  lemma SaveThenLoad(img: Image, s: Setting, g: Field)
    requires s.Keypair? ==> s.keys.Some?
    ensures var saved := Put(img, FieldOf(s), Encode(s));
            if g == FieldOf(s) then Load(saved, g) == s <==> !Sentinel(s) else Load(saved, g) == Load(img, g)
  {
    hide Encode, Decode, Put, Region;
    PutRegion(img, FieldOf(s), Encode(s), g);
    DecodeEncode(s);
  }

  /** Saving twice is saving the second, and saving what is there changes nothing. */
  lemma SaveLaws(img: Image, f: Field, a: seq<byte>, b: seq<byte>)
    requires |a| == |b| == Size(f)
    ensures Put(Put(img, f, a), f, b) == Put(img, f, b)
    ensures Put(img, f, Region(img, f)) == img
  {
    hide Start, Size;
    Apart(f, f);
  }

  // ---------- The keypair record ----------

  /** A saved record with one byte changed is refused, whichever of the 66 it is. */
  lemma OneByteRefused(p: Bytes32, q: Bytes32, i: nat, x: byte)
    requires i < 66 && x != KeyRecord(p, q)[i]
    ensures KeysIn(KeyRecord(p, q)[i := x]) == None
  {
    hide Crc;
    var r := KeyRecord(p, q);
    var t := r[i := x];
    assert r[..64] == p + q;
    if i < 64 {
      ByteChange(0xFFFF, r[..i], r[i], x, r[i + 1..64]);
      assert r[..64] == r[..i] + [r[i]] + r[i + 1..64];
      assert t[..64] == r[..i] + [x] + r[i + 1..64];
    } else {
      assert t[..64] == r[..64];
    }
  }

  /** So is one with two adjacent key bytes changed. */
  lemma TwoKeyBytesRefused(p: Bytes32, q: Bytes32, i: nat, x: byte, y: byte)
    requires i + 1 < 64 && (x != KeyRecord(p, q)[i] || y != KeyRecord(p, q)[i + 1])
    ensures KeysIn(KeyRecord(p, q)[i := x][i + 1 := y]) == None
  {
    hide Crc;
    var r := KeyRecord(p, q);
    var t := r[i := x][i + 1 := y];
    assert r[..64] == p + q;
    PairChange(0xFFFF, r[..i], r[i], r[i + 1], x, y, r[i + 2..64]);
    assert r[..64] == r[..i] + [r[i], r[i + 1]] + r[i + 2..64];
    assert t[..64] == r[..i] + [x, y] + r[i + 2..64];
  }

  // Where the record's protection ends: the last key byte and the checksum byte stored next to it, the low one.

  lemma XorBack(a: byte, b: byte)
    ensures Xor(a, b) < 0x100 && Xor(a, Xor(a, b)) == b
  {
    hide Xor;
    ByteXor(a, b);
    XorAssociates(a, a, b);
    XorSelf(a);
    XorCommutes(0, b);
    XorZero(b);
  }

  /** A change of those two bytes passes exactly when the change of the checksum byte is what the change of the key
      byte makes of the whole checksum. */
  lemma StraddlingChange(p: Bytes32, q: Bytes32, x: byte, y: byte)
    ensures var r := KeyRecord(p, q);
            && Xor(r[63], x) < 0x100
            && (KeysIn(r[63 := x][64 := y]).Some? <==> Xor(r[64], y) == Syndrome(Xor(r[63], x)))
  {
    hide Crc, Xor, ByteStep, Syndrome;
    var r := KeyRecord(p, q);
    var t := r[63 := x][64 := y];
    XorBack(r[63], x);
    XorBack(r[64], y);
    assert r[..64] == p + q && t[..63] == r[..63];
    assert p + q == r[..63] + [r[63]] && t[..64] == r[..63] + [x];
    var c := Crc(0xFFFF, r[..63]);
    CrcAppend(0xFFFF, r[..63], [r[63]]);
    CrcAppend(0xFFFF, r[..63], [x]);
    OneStep(c, r[63]);
    OneStep(c, x);
    ByteStepDifference(c, r[63], Xor(r[63], x));
    var crc := ByteStep(c, r[63]);
    LowXor(crc, Xor(r[64], y));
    if Xor(crc, Xor(r[64], y)) == Xor(crc, Syndrome(Xor(r[63], x))) {
      XorInjective(crc, Xor(r[64], y), Syndrome(Xor(r[63], x)));
    }
  }

  /** The one pattern that is not detected. */
  predicate HiddenFlip(r: seq<byte>, i: nat, x: byte, y: byte)
    requires |r| == 66
  {
    i == 63 && Xor(r[63], x) == 0x89 && Xor(r[64], y) == 0xA1
  }

  lemma StraddlingExactly(p: Bytes32, q: Bytes32, x: byte, y: byte)
    requires var r := KeyRecord(p, q); x != r[63] || y != r[64]
    ensures var r := KeyRecord(p, q); KeysIn(r[63 := x][64 := y]) == None <==> !HiddenFlip(r, 63, x, y)
  {
    hide KeysIn, Xor, Syndrome, KeyRecord;
    var r := KeyRecord(p, q);
    StraddlingChange(p, q, x, y);
    XorBack(r[63], x);
    XorBack(r[64], y);
    UpperHalfClean(Xor(r[63], x));
    SyndromeOne();
    LastByte();
    if Xor(r[63], x) == 0 { XorZeroMeansEqual(r[63], x); }
    if Xor(r[64], y) == 0 { XorZeroMeansEqual(r[64], y); }
    XorSelf(r[63]);
  }

  /** Any change within two adjacent bytes of the 66 is refused, but for one pattern in one place: the last key byte
      flipped by 0x89 together with the low checksum byte by 0xA1. */
  lemma AdjacentBytes(p: Bytes32, q: Bytes32, i: nat, x: byte, y: byte)
    requires i < 65 && (x != KeyRecord(p, q)[i] || y != KeyRecord(p, q)[i + 1])
    ensures var r := KeyRecord(p, q); KeysIn(r[i := x][i + 1 := y]) == None <==> !HiddenFlip(r, i, x, y)
  {
    hide Crc, Xor, Checksum;
    var r := KeyRecord(p, q);
    if i + 1 < 64 {
      TwoKeyBytesRefused(p, q, i, x, y);
    } else if i == 63 {
      StraddlingExactly(p, q, x, y);
    } else {
      var t := r[64 := x][65 := y];
      assert t[..64] == r[..64] && r[..64] == p + q;
    }
  }

  /** What such a flip does: another public key is taken for the stored one. */
  lemma HiddenFlipLoads(p: Bytes32, q: Bytes32, x: byte, y: byte)
    requires HiddenFlip(KeyRecord(p, q), 63, x, y)
    ensures KeysIn(KeyRecord(p, q)[63 := x][64 := y]) == Some((p, q[31 := x])) && x != q[31]
  {
    hide Xor, Checksum;
    var r := KeyRecord(p, q);
    var t := r[63 := x][64 := y];
    assert r[63] == q[31] && r[..64] == p + q;
    if x == r[63] { XorSelf(x); }
    StraddlingExactly(p, q, x, y);
    assert t[..32] == p && t[32..64] == q[31 := x];
  }
}
