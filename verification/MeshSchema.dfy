/**
 The one message type of the firmware, as generated from mesh.proto: its descriptor, its C struct and
 the round trip for it. Offsets are those of the struct with natural alignment.
 */
module MeshSchema {
  import opened Basics
  import opened Varint
  import opened FieldIterator
  import opened MessageCodec

  const MAX_SIZE: nat := 160
  const DATA_CAPACITY: nat := 64
  const KEY_CAPACITY: nat := 32

  function MeshFields(): (fs: seq<FieldInfo>)
    ensures |fs| == 11
  {
    [
    FieldInfo(0, 1, 0x12, 0, 4, 0, 1),      // uint32 messageType
    FieldInfo(0, 2, 0x13, 4, 4, 0, 1),      // sint32 dataType
    FieldInfo(1, 3, 0x1B, 8, 6, 0, 1),      // bytes originMacAddress, fixed length
    FieldInfo(1, 4, 0x1B, 14, 6, 0, 1),     // bytes targetMacAddress
    FieldInfo(1, 5, 0x1B, 20, 6, 0, 1),     // bytes lastHopMacAddress
    FieldInfo(1, 6, 0x16, 28, 66, 2, 1),    // optional bytes data
    FieldInfo(0, 7, 0x12, 96, 4, 0, 1),     // uint32 hopCount
    FieldInfo(0, 8, 0x12, 100, 4, 0, 1),    // uint32 epochNum
    FieldInfo(0, 9, 0x12, 104, 4, 0, 1),    // uint32 seqNum
    FieldInfo(0, 10, 0x12, 108, 4, 0, 1),   // uint32 protoVersion
    FieldInfo(1, 11, 0x16, 114, 34, 2, 1)]  // optional bytes public_key
  }

  function MeshDesc(): MsgDesc { MsgDesc(MeshWords(), 11, 11) }

  function MeshWords(): seq<uint32> {
    MeshFits();
    Pack(MeshFields())
  }

  lemma MeshFits()
    ensures forall f | f in MeshFields() :: CodecField(f)
  {
  }

  lemma {:induction false} PackLength(fields: seq<FieldInfo>)
    requires forall f | f in fields :: Fits(f)
    ensures |Pack(fields)| <= 8 * |fields| + 1
  {
    if fields != [] {
      PackLength(fields[1..]);
    }
  }

  lemma TagIsPosition(i: nat)
    requires i < |MeshFields()|
    ensures MeshFields()[i].tag == i + 1
  {
  }

  lemma MeshDescribed()
    ensures Describes(MeshDesc(), MeshFields()) && CodecFields(MeshFields())
  {
    hide Pack, LType, CodecField;
    MeshFits();
    FitsOfCodec();
    PackLength(MeshFields());
    var fields := MeshFields();
    assert |fields| == 11;
    forall i: nat | i < |fields| ensures fields[i].tag == i + 1 {
      TagIsPosition(i);
    }
    assert WellFormed(fields) by {
      assert forall f | f in fields :: exists i: nat :: i < |fields| && fields[i] == f;
    }
  }

  lemma FitsOfCodec()
    ensures forall f | f in MeshFields() :: Fits(f)
  {
    MeshFits();
  }

  /** The C struct. Byte strings keep their whole buffer. */
  datatype MeshMessage = MeshMessage(
    messageType: uint32, dataType: int32, origin: Mac, target: Mac, lastHop: Mac,
    hasData: bool, dataSize: uint16, data: seq<byte>,
    hopCount: uint32, epochNum: uint32, seqNum: uint32, protoVersion: uint32,
    hasKey: bool, keySize: uint16, key: seq<byte>)

  predicate InStruct(m: MeshMessage) {
    |m.data| == DATA_CAPACITY && |m.key| == KEY_CAPACITY
  }

  /** Sizes of the byte strings that are present stay within their buffers. */
  predicate Encodable(m: MeshMessage) {
    (m.hasData ==> m.dataSize <= DATA_CAPACITY) && (m.hasKey ==> m.keySize <= KEY_CAPACITY)
  }

  /** Member `j`, if it is a byte string and present, stays within its buffer. */
  predicate InRoom(m: MeshMessage, j: nat) {
    (j == 5 && m.hasData ==> m.dataSize <= DATA_CAPACITY) && (j == 10 && m.hasKey ==> m.keySize <= KEY_CAPACITY)
  }

  function ToSlots(m: MeshMessage): (slots: seq<Slot>)
    ensures |slots| == 11
  {
    [Slot(false, Number(m.messageType)), Slot(false, Number(m.dataType)),
     Slot(false, Array(m.origin)), Slot(false, Array(m.target)), Slot(false, Array(m.lastHop)),
     Slot(m.hasData, Sized(m.dataSize, m.data)),
     Slot(false, Number(m.hopCount)), Slot(false, Number(m.epochNum)), Slot(false, Number(m.seqNum)),
     Slot(false, Number(m.protoVersion)), Slot(m.hasKey, Sized(m.keySize, m.key))]
  }

  lemma SlotsOfMessage(m: MeshMessage)
    requires InStruct(m)
    ensures SlotsFor(MeshFields(), ToSlots(m))
  {
  }

  /** The message itself, with everything cleared that is not carried over the wire. */
  function Carried(m: MeshMessage): (c: MeshMessage)
    requires InStruct(m) && Encodable(m)
    ensures InStruct(c)
  {
    m.(dataSize := if m.hasData then m.dataSize else 0,
       data := if m.hasData then m.data[..m.dataSize] + Fill(DATA_CAPACITY - m.dataSize, 0) else Fill(DATA_CAPACITY, 0),
       keySize := if m.hasKey then m.keySize else 0,
       key := if m.hasKey then m.key[..m.keySize] + Fill(KEY_CAPACITY - m.keySize, 0) else Fill(KEY_CAPACITY, 0))
  }

  lemma NormalIsCarried(m: MeshMessage)
    requires InStruct(m) && Encodable(m)
    ensures SlotsFor(MeshFields(), ToSlots(m)) && Normal(MeshFields(), ToSlots(m)) == ToSlots(Carried(m))
  {
    SlotsOfMessage(m);
    var a, b := Normal(MeshFields(), ToSlots(m)), ToSlots(Carried(m));
    forall i | 0 <= i < 11 ensures a[i] == b[i] {
    }
  }

  // ---------- Size ----------

  /** Largest encoding of a field of this schema: key byte, then a varint or a length byte and bytes. */
  function LargestField(f: FieldInfo): nat
    requires CodecField(f)
  {
    match KindOf(f)
    case FixedBytes(len) => 2 + len
    case BoundedBytes(cap) => 2 + cap
    case _ => 6
  }

  function LargestFrom(fields: seq<FieldInfo>, i: nat): nat
    requires i <= |fields| && forall f | f in fields :: CodecField(f)
    decreases |fields| - i
  {
    if i == |fields| then 0 else LargestField(fields[i]) + LargestFrom(fields, i + 1)
  }

  lemma FieldSize(f: FieldInfo, slot: Slot)
    requires CodecField(f) && Holds(KindOf(f), slot.value) && EncodeField(f, slot).Some?
    requires f.tag < 0x10 && f.dataSize < 0x80 && (LType(f.typ) == 2 || LType(f.typ) == 3 ==> f.dataSize == 4)
    ensures |EncodeField(f, slot).value| <= LargestField(f)
  {
    if !Omitted(f, slot) {
      EncodeLength(Key(f));
      match slot.value
      case Number(n) => EncodeLength(if KindOf(f).Signed? then ZigZag(n) else n);
      case Array(bytes) => EncodeLength(|bytes|);
      case Sized(size, _) => EncodeLength(size);
    }
  }

  lemma {:induction false} SizeBound(slots: seq<Slot>, i: nat)
    requires SlotsFor(MeshFields(), slots) && i <= 11
    ensures (forall f | f in MeshFields() :: CodecField(f))
    ensures EncodeFrom(MeshFields(), slots, i).Some? ==>
              |EncodeFrom(MeshFields(), slots, i).value| <= LargestFrom(MeshFields(), i)
    decreases 11 - i
  {
    MeshFits();
    if i < 11 && EncodeFrom(MeshFields(), slots, i).Some? {
      SizeBound(slots, i + 1);
      FieldSize(MeshFields()[i], slots[i]);
    }
  }

  lemma LargestMessage()
    ensures forall f | f in MeshFields() :: CodecField(f)
    ensures LargestFrom(MeshFields(), 0) == MAX_SIZE
  {
    MeshFits();
    var fs := MeshFields();
    assert LargestFrom(fs, 11) == 0;
    assert LargestFrom(fs, 10) == 34 && LargestFrom(fs, 9) == 40 && LargestFrom(fs, 8) == 46;
    assert LargestFrom(fs, 7) == 52 && LargestFrom(fs, 6) == 58 && LargestFrom(fs, 5) == 124;
    assert LargestFrom(fs, 4) == 132 && LargestFrom(fs, 3) == 140 && LargestFrom(fs, 2) == 148;
    assert LargestFrom(fs, 1) == 154;
  }

  lemma LongVarint(v: nat)
    requires 0x1000_0000 <= v < TWO_32
    ensures |VarintBytes(v)| == 5
  {
    EncodeLength(v);
    EncodePayload(v);
    PayloadBound(VarintBytes(v));
    Pow128Values();
    Pow128Monotone(|VarintBytes(v)|, 4);
  }

  /** A member that takes all the room its field can. */
  predicate Full(f: FieldInfo, slot: Slot)
    requires CodecField(f) && Holds(KindOf(f), slot.value)
  {
    && (HasFlag(f) ==> slot.has) && f.tag < 0x10
    && match slot.value
       case Number(n) => 0x1000_0000 <= (if KindOf(f).Signed? then ZigZag(n) else n) < TWO_32
       case Array(bytes) => 0 < |bytes| < 0x80
       case Sized(size, buf) => 0 < size == |buf| < 0x80
  }

  lemma FullField(f: FieldInfo, slot: Slot)
    requires CodecField(f) && Holds(KindOf(f), slot.value) && Full(f, slot)
    ensures EncodeField(f, slot).Some? && |EncodeField(f, slot).value| == LargestField(f)
  {
    EncodeLength(Key(f));
    match slot.value
    case Number(n) => LongVarint(if KindOf(f).Signed? then ZigZag(n) else n);
    case Array(bytes) => EncodeLength(|bytes|);
    case Sized(size, _) => EncodeLength(size);
  }

  lemma {:induction false} FullMessage(fields: seq<FieldInfo>, slots: seq<Slot>, i: nat)
    requires SlotsFor(fields, slots) && i <= |fields| && forall f | f in fields :: CodecField(f)
    requires forall j | 0 <= j < |fields| :: Full(fields[j], slots[j])
    ensures EncodeFrom(fields, slots, i).Some? && |EncodeFrom(fields, slots, i).value| == LargestFrom(fields, i)
    decreases |fields| - i
  {
    hide EncodeField, CodecField, Holds, KindOf, LargestField, Full;
    if i < |fields| {
      FullMessage(fields, slots, i + 1);
      FullField(fields[i], slots[i]);
    }
  }

  const FULL_MESSAGE: MeshMessage :=
    MeshMessage(0xFFFF_FFFF, -0x8000_0000, BROADCAST_MAC, BROADCAST_MAC, BROADCAST_MAC, true, 64, Fill(64, 0),
                0xFFFF_FFFF, 0xFFFF_FFFF, 0xFFFF_FFFF, 0xFFFF_FFFF, true, 32, Fill(32, 0))

  /** The declared size is reached, so it cannot be less. */
  lemma LargestIsReached()
    ensures InStruct(FULL_MESSAGE) && Encodable(FULL_MESSAGE) && |Wire(FULL_MESSAGE)| == MAX_SIZE
  {
    var slots := ToSlots(FULL_MESSAGE);
    SlotsOfMessage(FULL_MESSAGE);
    MeshFits();
    forall j: nat | j < 11 ensures Full(MeshFields()[j], slots[j]) {
      FullSlot(j);
    }
    FullMessage(MeshFields(), slots, 0);
    LargestMessage();
  }

  lemma FullSlot(j: nat)
    requires j < 11
    ensures var slots := ToSlots(FULL_MESSAGE);
            SlotsFor(MeshFields(), slots) && Full(MeshFields()[j], slots[j])
  {
    SlotsOfMessage(FULL_MESSAGE);
    MeshFits();
  }

  // ---------- The round trip of the schema ----------

  ghost function Wire(m: MeshMessage): (b: seq<byte>)
    requires InStruct(m) && Encodable(m)
  {
    SlotsOfMessage(m);
    EncodesMessage(m);
    EncodeFrom(MeshFields(), ToSlots(m), 0).value
  }

  lemma EncodesMessage(m: MeshMessage)
    requires InStruct(m)
    ensures SlotsFor(MeshFields(), ToSlots(m))
    ensures EncodeFrom(MeshFields(), ToSlots(m), 0).Some? <==> Encodable(m)
    ensures Encodable(m) ==> |EncodeFrom(MeshFields(), ToSlots(m), 0).value| <= MAX_SIZE
  {
    SlotsOfMessage(m);
    SizeBound(ToSlots(m), 0);
    LargestMessage();
    EncodesIff(MeshFields(), ToSlots(m), 0);
    forall j: nat | j < 11
      ensures Omitted(MeshFields()[j], ToSlots(m)[j]) || InCapacity(ToSlots(m)[j].value)
         <==> InRoom(m, j)
    {
      SlotEncodes(m, j);
    }
  }

  lemma SlotEncodes(m: MeshMessage, j: nat)
    requires InStruct(m) && SlotsFor(MeshFields(), ToSlots(m)) && j < 11
    ensures Omitted(MeshFields()[j], ToSlots(m)[j]) || InCapacity(ToSlots(m)[j].value)
       <==> InRoom(m, j)
  {
  }

  /** Every encodable message takes at most 160 bytes and comes back from them. */
  lemma MeshRoundTrip(m: MeshMessage)
    requires InStruct(m) && Encodable(m)
    ensures |Wire(m)| <= MAX_SIZE
    ensures (forall f | f in MeshFields() :: CodecField(f))
    ensures Decode(MeshFields(), Wire(m)) == Some(ToSlots(Carried(m)))
  {
    hide MeshFields, CodecField, Describes, WellFormed, EncodeFrom, LargestFrom, Encodable, ToSlots, Carried,
         Normal, SlotsFor;
    MeshDescribed();
    EncodesMessage(m);
    RoundTrip(MeshFields(), ToSlots(m));
    NormalIsCarried(m);
  }
}
