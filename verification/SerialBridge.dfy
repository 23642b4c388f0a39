/**
 Between the radio and the server: the mapping of mesh_message to the protobuf struct and back, the
 two codec calls around it, and the whole path over the framed serial link.
 */
module SerialBridge {
  import opened Basics
  import opened Varint
  import opened PbStreams
  import opened FieldIterator
  import opened MessageCodec
  import opened MeshSchema
  import opened MeshTypes
  import opened SerialFraming
  import PbMessage

  predicate CarriesKey(messageType: byte) {
    messageType == TYPE_ENROLLMENT || messageType == TYPE_JOIN_ACK
  }

  predicate KeepsAddresses(messageType: byte) {
    messageType == TYPE_JOIN_ACK || messageType == TYPE_SERIAL_CMD_BROADCAST
  }

  /** The protobuf struct encodeMeshMessage fills in. */
  ghost function ToPb(m: MeshMsg): (pb: MeshMessage)
    ensures InStruct(pb) && Encodable(pb)
  {
    var withKey := CarriesKey(m.messageType) && NonZero(m.key);
    MeshMessage(m.messageType, m.dataType, m.origin, m.target, m.lastHop, true, 64, m.data,
                m.hopCount, m.epochNum, m.seqNum, m.protoVersion,
                withKey, if withKey then 32 else 0, if withKey then m.key else Fill(32, 0))
  }

  /** What decodeMeshMessage makes of a protobuf struct on a node with address `own`. */
  function FromPb(pb: MeshMessage, own: Mac): (m: MeshMsg)
    requires InStruct(pb)
  {
    var messageType: byte := pb.messageType % 0x100;
    var n := if pb.dataSize < 12 then pb.dataSize else 12;
    MeshMsg(pb.protoVersion % 0x100, messageType, pb.dataType,
            if KeepsAddresses(messageType) then pb.origin else own,
            pb.target,
            if KeepsAddresses(messageType) then pb.lastHop else own,
            if pb.hasData then pb.data[..n] + Fill(64 - n, 0) else Fill(64, 0),
            pb.hopCount % 0x100, pb.epochNum, pb.seqNum % 0x1_0000,
            if pb.hasKey then pb.key else Fill(32, 0))
  }

  /** A message after a trip over the serial link: twelve data bytes, the key only where it is carried,
      the two sender addresses only where they are kept. */
  function Bridged(m: MeshMsg, own: Mac): (b: MeshMsg)
  {
    m.(data := m.data[..12] + Fill(52, 0),
       key := if CarriesKey(m.messageType) then m.key else Fill(32, 0),
       origin := if KeepsAddresses(m.messageType) then m.origin else own,
       lastHop := if KeepsAddresses(m.messageType) then m.lastHop else own)
  }

  ghost function WireOf(m: MeshMsg): seq<byte>
  {
    Wire(ToPb(m))
  }

  /** The struct a decoded message leaves in memory. */
  function PbOf(slots: seq<Slot>): (pb: MeshMessage)
    requires SlotsFor(MeshFields(), slots)
    ensures InStruct(pb)
  {
    MeshFits();
    MeshMessage(slots[0].value.n, slots[1].value.n, slots[2].value.bytes, slots[3].value.bytes, slots[4].value.bytes,
                slots[5].has, slots[5].value.size, slots[5].value.buf,
                slots[6].value.n, slots[7].value.n, slots[8].value.n, slots[9].value.n,
                slots[10].has, slots[10].value.size, slots[10].value.buf)
  }

  lemma PbOfToSlots(pb: MeshMessage)
    requires InStruct(pb)
    ensures SlotsFor(MeshFields(), ToSlots(pb)) && PbOf(ToSlots(pb)) == pb
  {
    SlotsOfMessage(pb);
  }

  /** What a payload means to a node: nothing, or a message. */
  ghost function DecodePayload(s: seq<byte>, own: Mac): Option<MeshMsg> {
    MeshFits();
    match Decode(MeshFields(), s)
    case None => None
    case Some(slots) => DefaultsHold(MeshFields()); Some(FromPb(PbOf(slots), own))
  }

  /** decodeMeshMessage of encodeMeshMessage is the message in its bridged form. */
  lemma BridgeRoundTrip(m: MeshMsg, own: Mac)
    ensures FromPb(Carried(ToPb(m)), own) == Bridged(m, own)
  {
    var pb := Carried(ToPb(m));
    assert pb.data == m.data;
    assert !NonZero(m.key) ==> m.key == Fill(32, 0);
    assert pb.hasKey ==> pb.key == m.key;
  }

  lemma PayloadRoundTrip(m: MeshMsg, own: Mac)
    ensures |WireOf(m)| <= MAX_SIZE
    ensures DecodePayload(WireOf(m), own) == Some(Bridged(m, own))
  {
    hide MeshFields, ToPb, ToSlots, Carried, Wire, Decode, FromPb, PbOf, SlotsFor, Bridged;
    MeshRoundTrip(ToPb(m));
    PbOfToSlots(Carried(ToPb(m)));
    BridgeRoundTrip(m, own);
  }

  // ---------- Sizes ----------

  lemma FieldExact(f: FieldInfo, slot: Slot)
    requires CodecField(f) && f.tag < 0x10 && Holds(KindOf(f), slot.value) && InCapacity(slot.value)
    requires slot.value.Number? ==> 0 <= slot.value.n < 0x40
    requires slot.value.Array? ==> |slot.value.bytes| < 0x80
    requires slot.value.Sized? ==> slot.value.size < 0x80
    ensures EncodeField(f, slot).Some?
    ensures |EncodeField(f, slot).value| == if Omitted(f, slot) then 0
                                            else match slot.value
                                                 case Number(_) => 2
                                                 case Array(bytes) => 2 + |bytes|
                                                 case Sized(size, _) => 2 + size
  {
    EncodeLength(Key(f));
    match slot.value
    case Number(n) => EncodeLength(if KindOf(f).Signed? then ZigZag(n) else n);
    case Array(bytes) => EncodeLength(|bytes|);
    case Sized(size, _) => EncodeLength(size);
  }

  /** The enrollment relay message for a node and its public key. */
  function EnrollmentRelay(mac: Mac, pubKey: Bytes32): MeshMsg
  {
    MeshMsg(1, TYPE_ENROLLMENT, 0, mac, ZERO_MAC, ZERO_MAC, Fill(64, 0), 0, 0, 0, pubKey)
  }

  ghost function TailSize(slots: seq<Slot>, i: nat): nat
    requires SlotsFor(MeshFields(), slots) && i <= 11
  {
    match EncodeFrom(MeshFields(), slots, i) case None => 0 case Some(b) => |b|
  }

  /** The relay fills its 128-byte buffer to the last byte when there is a key, and 94 bytes without. */
  lemma EnrollmentRelaySize(mac: Mac, pubKey: Bytes32)
    ensures |WireOf(EnrollmentRelay(mac, pubKey))| == if NonZero(pubKey) then 128 else 94
  {
    var pb := ToPb(EnrollmentRelay(mac, pubKey));
    var slots := ToSlots(pb);
    EncodesMessage(pb);
    SlotsOfMessage(pb);
    MeshFits();
    var fs := MeshFields();
    hide MeshFields, EncodeField, ToSlots, CodecField, KindOf, Holds;
    SlotSizes(pb, slots);
    assert EncodeFrom(fs, slots, 11) == Some([]);
    assert TailSize(slots, 10) == if NonZero(pubKey) then 34 else 0;
    assert TailSize(slots, 9) == TailSize(slots, 10) + 2;
    assert TailSize(slots, 6) == TailSize(slots, 7) == TailSize(slots, 8) == TailSize(slots, 9);
    assert TailSize(slots, 5) == TailSize(slots, 6) + 66;
    assert TailSize(slots, 2) == TailSize(slots, 5) + 24;
  }

  lemma SlotSizes(pb: MeshMessage, slots: seq<Slot>)
    requires InStruct(pb) && Encodable(pb) && slots == ToSlots(pb) && SlotsFor(MeshFields(), slots)
    requires 0 < pb.messageType < 0x40 && pb.dataType == 0 && pb.hasData && pb.dataSize == 64
    requires pb.hopCount == pb.epochNum == pb.seqNum == 0 && 0 < pb.protoVersion < 0x40
    requires pb.hasKey ==> pb.keySize == 32
    ensures forall i | 0 <= i < 11 :: EncodeField(MeshFields()[i], slots[i]).Some?
    ensures |EncodeField(MeshFields()[0], slots[0]).value| == 2 && |EncodeField(MeshFields()[1], slots[1]).value| == 0
    ensures forall i | 2 <= i < 5 :: |EncodeField(MeshFields()[i], slots[i]).value| == 8
    ensures |EncodeField(MeshFields()[5], slots[5]).value| == 66
    ensures forall i | 6 <= i < 9 :: |EncodeField(MeshFields()[i], slots[i]).value| == 0
    ensures |EncodeField(MeshFields()[9], slots[9]).value| == 2
    ensures |EncodeField(MeshFields()[10], slots[10]).value| == if pb.hasKey then 34 else 0
  {
    MeshFits();
    hide EncodeField;
    if pb.hasKey {
      FieldExact(MeshFields()[10], slots[10]);
    } else {
      AbsentField(MeshFields()[10], slots[10]);
    }
    forall i: nat | i < 10
      ensures EncodeField(MeshFields()[i], slots[i]).Some?
      ensures |EncodeField(MeshFields()[i], slots[i]).value|
           == if i == 0 || i == 9 then 2 else if 2 <= i < 5 then 8 else if i == 5 then 66 else 0
    {
      FieldExact(MeshFields()[i], slots[i]);
    }
  }

  lemma AbsentField(f: FieldInfo, slot: Slot)
    requires CodecField(f) && Holds(KindOf(f), slot.value) && Omitted(f, slot)
    ensures EncodeField(f, slot) == Some([])
  {
  }

  // ---------- The methods ----------

  method IsNonZero(s: seq<byte>) returns (nonZero: bool)
    ensures nonZero <==> NonZero(s)
  {
    nonZero := false;
    for i := 0 to |s|
      invariant forall j | 0 <= j < i :: s[j] == 0
    {
      if s[i] != 0 {
        return true;
      }
    }
  }

  /** Sets every member of the struct; the key only for the types that carry it, and only if not zero. */
  method FillStruct(msg: MeshMsg) returns (pb: array<Slot>)
    ensures fresh(pb) && pb[..] == ToSlots(ToPb(msg))
  {
    hide ToSlots, ToPb, NonZero, Fill;
    pb := new Slot[11](_ => Slot(false, Number(0)));
    pb[0] := Slot(false, Number(msg.messageType));
    pb[1] := Slot(false, Number(msg.dataType));
    pb[6] := Slot(false, Number(msg.hopCount));
    pb[7] := Slot(false, Number(msg.epochNum));
    pb[8] := Slot(false, Number(msg.seqNum));
    pb[9] := Slot(false, Number(msg.protoVersion));
    pb[2] := Slot(false, Array(msg.origin));
    pb[3] := Slot(false, Array(msg.target));
    pb[4] := Slot(false, Array(msg.lastHop));
    pb[5] := Slot(true, Sized(64, msg.data));
    pb[10] := Slot(false, Sized(0, Fill(32, 0)));
    if CarriesKey(msg.messageType) {
      var nonZero := IsNonZero(msg.key);
      if nonZero {
        pb[10] := Slot(true, Sized(32, msg.key));
      }
    }
    FilledStruct(msg, pb[..]);
  }

  /** Fills the struct and encodes it; zero when the buffer is too small. */
  method EncodeMeshMessage(msg: MeshMsg, out: array<byte>, outCap: nat) returns (n: nat)
    requires outCap <= out.Length
    modifies out
    ensures n == if |WireOf(msg)| <= outCap then |WireOf(msg)| else 0
    ensures out[..n] == WireOf(msg)[..n]
    ensures MAX_SIZE <= outCap ==> n == |WireOf(msg)|
  {
    hide MeshFields, MeshDesc, Wire, CodecField, WellFormed, Describes, SlotsFor, EncodeFrom, ToSlots, ToPb,
         PbMessage.InCapacities;
    var pb := FillStruct(msg);
    WireIsEncoding(ToPb(msg));
    MeshDescribed();
    PayloadRoundTrip(msg, ZERO_MAC);
    var stream := new OStream.FromBuffer(out, outCap);
    var ok := PbMessage.Encode(stream, MeshDesc(), MeshFields(), pb);
    if !ok {
      return 0;
    }
    n := stream.bytesWritten;
    assert stream.Written() == WireOf(msg);
  }

  lemma FilledStruct(m: MeshMsg, slots: seq<Slot>)
    requires |slots| == 11
    requires slots[0] == Slot(false, Number(m.messageType)) && slots[1] == Slot(false, Number(m.dataType))
    requires slots[2] == Slot(false, Array(m.origin)) && slots[3] == Slot(false, Array(m.target))
    requires slots[4] == Slot(false, Array(m.lastHop)) && slots[5] == Slot(true, Sized(64, m.data))
    requires slots[6] == Slot(false, Number(m.hopCount)) && slots[7] == Slot(false, Number(m.epochNum))
    requires slots[8] == Slot(false, Number(m.seqNum)) && slots[9] == Slot(false, Number(m.protoVersion))
    requires slots[10] == if CarriesKey(m.messageType) && NonZero(m.key) then Slot(true, Sized(32, m.key))
                          else Slot(false, Sized(0, Fill(32, 0)))
    ensures slots == ToSlots(ToPb(m))
  {
  }

  lemma WireIsEncoding(pb: MeshMessage)
    requires InStruct(pb) && Encodable(pb)
    ensures SlotsFor(MeshFields(), ToSlots(pb))
    ensures EncodeFrom(MeshFields(), ToSlots(pb), 0) == Some(Wire(pb))
  {
    EncodesMessage(pb);
  }

  /** Decodes a payload into a message; false when it is not a well-formed one. */
  method DecodeMeshMessage(data: seq<byte>, len: nat, own: Mac) returns (ok: bool, outMsg: MeshMsg)
    requires len <= |data|
    ensures ok <==> DecodePayload(data[..len], own).Some?
    ensures ok ==> outMsg == DecodePayload(data[..len], own).value
  {
    outMsg := MeshMsg(0, 0, 0, ZERO_MAC, ZERO_MAC, ZERO_MAC, Fill(64, 0), 0, 0, 0, Fill(32, 0));
    hide MeshFields, MeshDesc, CodecField, WellFormed, Describes, SlotsFor, PbOf, FromPb, PbMessage.InCapacities;
    MeshDescribed();
    var pb := new Slot[11](_ => Slot(false, Number(0)));
    var stream := new IStream.FromBuffer(data, len);
    ok := PbMessage.Decode(stream, MeshDesc(), MeshFields(), pb);
    if ok {
      outMsg := FromPb(PbOf(pb[..]), own);
    }
  }

  /** relayEnrollmentToServer: the bytes it puts on the serial line, which are never none. */
  method RelayEnrollmentToServer(mac: Mac, pubKey: Bytes32) returns (sent: seq<byte>)
    ensures |WireOf(EnrollmentRelay(mac, pubKey))| <= 128
    ensures sent == Framed(WireOf(EnrollmentRelay(mac, pubKey)))
  {
    hide WireOf;
    var msg := EnrollmentRelay(mac, pubKey);
    EnrollmentRelaySize(mac, pubKey);
    var encoded := new byte[128];
    var n := EncodeMeshMessage(msg, encoded, 128);
    if n == 0 {
      return [];
    }
    assert WireOf(msg)[..n] == WireOf(msg);
    sent := [n % 0x100, n / 0x100] + encoded[..n];
  }

  // ---------- End to end ----------

  ghost function WiresOf(ms: seq<MeshMsg>): (ws: seq<seq<byte>>)
    ensures |ws| == |ms| && forall i | 0 <= i < |ms| :: ws[i] == WireOf(ms[i])
  {
    seq(|ms|, i requires 0 <= i < |ms| => WireOf(ms[i]))
  }

  /** Any messages, encoded, framed and sent back to back: the parser finds one payload for each, in order, each of
      which decodes to the message's bridged form. */
  lemma SerialEndToEnd(ms: seq<MeshMsg>, own: Mac)
    ensures forall w | w in WiresOf(ms) :: 1 <= |w| <= MAX_PAYLOAD
    ensures Parse(FramedAll(WiresOf(ms))) == Parsed(WiresOf(ms), [])
    ensures forall i | 0 <= i < |ms| :: DecodePayload(WiresOf(ms)[i], own) == Some(Bridged(ms[i], own))
  {
    hide WireOf, DecodePayload, Bridged;
    forall i | 0 <= i < |ms|
      ensures DecodePayload(WireOf(ms[i]), own) == Some(Bridged(ms[i], own)) && 1 <= |WireOf(ms[i])| <= MAX_PAYLOAD
    {
      PayloadRoundTrip(ms[i], own);
      WireNotEmpty(ms[i]);
    }
    FramingRoundTrip(WiresOf(ms));
  }

  /** The sending side: each message encoded into a payload buffer, then its length and its bytes. Nothing is left
      out, since every message fits. */
  method SendAll(ms: seq<MeshMsg>) returns (line: seq<byte>)
    ensures (forall w | w in WiresOf(ms) :: |w| < 0x1_0000) && line == FramedAll(WiresOf(ms))
  {
    hide WireOf, FramedAll, Framed;
    line := [];
    SerialEndToEnd(ms, ZERO_MAC);
    NothingFramed(WiresOf(ms));
    for i := 0 to |ms|
      invariant line == FramedAll(WiresOf(ms)[..i])
    {
      PayloadRoundTrip(ms[i], ZERO_MAC);
      var encoded := new byte[MAX_PAYLOAD];
      var n := EncodeMeshMessage(ms[i], encoded, MAX_PAYLOAD);
      assert WiresOf(ms)[i] in WiresOf(ms);
      assert WireOf(ms[i])[..n] == WireOf(ms[i]);
      if n > 0 {
        FramedNext(WiresOf(ms), i);
        line := line + [n % 0x100, n / 0x100] + encoded[..n];
      }
    }
    assert WiresOf(ms)[..|ms|] == WiresOf(ms);
  }

  /** The receiving side, over the same bytes in any chunks whatever: an idle receiver ends idle and has given
      exactly the messages that were sent, in order, each in its bridged form. */
  method ReceiveMessages(rx: Receiver, chunks: seq<seq<byte>>, own: Mac, ghost ms: seq<MeshMsg>)
    returns (got: seq<MeshMsg>)
    requires rx.Valid() && rx.Pending() == [] && rx.handled == []
    requires (forall w | w in WiresOf(ms) :: |w| < 0x1_0000) && Joined(chunks) == FramedAll(WiresOf(ms))
    modifies rx, rx.payloadBuffer
    ensures rx.Valid() && rx.Pending() == [] && rx.handled == WiresOf(ms)
    ensures |got| == |ms| && forall i | 0 <= i < |ms| :: got[i] == Bridged(ms[i], own)
  {
    hide WireOf, WiresOf, DecodePayload, Bridged, Parse, FramedAll, Joined;
    SerialEndToEnd(ms, own);
    rx.ReceiveFramed(chunks, WiresOf(ms));
    got := DecodeAll(rx.handled, own);
  }

  /** Decodes payloads that are all well formed. */
  method DecodeAll(payloads: seq<seq<byte>>, own: Mac) returns (got: seq<MeshMsg>)
    requires forall i | 0 <= i < |payloads| :: DecodePayload(payloads[i], own).Some?
    ensures |got| == |payloads| && forall i | 0 <= i < |got| :: got[i] == DecodePayload(payloads[i], own).value
  {
    hide DecodePayload;
    got := [];
    for i := 0 to |payloads|
      invariant |got| == i && forall k | 0 <= k < i :: got[k] == DecodePayload(payloads[k], own).value
    {
      assert payloads[i][..|payloads[i]|] == payloads[i];
      var ok, msg := DecodeMeshMessage(payloads[i], |payloads[i]|, own);
      got := got + [msg];
    }
  }

  lemma WireNotEmpty(m: MeshMsg)
    ensures WireOf(m) != []
  {
    var slots := ToSlots(ToPb(m));
    EncodesMessage(ToPb(m));
    assert slots[2].value == Array(m.origin);
    assert EncodeFrom(MeshFields(), slots, 1).Some? && EncodeFrom(MeshFields(), slots, 2).Some?;
  }
}
