/**
 The serial link as the server sees it: the bytes of each message, and which parts of a message come through, by
 the numbers of the message types.
 */
module ServerLink {
  import opened Basics
  import opened MeshTypes
  import opened MessageCodec
  import opened MeshSchema
  import opened SerialFraming
  import opened SerialBridge
  import opened WireFormat

  /** What the node sends for a message. All 64 data bytes go, and the key of an enrollment or acknowledgement if it is
      not all zero. */
  lemma SentBytes(m: MeshMsg)
    ensures WireOf(m)
            == NumberBytes(0x08, m.messageType) + NumberBytes(0x10, SignedCode(m.dataType))
               + StringBytes(0x1A, m.origin) + StringBytes(0x22, m.target) + StringBytes(0x2A, m.lastHop)
               + StringBytes(0x32, m.data)
               + NumberBytes(0x38, m.hopCount) + NumberBytes(0x40, m.epochNum) + NumberBytes(0x48, m.seqNum)
               + NumberBytes(0x50, m.protoVersion)
               + (if (m.messageType == 2 || m.messageType == 4) && (exists i :: 0 <= i < 32 && m.key[i] != 0)
                  then StringBytes(0x5A, m.key) else [])
  {
    hide Wire, NumberBytes, StringBytes, SignedCode;
    WireIs(ToPb(m));
    assert m.data[..64] == m.data && m.key[..32] == m.key;
  }

  /** The enrollment relayed to the server, byte for byte: type 2, the node's address, no other addresses, 64 zero data
      bytes, version 1, and the key unless it is all zero. */
  lemma EnrollmentBytes(mac: Mac, pubKey: Bytes32)
    ensures WireOf(EnrollmentRelay(mac, pubKey))
            == [0x08, 2] + StringBytes(0x1A, mac) + StringBytes(0x22, [0, 0, 0, 0, 0, 0])
               + StringBytes(0x2A, [0, 0, 0, 0, 0, 0]) + StringBytes(0x32, Fill(64, 0)) + [0x50, 1]
               + (if exists i :: 0 <= i < 32 && pubKey[i] != 0 then StringBytes(0x5A, pubKey) else [])
  {
    hide WireOf, Fill, StringBytes, NumberBytes;
    SentBytes(EnrollmentRelay(mac, pubKey));
    SmallNumbers();
  }

  lemma SmallNumbers()
    ensures NumberBytes(0x08, 2) == [0x08, 2] && NumberBytes(0x50, 1) == [0x50, 1]
    ensures forall key: byte, b: seq<byte> :: b + NumberBytes(key, 0) == b
    ensures SignedCode(0) == 0
  {
  }

  /** What comes back of a message sent over the link. Commands to the mesh (3) and acknowledgements (4) keep both
      sender addresses, all others get the node's own; the key comes through for enrollments (2) and acknowledgements;
      of the data the first twelve bytes do. */
  lemma ReceivedByType(m: MeshMsg, own: Mac)
    ensures var kept := m.messageType == 3 || m.messageType == 4;
            var keyed := m.messageType == 2 || m.messageType == 4;
            var d := DecodePayload(WireOf(m), own);
            && d.Some?
            && d.value == m.(origin := if kept then m.origin else own, lastHop := if kept then m.lastHop else own,
                             data := d.value.data, key := d.value.key)
            && (forall i | 0 <= i < 64 :: d.value.data[i] == if i < 12 then m.data[i] else 0)
            && (forall i | 0 <= i < 32 :: d.value.key[i] == if keyed then m.key[i] else 0)
  {
    hide WireOf, DecodePayload;
    PayloadRoundTrip(m, own);
    var b := Bridged(m, own);
    assert forall i | 0 <= i < 12 :: b.data[i] == m.data[..12][i];
  }

  /** And what a node makes of anything the server encodes: numbers are cut to the width of the radio message, data to
      twelve bytes, and what is not there is zero. */
  lemma ServerMessage(pb: MeshMessage, own: Mac)
    requires InStruct(pb) && Encodable(pb)
    ensures var kept := pb.messageType % 0x100 == 3 || pb.messageType % 0x100 == 4;
            var d := DecodePayload(Wire(pb), own);
            && d.Some?
            && d.value == MeshMsg(pb.protoVersion % 0x100, pb.messageType % 0x100, pb.dataType,
                                  if kept then pb.origin else own, pb.target, if kept then pb.lastHop else own,
                                  d.value.data, pb.hopCount % 0x100, pb.epochNum, pb.seqNum % 0x1_0000, d.value.key)
            && (forall i | 0 <= i < 64 ::
                  d.value.data[i] == if pb.hasData && i < 12 && i < pb.dataSize then pb.data[i] else 0)
            && (forall i | 0 <= i < 32 :: d.value.key[i] == if pb.hasKey && i < pb.keySize then pb.key[i] else 0)
  {
    hide Wire, DecodePayload, Carried;
    DecodedServer(pb, own);
    CarriedBytes(pb);
    var c := Carried(pb);
    var n := if c.dataSize < 12 then c.dataSize else 12;
    assert forall i | 0 <= i < n :: c.data[..n][i] == c.data[i];
  }

  lemma DecodedServer(pb: MeshMessage, own: Mac)
    requires InStruct(pb) && Encodable(pb)
    ensures DecodePayload(Wire(pb), own) == Some(FromPb(Carried(pb), own))
  {
    hide MeshFields, ToSlots, Carried, Wire, Decode, FromPb, PbOf, SlotsFor;
    MeshRoundTrip(pb);
    PbOfToSlots(Carried(pb));
  }

  lemma CarriedBytes(pb: MeshMessage)
    requires InStruct(pb) && Encodable(pb)
    ensures var c := Carried(pb);
            && c == pb.(dataSize := c.dataSize, data := c.data, keySize := c.keySize, key := c.key)
            && c.dataSize == (if pb.hasData then pb.dataSize else 0)
            && c.keySize == (if pb.hasKey then pb.keySize else 0)
            && (forall i | 0 <= i < 64 :: c.data[i] == if pb.hasData && i < pb.dataSize then pb.data[i] else 0)
            && (forall i | 0 <= i < 32 :: c.key[i] == if pb.hasKey && i < pb.keySize then pb.key[i] else 0)
  {
  }

  // ---------- Frames ----------

  /** A frame is its length, low byte first, and its payload: lengths from 1 to 256 are taken, the others cost the
      two bytes of the length and nothing more, and an unfinished frame waits. */
  lemma FrameBytes(lo: byte, hi: byte, s: seq<byte>)
    ensures var len := lo as int + 0x100 * (hi as int);
            var p := Parse([lo, hi] + s);
            if len == 0 || len > 256 then p == Parse(s)
            else if |s| < len then p == Parsed([], [lo, hi] + s)
            else p == Parsed([s[..len]] + Parse(s[len..]).frames, Parse(s[len..]).rest)
    ensures Parse([lo]) == Parsed([], [lo]) && Parse([]) == Parsed([], [])
  {
    var t := [lo, hi] + s;
    assert t[2..] == s;
    var len := lo as int + 0x100 * (hi as int);
    if 0 < len <= |s| {
      assert t[2..2 + len] == s[..len] && t[2 + len..] == s[len..];
    }
  }
}
