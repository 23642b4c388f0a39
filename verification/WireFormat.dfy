/**
 The bytes themselves: what a message looks like on the wire, and what single records mean to the decoder,
 in the numbers of the Protocol Buffers encoding and of this schema.
 */
module WireFormat {
  import opened Basics
  import opened Varint
  import opened PbStreams
  import opened FieldIterator
  import opened MessageCodec
  import opened RecordOrder
  import opened MeshSchema

  lemma VarintSamples()
    ensures VarintBytes(0) == [0x00] && VarintBytes(1) == [0x01] && VarintBytes(127) == [0x7F]
    ensures VarintBytes(128) == [0x80, 0x01] && VarintBytes(300) == [0xAC, 0x02]
  {
    assert VarintBytes(300) == [0x80 + 300 % 0x80] + VarintBytes(2);
  }

  // ---------- Messages ----------

  /** A number under its key byte; zero is not sent. */
  function NumberBytes(key: byte, v: nat): seq<byte> {
    if v == 0 then [] else [key] + VarintBytes(v)
  }

  /** A byte string of less than 128 bytes under its key byte, length first. */
  function StringBytes(key: byte, b: seq<byte>): seq<byte>
    requires |b| < 0x80
  {
    [key, |b|] + b
  }

  /** Non-negative numbers are doubled, negative ones fill the odd codes. */
  function SignedCode(n: int): nat { if n >= 0 then 2 * n else 2 * -n - 1 }

  lemma NumberField(f: FieldInfo, slot: Slot)
    requires CodecField(f) && f.tag < 0x10 && !HasFlag(f) && KindOf(f).Unsigned? && Holds(KindOf(f), slot.value)
    ensures EncodeField(f, slot) == Some(NumberBytes(8 * f.tag, slot.value.n))
  {
  }

  lemma SignedField(f: FieldInfo, slot: Slot)
    requires CodecField(f) && f.tag < 0x10 && !HasFlag(f) && KindOf(f).Signed? && Holds(KindOf(f), slot.value)
    ensures EncodeField(f, slot) == Some(NumberBytes(8 * f.tag, SignedCode(slot.value.n)))
  {
  }

  lemma FixedField(f: FieldInfo, slot: Slot)
    requires CodecField(f) && f.tag < 0x10 && !HasFlag(f) && KindOf(f).FixedBytes? && Holds(KindOf(f), slot.value)
    requires 0 < |slot.value.bytes| < 0x80
    ensures EncodeField(f, slot) == Some(StringBytes(8 * f.tag + 2, slot.value.bytes))
  {
    var b := slot.value.bytes;
    assert [8 * f.tag + 2] + ([|b|] + b) == [8 * f.tag + 2, |b|] + b;
  }

  lemma OptionalField(f: FieldInfo, slot: Slot)
    requires CodecField(f) && f.tag < 0x10 && HasFlag(f) && KindOf(f).BoundedBytes? && Holds(KindOf(f), slot.value)
    requires slot.has ==> slot.value.size <= |slot.value.buf| && slot.value.size < 0x80
    ensures EncodeField(f, slot)
            == Some(if slot.has then StringBytes(8 * f.tag + 2, slot.value.buf[..slot.value.size]) else [])
  {
    if slot.has {
      var b := slot.value.buf[..slot.value.size];
      assert [8 * f.tag + 2] + ([|b|] + b) == [8 * f.tag + 2, |b|] + b;
    }
  }

  /** Every message on the wire, byte for byte: fields in tag order, zero numbers left out, addresses always there, the
      optional byte strings when present. */
  function Written(m: MeshMessage): seq<byte>
    requires InStruct(m) && Encodable(m)
  {
    NumberBytes(0x08, m.messageType) + NumberBytes(0x10, SignedCode(m.dataType))
    + StringBytes(0x1A, m.origin) + StringBytes(0x22, m.target) + StringBytes(0x2A, m.lastHop)
    + (if m.hasData then StringBytes(0x32, m.data[..m.dataSize]) else [])
    + NumberBytes(0x38, m.hopCount) + NumberBytes(0x40, m.epochNum) + NumberBytes(0x48, m.seqNum)
    + NumberBytes(0x50, m.protoVersion)
    + (if m.hasKey then StringBytes(0x5A, m.key[..m.keySize]) else [])
  }

  /** The parts of `Written`, field by field. */
  function Part(m: MeshMessage, i: nat): seq<byte>
    requires InStruct(m) && Encodable(m) && i < 11
  {
    match i
    case 0 => NumberBytes(0x08, m.messageType)
    case 1 => NumberBytes(0x10, SignedCode(m.dataType))
    case 2 => StringBytes(0x1A, m.origin)
    case 3 => StringBytes(0x22, m.target)
    case 4 => StringBytes(0x2A, m.lastHop)
    case 5 => if m.hasData then StringBytes(0x32, m.data[..m.dataSize]) else []
    case 6 => NumberBytes(0x38, m.hopCount)
    case 7 => NumberBytes(0x40, m.epochNum)
    case 8 => NumberBytes(0x48, m.seqNum)
    case 9 => NumberBytes(0x50, m.protoVersion)
    case _ => if m.hasKey then StringBytes(0x5A, m.key[..m.keySize]) else []
  }

  lemma PartIsField(m: MeshMessage, i: nat)
    requires InStruct(m) && Encodable(m) && i < 11
    ensures SlotsFor(MeshFields(), ToSlots(m))
    ensures EncodeField(MeshFields()[i], ToSlots(m)[i]) == Some(Part(m, i))
  {
    hide EncodeField, NumberBytes, StringBytes, SignedCode;
    SlotsOfMessage(m);
    MeshFits();
    var f, slot := MeshFields()[i], ToSlots(m)[i];
    if i == 1 {
      SignedField(f, slot);
    } else if 2 <= i < 5 {
      FixedField(f, slot);
    } else if i == 5 || i == 10 {
      OptionalField(f, slot);
    } else {
      NumberField(f, slot);
    }
  }

  function PartsFrom(m: MeshMessage, i: nat): seq<byte>
    requires InStruct(m) && Encodable(m) && i <= 11
    decreases 11 - i
  {
    if i == 11 then [] else Part(m, i) + PartsFrom(m, i + 1)
  }

  lemma {:induction false} PartsAreEncoding(m: MeshMessage, i: nat)
    requires InStruct(m) && Encodable(m) && i <= 11
    ensures SlotsFor(MeshFields(), ToSlots(m))
    ensures EncodeFrom(MeshFields(), ToSlots(m), i) == Some(PartsFrom(m, i))
    decreases 11 - i
  {
    hide EncodeField, Part, MeshFields, ToSlots, SlotsFor;
    EncodesMessage(m);
    FieldsCount(m);
    if i < 11 {
      PartIsField(m, i);
      PartsAreEncoding(m, i + 1);
    }
  }

  lemma FieldsCount(m: MeshMessage)
    requires InStruct(m)
    ensures |MeshFields()| == |ToSlots(m)| == 11
  {
  }

  lemma WireIs(m: MeshMessage)
    requires InStruct(m) && Encodable(m)
    ensures Wire(m) == Written(m)
  {
    hide Wire, NumberBytes, StringBytes, SignedCode, MeshFields, ToSlots;
    WireIsEncoded(m);
    PartsAreEncoding(m, 0);
    var p := (i: nat) requires i < 11 => Part(m, i);
    assert PartsFrom(m, 11) == [] && PartsFrom(m, 10) == p(10) + [] && PartsFrom(m, 9) == p(9) + PartsFrom(m, 10);
    assert PartsFrom(m, 8) == p(8) + PartsFrom(m, 9) && PartsFrom(m, 7) == p(7) + PartsFrom(m, 8);
    assert PartsFrom(m, 6) == p(6) + PartsFrom(m, 7) && PartsFrom(m, 5) == p(5) + PartsFrom(m, 6);
    assert PartsFrom(m, 4) == p(4) + PartsFrom(m, 5) && PartsFrom(m, 3) == p(3) + PartsFrom(m, 4);
    assert PartsFrom(m, 2) == p(2) + PartsFrom(m, 3) && PartsFrom(m, 1) == p(1) + PartsFrom(m, 2);
    assert PartsFrom(m, 0) == p(0) + PartsFrom(m, 1);
    Eleven(p(0), p(1), p(2), p(3), p(4), p(5), p(6), p(7), p(8), p(9), p(10));
  }

  lemma WireIsEncoded(m: MeshMessage)
    requires InStruct(m) && Encodable(m)
    ensures SlotsFor(MeshFields(), ToSlots(m)) && EncodeFrom(MeshFields(), ToSlots(m), 0) == Some(Wire(m))
  {
    EncodesMessage(m);
  }

  lemma Eleven(a: seq<byte>, b: seq<byte>, c: seq<byte>, d: seq<byte>, e: seq<byte>, f: seq<byte>, g: seq<byte>,
               h: seq<byte>, i: seq<byte>, j: seq<byte>, k: seq<byte>)
    ensures a + (b + (c + (d + (e + (f + (g + (h + (i + (j + (k + []))))))))))
            == a + b + c + d + e + f + g + h + i + j + k
  {
    assert a + b + c + d + e + f + g + h + i + j + k == (a + b + c + d + e) + (f + g + h + i + j + k);
    assert f + (g + (h + (i + (j + (k + []))))) == f + g + h + i + j + k;
    assert a + (b + (c + (d + (e + (f + g + h + i + j + k))))) == (a + b + c + d + e) + (f + g + h + i + j + k);
  }

  // ---------- Records ----------

  /** A key and a complete body, at the front of anything, are one record. */
  lemma CutRaw(tag: nat, wireType: nat, raw: seq<byte>, t: seq<byte>)
    requires 0 < tag && wireType < 8 && 8 * tag + wireType < TWO_32 && BodyLength(wireType, raw) == Some(|raw|)
    ensures var s := VarintBytes(8 * tag + wireType) + raw;
            && CutRecord(s + t) == Some(Cut(Record(tag, wireType, BodyOf(wireType, raw)), |s|))
            && (s + t)[|s|..] == t
  {
    hide VarintBytes, Varint32, BodyLength, BodyOf;
    var key := VarintBytes(8 * tag + wireType);
    assert (key + raw) + t == key + (raw + t);
    RoundTrip32(8 * tag + wireType, raw + t);
    BodyPrefix(wireType, raw, t);
    assert (8 * tag + wireType) / 8 == tag && (8 * tag + wireType) % 8 == wireType;
  }

  /** What counts as a complete body: a varint; eight bytes; a length and that many bytes; four bytes. */
  predicate Complete(wireType: nat, raw: seq<byte>) {
    || (wireType == 0 && |raw| > 0 && raw[|raw| - 1] < 0x80 && forall i | 0 <= i < |raw| - 1 :: raw[i] >= 0x80)
    || (wireType == 1 && |raw| == 8)
    || (wireType == 2 && |raw| > 0 && raw[0] < 0x80 && |raw| == 1 + raw[0])
    || (wireType == 5 && |raw| == 4)
  }

  lemma CompleteBody(wireType: nat, raw: seq<byte>)
    requires Complete(wireType, raw)
    ensures BodyLength(wireType, raw) == Some(|raw|)
    ensures BodyOf(wireType, raw) == if wireType == 2 then raw[1..] else raw
  {
    if wireType == 0 {
      LengthIs(raw, |raw|);
    } else if wireType == 2 {
      ShortLength(raw);
    }
  }

  lemma ShortLength(raw: seq<byte>)
    requires |raw| > 0 && raw[0] < 0x80
    ensures Varint32(raw) == Some(Decoded(raw[0], 1))
  {
    assert VarintBytes(raw[0]) == [raw[0]];
    RoundTrip32(raw[0], raw[1..]);
    assert [raw[0]] + raw[1..] == raw;
  }

  /** A complete record of an unknown field, in front of anything, is passed over by its wire type. */
  lemma UnknownSkipped(tag: nat, wireType: nat, raw: seq<byte>, rest: seq<byte>)
    requires tag > 11 && 8 * tag + wireType < TWO_32 && Complete(wireType, raw)
    ensures forall f | f in MeshFields() :: CodecField(f)
    ensures Decode(MeshFields(), VarintBytes(8 * tag + wireType) + raw + rest) == Decode(MeshFields(), rest)
  {
    hide VarintBytes, CutRecord, BodyLength, BodyOf, DecodeOnto, Complete;
    MeshDescribed();
    DefaultsHold(MeshFields());
    KnownTypes(wireType, raw);
    CompleteBody(wireType, raw);
    CutRaw(tag, wireType, raw, rest);
    DecodeStep(MeshFields(), Defaults(MeshFields()), VarintBytes(8 * tag + wireType) + raw + rest);
    NoSuchField(tag);
  }

  lemma KnownTypes(wireType: nat, raw: seq<byte>)
    requires Complete(wireType, raw)
    ensures wireType < 8 && raw != []
  {
  }

  lemma NoSuchField(tag: nat)
    requires tag > 11
    ensures IndexOf(MeshFields(), tag) == 11
  {
    forall i: nat | i < 11 ensures MeshFields()[i].tag != tag {
      TagIsPosition(i);
    }
  }

  lemma BadStart(s: seq<byte>)
    requires s != [] && CutRecord(s) == None
    ensures forall f | f in MeshFields() :: CodecField(f)
    ensures Decode(MeshFields(), s) == None
  {
    hide CutRecord, DecodeOnto, MeshFields, CodecField;
    MeshDescribed();
    DefaultsHold(MeshFields());
    DecodeStep(MeshFields(), Defaults(MeshFields()), s);
  }

  /** And every record of wire type 3, 4, 6 or 7 is an error, known field or not. */
  lemma OtherTypesRefused(tag: nat, wireType: nat, rest: seq<byte>)
    requires 0 < tag && wireType in {3, 4, 6, 7} && 8 * tag + wireType < TWO_32
    ensures forall f | f in MeshFields() :: CodecField(f)
    ensures Decode(MeshFields(), VarintBytes(8 * tag + wireType) + rest) == None
  {
    hide *;
    OtherTypesCut(tag, wireType, rest);
    BadStart(VarintBytes(8 * tag + wireType) + rest);
  }

  lemma OtherTypesCut(tag: nat, wireType: nat, rest: seq<byte>)
    requires 0 < tag && wireType in {3, 4, 6, 7} && 8 * tag + wireType < TWO_32
    ensures VarintBytes(8 * tag + wireType) != [] && CutRecord(VarintBytes(8 * tag + wireType) + rest) == None
  {
    hide VarintBytes, Varint32, BodyOf;
    RoundTrip32(8 * tag + wireType, rest);
    assert (8 * tag + wireType) % 8 == wireType;
  }

  /** A message of one record of field `i`, numbered from 0. */
  lemma OneRecord(i: nat, wireType: nat, raw: seq<byte>)
    requires i < 11 && Complete(wireType, raw)
    ensures forall f | f in MeshFields() :: CodecField(f)
    ensures var f, slots, body := MeshFields()[i], Defaults(MeshFields()), if wireType == 2 then raw[1..] else raw;
            var read := ReadSlot(f, DefaultSlot(f), Record(i + 1, wireType, body));
            Decode(MeshFields(), [8 * (i + 1) + wireType] + raw)
            == if read.None? then None else Some(slots[i := read.value])
  {
    hide *;
    MeshTags(i);
    KnownTypes(wireType, raw);
    CompleteBody(wireType, raw);
    RecordAlone(MeshFields(), i, wireType, raw);
  }

  /** So is a record of field 0, which does not exist. */
  lemma ZeroTagRefused(wireType: nat, rest: seq<byte>)
    requires wireType < 8
    ensures forall f | f in MeshFields() :: CodecField(f)
    ensures Decode(MeshFields(), [wireType] + rest) == None
  {
    hide *;
    ZeroTagCut(wireType, rest);
    BadStart([wireType] + rest);
  }

  lemma ZeroTagCut(wireType: nat, rest: seq<byte>)
    requires wireType < 8
    ensures CutRecord([wireType] + rest) == None
  {
    hide Varint32, BodyOf, BodyLength;
    ShortLength([wireType] + rest);
  }

  /** What can no longer become a complete body however it goes on to the end of the input. */
  predicate Incomplete(wireType: nat, raw: seq<byte>) {
    || (wireType == 0 && forall i | 0 <= i < |raw| :: raw[i] >= 0x80)
    || (wireType == 1 && |raw| < 8)
    || (wireType == 2 && (raw == [] || (raw[0] < 0x80 && |raw| < 1 + raw[0])))
    || (wireType == 5 && |raw| < 4)
  }

  /** An input that ends in the middle of a record is an error, known field or not. */
  lemma IncompleteRefused(tag: nat, wireType: nat, raw: seq<byte>)
    requires 0 < tag && 8 * tag + wireType < TWO_32 && Incomplete(wireType, raw)
    ensures forall f | f in MeshFields() :: CodecField(f)
    ensures Decode(MeshFields(), VarintBytes(8 * tag + wireType) + raw) == None
  {
    hide *;
    IncompleteCut(tag, wireType, raw);
    BadStart(VarintBytes(8 * tag + wireType) + raw);
  }

  lemma IncompleteCut(tag: nat, wireType: nat, raw: seq<byte>)
    requires 0 < tag && 8 * tag + wireType < TWO_32 && Incomplete(wireType, raw)
    ensures VarintBytes(8 * tag + wireType) != [] && CutRecord(VarintBytes(8 * tag + wireType) + raw) == None
  {
    hide VarintBytes, Varint32, BodyOf, BodyLength;
    RoundTrip32(8 * tag + wireType, raw);
    assert wireType < 8 && (8 * tag + wireType) % 8 == wireType;
    IncompleteBody(wireType, raw);
  }

  lemma IncompleteBody(wireType: nat, raw: seq<byte>)
    requires Incomplete(wireType, raw)
    ensures BodyLength(wireType, raw) == None
  {
    hide Varint32;
    if wireType == 2 {
      if raw == [] { NothingToRead(); } else { ShortLength(raw); }
    }
  }

  lemma NothingToRead()
    ensures Varint32([]) == None
  {
  }

  lemma MeshTags(i: nat)
    requires i < 11
    ensures CodecFields(MeshFields()) && MeshFields()[i].tag == i + 1
    ensures forall f | f in MeshFields() :: CodecField(f)
  {
    MeshDescribed();
    TagIsPosition(i);
  }

  lemma RecordAlone(fields: seq<FieldInfo>, i: nat, wireType: nat, raw: seq<byte>)
    requires CodecFields(fields) && i < |fields| && fields[i].tag < 0x10 && wireType < 8
    requires BodyLength(wireType, raw) == Some(|raw|)
    ensures SlotsFor(fields, Defaults(fields))
    ensures var f, slots, body := fields[i], Defaults(fields), BodyOf(wireType, raw);
            var read := ReadSlot(f, DefaultSlot(f), Record(f.tag, wireType, body));
            Decode(fields, [8 * f.tag + wireType] + raw) == if read.None? then None else Some(slots[i := read.value])
  {
    hide CutRecord, BodyLength, BodyOf, DecodeOnto, ReadSlot, CodecField, Apply;
    DefaultsHold(fields);
    assert Fits(fields[i]) by { assert CodecField(fields[i]) by { hide *; assert fields[i] in fields; } }
    var tag := fields[i].tag;
    var s := [8 * tag + wireType] + raw;
    CutAlone(tag, wireType, raw);
    var r := Record(tag, wireType, BodyOf(wireType, raw));
    ApplyField(fields, i, r);
    DecodeStep(fields, Defaults(fields), s);
    assert s[|s|..] == [];
    var next := Apply(fields, Defaults(fields), r);
    if next.Some? { DecodeNothing(fields, next.value); }
  }

  lemma CutAlone(tag: nat, wireType: nat, raw: seq<byte>)
    requires 0 < tag < 0x10 && wireType < 8 && BodyLength(wireType, raw) == Some(|raw|)
    ensures var s := [8 * tag + wireType] + raw;
            CutRecord(s) == Some(Cut(Record(tag, wireType, BodyOf(wireType, raw)), |s|))
  {
    hide CutRecord, BodyLength, BodyOf;
    assert VarintBytes(8 * tag + wireType) == [8 * tag + wireType];
    CutRaw(tag, wireType, raw, []);
    var s := [8 * tag + wireType] + raw;
    assert s + [] == s;
  }

  lemma ApplyField(fields: seq<FieldInfo>, i: nat, r: Record)
    requires CodecFields(fields) && i < |fields| && r.tag == fields[i].tag
    ensures SlotsFor(fields, Defaults(fields))
    ensures var f, slots := fields[i], Defaults(fields);
            var read := ReadSlot(f, DefaultSlot(f), r);
            Apply(fields, slots, r) == if read.None? then None else Some(slots[i := read.value])
  {
    hide ReadSlot, CodecField, IndexOf, DefaultSlot;
    DefaultsHold(fields);
    IndexOfField(fields, i);
  }

  lemma VarintComplete(v: nat)
    ensures Complete(0, VarintBytes(v))
  {
    EncodeTerminates(v);
    var b := VarintBytes(v);
    assert 0 < |b| && b[|b| - 1] < 0x80 && forall i | 0 <= i < |b| - 1 :: b[i] >= 0x80;
  }

  /** An unsigned number of 32 bits is taken; a larger one is an error, not cut down. */
  lemma NumberRecord(i: nat, v: uint64)
    requires i in {0, 6, 7, 8, 9}
    ensures forall f | f in MeshFields() :: CodecField(f)
    ensures Decode(MeshFields(), [8 * (i + 1)] + VarintBytes(v))
            == if v < 0x1_0000_0000 then Some(Defaults(MeshFields())[i := Slot(false, Number(v))]) else None
  {
    hide Decode, VarintBytes, Varint64, Complete;
    VarintComplete(v);
    CanonicalDecodes(v);
    OneRecord(i, 0, VarintBytes(v));
    assert 8 * (i + 1) + 0 == 8 * (i + 1);
  }

  /** A signed number: even codes are halved, odd ones are the negatives; beyond 32 bits an error. */
  lemma SignedRecord(u: uint64)
    ensures forall f | f in MeshFields() :: CodecField(f)
    ensures Decode(MeshFields(), [0x10] + VarintBytes(u))
            == if u >= 0x1_0000_0000 then None
               else Some(Defaults(MeshFields())[1 := Slot(false, Number(if u % 2 == 0 then u / 2 else -((u + 1) / 2)))])
  {
    hide Decode, VarintBytes, Varint64, Complete;
    VarintComplete(u);
    CanonicalDecodes(u);
    OneRecord(1, 0, VarintBytes(u));
  }

  /** An address has six bytes or none, and none means zero. */
  lemma AddressRecord(i: nat, body: seq<byte>)
    requires 2 <= i < 5 && |body| < 0x80
    ensures forall f | f in MeshFields() :: CodecField(f)
    ensures Decode(MeshFields(), [8 * (i + 1) + 2, |body|] + body)
            == if |body| == 6 then Some(Defaults(MeshFields())[i := Slot(false, Array(body))])
               else if body == [] then Some(Defaults(MeshFields())[i := Slot(false, Array([0, 0, 0, 0, 0, 0]))])
               else None
  {
    hide Decode, Complete;
    StringComplete(body);
    OneRecord(i, 2, [|body|] + body);
    assert [8 * (i + 1) + 2] + ([|body|] + body) == [8 * (i + 1) + 2, |body|] + body;
    assert ([|body|] + body)[1..] == body;
    assert Fill(6, 0) == [0, 0, 0, 0, 0, 0];
  }

  lemma StringComplete(body: seq<byte>)
    requires |body| < 0x80
    ensures Complete(2, [|body|] + body)
  {
  }

  /** Data takes up to 64 bytes and a key up to 32; anything longer is an error. */
  lemma BytesRecord(i: nat, body: seq<byte>)
    requires (i == 5 || i == 10) && |body| < 0x80
    ensures forall f | f in MeshFields() :: CodecField(f)
    ensures var cap := if i == 5 then 64 else 32;
            Decode(MeshFields(), [8 * (i + 1) + 2, |body|] + body)
            == if |body| <= cap
               then Some(Defaults(MeshFields())[i := Slot(true, Sized(|body|, body + Fill(cap - |body|, 0)))]) else None
  {
    hide Decode, Complete;
    var cap := if i == 5 then 64 else 32;
    StringComplete(body);
    OneRecord(i, 2, [|body|] + body);
    assert [8 * (i + 1) + 2] + ([|body|] + body) == [8 * (i + 1) + 2, |body|] + body;
    assert ([|body|] + body)[1..] == body;
    if |body| <= cap { assert Fill(cap, 0)[|body|..] == Fill(cap - |body|, 0); }
  }

  /** A field under another wire type than its own is an error. */
  lemma WrongTypeRefused(i: nat, wireType: nat, raw: seq<byte>)
    requires i < 11 && Complete(wireType, raw)
    requires wireType != if i in {0, 1, 6, 7, 8, 9} then 0 else 2
    ensures forall f | f in MeshFields() :: CodecField(f)
    ensures Decode(MeshFields(), [8 * (i + 1) + wireType] + raw) == None
  {
    hide Decode, Complete;
    OneRecord(i, wireType, raw);
  }
}
