/**
 What encoding and decoding a message means, for every descriptor made of the field kinds in use:
 unsigned and ZigZag varints, byte strings of fixed length and byte strings of bounded length, each
 with or without a presence flag. Decoding is defined on records: cut the input by wire type, then
 fold the records over the message.
 */
module MessageCodec {
  import opened Basics
  import opened Varint
  import opened PbStreams
  import opened FieldIterator

  /** The C member of a field: a number, a byte array, or a size with a byte array of full capacity. */
  datatype Value = Number(n: int) | Array(bytes: seq<byte>) | Sized(size: nat, buf: seq<byte>)

  /** A member and its presence flag; a field without a flag keeps `has` false. */
  datatype Slot = Slot(has: bool, value: Value)

  datatype Kind = Unsigned(width: nat) | Signed(width: nat) | FixedBytes(length: nat) | BoundedBytes(capacity: nat)

  /** One record of the wire format; for wire type 2 the body is the contents without their length. */
  datatype Record = Record(tag: nat, wireType: nat, body: seq<byte>)

  datatype Cut = Cut(record: Record, used: nat)

  function Limit(width: nat): nat {
    match width
    case 1 => 0x100
    case 2 => 0x1_0000
    case 4 => TWO_32
    case _ => TWO_64
  }

  predicate CodecField(f: FieldInfo) {
    && Fits(f) && AType(f.typ) == 0 && HType(f.typ) == HTYPE_OPTIONAL && f.arraySize == 1
    && match LType(f.typ)
       case 2 => f.dataSize in {1, 2, 4, 8}
       case 3 => f.dataSize in {1, 2, 4, 8}
       case 6 => f.dataSize >= 2
       case 11 => true
       case _ => false
  }

  ghost predicate CodecFields(fields: seq<FieldInfo>) {
    WellFormed(fields) && forall f | f in fields :: CodecField(f)
  }

  function KindOf(f: FieldInfo): Kind
    requires CodecField(f)
  {
    match LType(f.typ)
    case 2 => Unsigned(f.dataSize)
    case 3 => Signed(f.dataSize)
    case 6 => BoundedBytes(f.dataSize - 2) // the size member takes two bytes
    case _ => FixedBytes(f.dataSize)
  }

  predicate HasFlag(f: FieldInfo) { f.sizeOffset != 0 }

  /** Values the C member can hold. A size beyond the capacity is possible, and is an encoding error. */
  predicate Holds(k: Kind, v: Value) {
    match k
    case Unsigned(w) => v.Number? && 0 <= v.n < Limit(w)
    case Signed(w) => v.Number? && -(Limit(w) / 2) <= v.n < Limit(w) / 2
    case FixedBytes(len) => v.Array? && |v.bytes| == len
    case BoundedBytes(cap) => v.Sized? && v.size < 0x1_0000 && |v.buf| == cap
  }

  ghost predicate SlotsFor(fields: seq<FieldInfo>, slots: seq<Slot>) {
    && |slots| == |fields|
    && forall i | 0 <= i < |fields| :: CodecField(fields[i]) && Holds(KindOf(fields[i]), slots[i].value)
  }

  predicate InCapacity(v: Value) { v.Sized? ==> v.size <= |v.buf| }

  function ZeroValue(k: Kind): (v: Value) {
    match k
    case Unsigned(_) => Number(0)
    case Signed(_) => Number(0)
    case FixedBytes(len) => Array(Fill(len, 0))
    case BoundedBytes(cap) => Sized(0, Fill(cap, 0))
  }

  function DefaultSlot(f: FieldInfo): Slot
    requires CodecField(f)
  {
    Slot(false, ZeroValue(KindOf(f)))
  }

  function Defaults(fields: seq<FieldInfo>): (slots: seq<Slot>)
    requires forall f | f in fields :: CodecField(f)
    ensures |slots| == |fields| && forall i | 0 <= i < |fields| :: slots[i] == DefaultSlot(fields[i])
  {
    seq(|fields|, i requires 0 <= i < |fields| => DefaultSlot(fields[i]))
  }

  // ---------- Encoding ----------

  function WireTypeOf(k: Kind): nat { if k.Unsigned? || k.Signed? then 0 else 2 }

  function Key(f: FieldInfo): nat
    requires CodecField(f)
  {
    8 * f.tag + WireTypeOf(KindOf(f))
  }

  /** Proto3: a field without a flag is left out when its value is the default; one with, when unset. */
  predicate Omitted(f: FieldInfo, slot: Slot)
    requires CodecField(f) && Holds(KindOf(f), slot.value)
  {
    if HasFlag(f) then !slot.has
    else match slot.value
      case Number(n) => n == 0
      case Array(bytes) => |bytes| == 0
      case Sized(size, _) => size == 0
  }

  function Contents(k: Kind, v: Value): Option<seq<byte>>
    requires Holds(k, v)
  {
    match v
    case Number(n) => Some(VarintBytes(if k.Signed? then ZigZag(n) else n))
    case Array(bytes) => Some(VarintBytes(|bytes|) + bytes)
    case Sized(size, buf) => if size <= |buf| then Some(VarintBytes(size) + buf[..size]) else None
  }

  function EncodeField(f: FieldInfo, slot: Slot): Option<seq<byte>>
    requires CodecField(f) && Holds(KindOf(f), slot.value)
  {
    if Omitted(f, slot) then Some([])
    else match Contents(KindOf(f), slot.value)
      case None => None
      case Some(c) => Some(VarintBytes(Key(f)) + c)
  }

  /** Fields `i` and up, in descriptor order. */
  function EncodeFrom(fields: seq<FieldInfo>, slots: seq<Slot>, i: nat): Option<seq<byte>>
    requires |slots| == |fields| && i <= |fields|
    requires forall j | 0 <= j < |fields| :: CodecField(fields[j]) && Holds(KindOf(fields[j]), slots[j].value)
    decreases |fields| - i
  {
    if i == |fields| then Some([])
    else match EncodeField(fields[i], slots[i])
      case None => None
      case Some(a) => match EncodeFrom(fields, slots, i + 1)
        case None => None
        case Some(b) => Some(a + b)
  }

  // ---------- Decoding ----------

  /** The part of a record's value that carries information. */
  function BodyOf(wireType: nat, s: seq<byte>): seq<byte>
    requires BodyLength(wireType, s).Some?
  {
    var n := BodyLength(wireType, s).value;
    if wireType == 2 then s[Varint32(s).value.used..n] else s[..n]
  }

  /** The record at the front of `s`; a tag of zero is an error. */
  function CutRecord(s: seq<byte>): (c: Option<Cut>)
    ensures c.Some? ==> 0 < c.value.used <= |s|
  {
    match Varint32(s)
    case None => None
    case Some(k) =>
      var rest := s[k.used..];
      match BodyLength(k.value % 8, rest)
      case None => None
      case Some(n) =>
        if k.value / 8 == 0 then None
        else Some(Cut(Record(k.value / 8, k.value % 8, BodyOf(k.value % 8, rest)), k.used + n))
  }

  function CutAll(s: seq<byte>): Option<seq<Record>> {
    if s == [] then Some([])
    else match CutRecord(s)
      case None => None
      case Some(c) => match CutAll(s[c.used..])
        case None => None
        case Some(rs) => Some([c.record] + rs)
  }

  /** The member after reading one record for it, or None for a decoding error. */
  function ReadValue(k: Kind, v: Value, wireType: nat, body: seq<byte>): (r: Option<Value>)
    requires Holds(k, v)
    ensures r.Some? ==> Holds(k, r.value) && InCapacity(r.value)
  {
    if wireType != WireTypeOf(k) then None
    else match k
      case Unsigned(w) => (match Varint64(body)
                           case None => None
                           case Some(d) => if d.value < Limit(w) then Some(Number(d.value)) else None)
      case Signed(w) => (match Varint64(body)
                         case None => None
                         case Some(d) => var n := UnZigZag(d.value);
                                         if -(Limit(w) / 2) <= n < Limit(w) / 2 then Some(Number(n)) else None)
      case FixedBytes(len) => if body == [] then Some(Array(Fill(len, 0)))
                              else if |body| == len then Some(Array(body)) else None
      case BoundedBytes(cap) => if |body| <= cap && |body| < 0x1_0000 then Some(Sized(|body|, body + v.buf[|body|..]))
                                else None
  }

  function ReadSlot(f: FieldInfo, slot: Slot, r: Record): (out: Option<Slot>)
    requires CodecField(f) && Holds(KindOf(f), slot.value)
    ensures out.Some? ==> Holds(KindOf(f), out.value.value)
  {
    match ReadValue(KindOf(f), slot.value, r.wireType, r.body)
    case None => None
    case Some(v) => Some(Slot(slot.has || HasFlag(f), v))
  }

  /** Position of the field with the tag, or the number of fields. */
  function IndexOf(fields: seq<FieldInfo>, tag: nat): (i: nat)
    ensures i <= |fields| && (i < |fields| ==> fields[i].tag == tag)
    ensures forall j | 0 <= j < i :: fields[j].tag != tag
  {
    if fields == [] then 0 else if fields[0].tag == tag then 0 else 1 + IndexOf(fields[1..], tag)
  }

  /** Applies one record to the message; a record with an unknown tag changes nothing. */
  ghost function Apply(fields: seq<FieldInfo>, slots: seq<Slot>, r: Record): (out: Option<seq<Slot>>)
    requires SlotsFor(fields, slots)
    ensures out.Some? ==> SlotsFor(fields, out.value)
  {
    var i := IndexOf(fields, r.tag);
    if i == |fields| then Some(slots)
    else match ReadSlot(fields[i], slots[i], r)
      case None => None
      case Some(s) => Some(slots[i := s])
  }

  ghost function Fold(fields: seq<FieldInfo>, slots: seq<Slot>, rs: seq<Record>): (out: Option<seq<Slot>>)
    requires SlotsFor(fields, slots)
    ensures out.Some? ==> SlotsFor(fields, out.value)
    decreases |rs|
  {
    if rs == [] then Some(slots)
    else match Apply(fields, slots, rs[0])
      case None => None
      case Some(next) => Fold(fields, next, rs[1..])
  }

  /** Decoding `s` on top of the message `slots`. */
  ghost function DecodeOnto(fields: seq<FieldInfo>, slots: seq<Slot>, s: seq<byte>): (out: Option<seq<Slot>>)
    requires SlotsFor(fields, slots)
    ensures out.Some? ==> SlotsFor(fields, out.value)
  {
    match CutAll(s)
    case None => None
    case Some(rs) => Fold(fields, slots, rs)
  }

  lemma DefaultsHold(fields: seq<FieldInfo>)
    requires forall f | f in fields :: CodecField(f)
    ensures SlotsFor(fields, Defaults(fields))
  {
  }

  /** pb_decode: defaults first, then the records. */
  ghost function Decode(fields: seq<FieldInfo>, s: seq<byte>): Option<seq<Slot>>
    requires forall f | f in fields :: CodecField(f)
  {
    DefaultsHold(fields);
    DecodeOnto(fields, Defaults(fields), s)
  }

  // ---------- Round trip ----------

  /** What decoding can give back of a member: unset fields and bytes beyond the size are zero. */
  function NormalValue(v: Value): Value {
    match v
    case Sized(size, buf) => if size <= |buf| then Sized(size, buf[..size] + Fill(|buf| - size, 0)) else v
    case _ => v
  }

  function NormalSlot(f: FieldInfo, slot: Slot): Slot
    requires CodecField(f) && Holds(KindOf(f), slot.value)
  {
    if Omitted(f, slot) then DefaultSlot(f) else Slot(HasFlag(f), NormalValue(slot.value))
  }

  ghost function Normal(fields: seq<FieldInfo>, slots: seq<Slot>): (out: seq<Slot>)
    requires SlotsFor(fields, slots)
    ensures |out| == |slots| && forall i | 0 <= i < |slots| :: out[i] == NormalSlot(fields[i], slots[i])
  {
    seq(|slots|, i requires 0 <= i < |slots| => NormalSlot(fields[i], slots[i]))
  }

  /** Cutting what one field encodes to gives one record, whatever follows. */
  lemma CutField(f: FieldInfo, slot: Slot, t: seq<byte>)
    requires CodecField(f) && Holds(KindOf(f), slot.value) && !Omitted(f, slot) && InCapacity(slot.value)
    ensures EncodeField(f, slot).Some?
    ensures var b := EncodeField(f, slot).value; var k := KindOf(f);
            && b != []
            && CutRecord(b + t) == Some(Cut(Record(f.tag, WireTypeOf(k), FieldBody(k, slot.value)), |b|))
            && (b + t)[|b|..] == t
  {
    hide VarintBytes, Varint32, BodyLength, BodyOf, Contents, FieldBody, Fits, KindOf, Omitted, Holds;
    var k := KindOf(f);
    KeyParts(f, slot.value);
    CutContents(k, slot.value, t);
    var key, c := VarintBytes(Key(f)), Contents(k, slot.value).value;
    var s := key + (c + t);
    RoundTrip32(Key(f), c + t);
    assert (key + c) + t == s;
    assert s[|key|..][..|c|] == c;
  }

  lemma KeyParts(f: FieldInfo, v: Value)
    requires CodecField(f) && Holds(KindOf(f), v)
    ensures Key(f) < TWO_32 && Key(f) / 8 == f.tag > 0 && Key(f) % 8 == WireTypeOf(KindOf(f))
    ensures v.Array? ==> |v.bytes| < 0x1_0000
  {
  }

  /** The body a member's record carries. */
  function FieldBody(k: Kind, v: Value): seq<byte>
    requires Holds(k, v) && InCapacity(v)
  {
    match v
    case Number(n) => VarintBytes(if k.Signed? then ZigZag(n) else n)
    case Array(bytes) => bytes
    case Sized(size, buf) => buf[..size]
  }

  lemma CutContents(k: Kind, v: Value, t: seq<byte>)
    requires Holds(k, v) && InCapacity(v) && (v.Array? ==> |v.bytes| < 0x1_0000)
    ensures Contents(k, v).Some?
    ensures var c := Contents(k, v).value; var w := WireTypeOf(k);
            BodyLength(w, c + t) == Some(|c|) && BodyOf(w, c + t) == FieldBody(k, v)
  {
    var c := Contents(k, v).value;
    if v.Number? {
      var u := if k.Signed? then ZigZag(v.n) else v.n;
      EncodeTerminates(u);
      LengthOfPrefix(c, t);
    } else {
      var body := FieldBody(k, v);
      assert c == VarintBytes(|body|) + body;
      assert c + t == VarintBytes(|body|) + (body + t);
      RoundTrip32(|body|, body + t);
    }
  }

  /** Reading a member's own record over the zero value gives the member back. */
  lemma ReadBack(k: Kind, v: Value)
    requires Holds(k, v) && InCapacity(v)
    ensures Holds(k, ZeroValue(k))
    ensures ReadValue(k, ZeroValue(k), WireTypeOf(k), FieldBody(k, v)) == Some(NormalValue(v))
  {
    match v
    case Number(n) =>
      ReadBackNumber(k, n);
    case Array(bytes) =>
      if bytes == [] { assert Fill(0, 0) == bytes; }
    case Sized(size, buf) =>
      assert Fill(|buf|, 0)[size..] == Fill(|buf| - size, 0);
  }

  lemma ReadBackNumber(k: Kind, n: int)
    requires Holds(k, Number(n))
    ensures Holds(k, ZeroValue(k))
    ensures ReadValue(k, ZeroValue(k), WireTypeOf(k), FieldBody(k, Number(n))) == Some(Number(n))
  {
    hide VarintBytes, Varint64;
    if k.Signed? {
      ZigZagRoundTrip(n, 0);
      CanonicalDecodes(ZigZag(n));
    } else {
      CanonicalDecodes(n);
    }
  }

  /** The first record of an input decides the next state, the rest of the input what follows. */
  lemma DecodeStep(fields: seq<FieldInfo>, slots: seq<Slot>, s: seq<byte>)
    requires SlotsFor(fields, slots) && s != []
    ensures CutRecord(s).None? ==> DecodeOnto(fields, slots, s).None?
    ensures CutRecord(s).Some? ==>
              var c := CutRecord(s).value;
              var next := Apply(fields, slots, c.record);
              if next.None? then DecodeOnto(fields, slots, s).None?
              else DecodeOnto(fields, slots, s) == DecodeOnto(fields, next.value, s[c.used..])
  {
    if CutRecord(s).Some? {
      var c := CutRecord(s).value;
      var rs := CutAll(s[c.used..]);
      if rs.Some? {
        assert ([c.record] + rs.value)[1..] == rs.value;
      }
    }
  }

  /** Distinct tags make the index of a field its own position. */
  lemma IndexOfField(fields: seq<FieldInfo>, i: nat)
    requires WellFormed(fields) && i < |fields|
    ensures IndexOf(fields, fields[i].tag) == i
  {
    var j := IndexOf(fields, fields[i].tag);
    assert j <= i;
  }

  lemma {:induction false} RoundTripFrom(fields: seq<FieldInfo>, slots: seq<Slot>, i: nat)
    requires CodecFields(fields) && SlotsFor(fields, slots) && i <= |fields|
    requires forall j | 0 <= j < |slots| :: Omitted(fields[j], slots[j]) || InCapacity(slots[j].value)
    ensures EncodeFrom(fields, slots, i).Some?
    ensures var cur := Normal(fields, slots)[..i] + Defaults(fields)[i..];
            && SlotsFor(fields, cur)
            && DecodeOnto(fields, cur, EncodeFrom(fields, slots, i).value) == Some(Normal(fields, slots))
    decreases |fields| - i
  {
    hide CodecField, Holds, KindOf, Omitted, InCapacity, NormalSlot, DefaultSlot, DecodeOnto, EncodeField, WellFormed;
    NormalHolds(fields, slots);
    var cur := Normal(fields, slots)[..i] + Defaults(fields)[i..];
    if i == |fields| {
      assert cur == Normal(fields, slots);
      DecodeNothing(fields, cur);
    } else {
      RoundTripFrom(fields, slots, i + 1);
      var f, slot := fields[i], slots[i];
      var t := EncodeFrom(fields, slots, i + 1).value;
      var next := Normal(fields, slots)[..i + 1] + Defaults(fields)[i + 1..];
      assert next == cur[i := NormalSlot(f, slot)];
      assert forall j | 0 <= j < |cur| && j != i :: next[j] == cur[j];
      RoundTripStep(fields, cur, i, slot, t);
    }
  }

  lemma DecodeNothing(fields: seq<FieldInfo>, slots: seq<Slot>)
    requires SlotsFor(fields, slots)
    ensures DecodeOnto(fields, slots, []) == Some(slots)
  {
  }

  /** One field of the message: its bytes, if any, move its member from the default to its own value. */
  lemma RoundTripStep(fields: seq<FieldInfo>, cur: seq<Slot>, i: nat, slot: Slot, t: seq<byte>)
    requires CodecFields(fields) && SlotsFor(fields, cur) && i < |fields|
    requires Holds(KindOf(fields[i]), slot.value) && (Omitted(fields[i], slot) || InCapacity(slot.value))
    requires cur[i] == DefaultSlot(fields[i])
    ensures EncodeField(fields[i], slot).Some?
    ensures var next := cur[i := NormalSlot(fields[i], slot)];
            SlotsFor(fields, next)
            && DecodeOnto(fields, cur, EncodeField(fields[i], slot).value + t) == DecodeOnto(fields, next, t)
  {
    var f := fields[i];
    var next := cur[i := NormalSlot(f, slot)];
    if Omitted(f, slot) {
      assert next == cur;
      assert [] + t == t;
    } else {
      hide EncodeField, CutRecord, ReadValue, FieldBody, NormalValue, ZeroValue, Holds, KindOf;
      CutField(f, slot, t);
      ReadBack(KindOf(f), slot.value);
      IndexOfField(fields, i);
      var b := EncodeField(f, slot).value;
      DecodeStep(fields, cur, b + t);
    }
  }

  lemma NormalHolds(fields: seq<FieldInfo>, slots: seq<Slot>)
    requires SlotsFor(fields, slots)
    ensures SlotsFor(fields, Normal(fields, slots)) && SlotsFor(fields, Defaults(fields))
    ensures forall i | 0 <= i <= |fields| :: SlotsFor(fields, Normal(fields, slots)[..i] + Defaults(fields)[i..])
  {
  }

  /** Encoding fails exactly when a present member claims more bytes than it has room for. */
  lemma {:induction false} EncodesIff(fields: seq<FieldInfo>, slots: seq<Slot>, i: nat)
    requires SlotsFor(fields, slots) && i <= |fields|
    ensures EncodeFrom(fields, slots, i).Some?
       <==> forall j | i <= j < |slots| :: Omitted(fields[j], slots[j]) || InCapacity(slots[j].value)
    decreases |fields| - i
  {
    if i < |fields| {
      EncodesIff(fields, slots, i + 1);
      EncodesField(fields[i], slots[i]);
    }
  }

  lemma EncodesField(f: FieldInfo, slot: Slot)
    requires CodecField(f) && Holds(KindOf(f), slot.value)
    ensures EncodeField(f, slot).Some? <==> Omitted(f, slot) || InCapacity(slot.value)
  {
  }

  /** Whatever the encoder writes, the decoder reads back, up to bytes that carry no meaning. */
  lemma RoundTrip(fields: seq<FieldInfo>, slots: seq<Slot>)
    requires CodecFields(fields) && SlotsFor(fields, slots) && EncodeFrom(fields, slots, 0).Some?
    ensures Decode(fields, EncodeFrom(fields, slots, 0).value) == Some(Normal(fields, slots))
  {
    hide EncodeFrom, DecodeOnto, Omitted, InCapacity, CodecField, Holds, KindOf;
    EncodesIff(fields, slots, 0);
    RoundTripFrom(fields, slots, 0);
    assert Normal(fields, slots)[..0] + Defaults(fields)[0..] == Defaults(fields);
  }
}
