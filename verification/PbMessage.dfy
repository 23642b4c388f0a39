/**
 pb_encode and pb_decode: the loops that drive a field iterator over a message held in memory. The
 message is an array with one slot for each field. The methods are proved against MessageCodec.
 */
module PbMessage {
  import opened Basics
  import opened Varint
  import opened PbStreams
  import opened FieldIterator
  import opened MessageCodec

  /** The iterator's type and size members, as those of a member of kind `k`. */
  ghost predicate Describe(ltype: nat, dataSize: nat, k: Kind) {
    match k
    case Unsigned(w) => ltype == LTYPE_UVARINT && dataSize == w && w in {1, 2, 4, 8}
    case Signed(w) => ltype == LTYPE_SVARINT && dataSize == w && w in {1, 2, 4, 8}
    case FixedBytes(len) => ltype == LTYPE_FIXED_LENGTH_BYTES && dataSize == len < 0x1_0000
    case BoundedBytes(cap) => ltype == LTYPE_BYTES && dataSize == cap + 2 < 0x1_0000
  }

  /** The iterator stands on a field of a message of its type. */
  ghost predicate Ready(iter: FieldIter, msg: array<Slot>)
    reads iter, msg
  {
    iter.Valid() && CodecFields(iter.fields) && SlotsFor(iter.fields, msg[..])
  }

  ghost function CurrentKind(iter: FieldIter): Kind
    requires iter.Valid() && CodecFields(iter.fields)
    reads iter
  {
    KindOf(iter.fields[iter.index])
  }

  lemma CurrentField(iter: FieldIter, msg: array<Slot>)
    requires Ready(iter, msg)
    ensures var f := iter.fields[iter.index];
            && msg.Length == |iter.fields| && CodecField(f) && Holds(KindOf(f), msg[iter.index].value)
            && Describe(LType(iter.typ), iter.dataSize, KindOf(f)) && iter.tag == f.tag < 0x1_0000
            && AType(iter.typ) == 0 && HType(iter.typ) == HTYPE_OPTIONAL && iter.sizeOffset == f.sizeOffset
  {
    assert msg[..][iter.index] == msg[iter.index];
  }

  // ---------- Encoding ----------

  method CheckProto3Default(sizeOffset: nat, dataSize: nat, slot: Slot, ghost f: FieldInfo) returns (isDefault: bool)
    requires CodecField(f) && Holds(KindOf(f), slot.value) && sizeOffset == f.sizeOffset && dataSize == f.dataSize
    ensures isDefault <==> Omitted(f, slot)
  {
    if sizeOffset != 0 {
      return !slot.has;
    }
    match slot.value
    case Number(n) => isDefault := n == 0;
    case Array(_) => isDefault := dataSize == 0;
    case Sized(size, _) => isDefault := size == 0;
  }

  method EncVarint(stream: OStream, ltype: nat, dataSize: nat, value: Value, ghost k: Kind) returns (ok: bool)
    requires stream.Valid() && Describe(ltype, dataSize, k) && Holds(k, value) && value.Number?
    modifies stream, stream.buf
    ensures stream.Valid() && old(stream.Written()) <= stream.Written()
    ensures var c := Contents(k, value).value;
            && (ok <==> old(stream.bytesWritten) + |c| <= stream.maxSize)
            && (ok ==> stream.Written() == old(stream.Written()) + c)
  {
    if ltype == LTYPE_UVARINT {
      ok := stream.EncodeVarint(value.n);
    } else {
      ok := stream.EncodeSvarint(value.n);
    }
  }

  method EncBytes(stream: OStream, ltype: nat, dataSize: nat, value: Value, ghost k: Kind) returns (ok: bool)
    requires stream.Valid() && Describe(ltype, dataSize, k) && Holds(k, value) && value.Sized?
    modifies stream, stream.buf
    ensures stream.Valid() && old(stream.Written()) <= stream.Written()
    ensures var c := Contents(k, value);
            && (ok <==> c.Some? && old(stream.bytesWritten) + |c.value| <= stream.maxSize)
            && (ok ==> stream.Written() == old(stream.Written()) + c.value)
  {
    if value.size > dataSize - 2 {
      return false;
    }
    ok := stream.EncodeString(value.buf[..value.size]);
  }

  method EncFixedLengthBytes(stream: OStream, ltype: nat, dataSize: nat, value: Value, ghost k: Kind) returns (ok: bool)
    requires stream.Valid() && Describe(ltype, dataSize, k) && Holds(k, value) && value.Array?
    modifies stream, stream.buf
    ensures stream.Valid() && old(stream.Written()) <= stream.Written()
    ensures var c := Contents(k, value).value;
            && (ok <==> old(stream.bytesWritten) + |c| <= stream.maxSize)
            && (ok ==> stream.Written() == old(stream.Written()) + c)
  {
    ok := stream.EncodeString(value.bytes[..dataSize]);
  }

  method EncodeTagForField(stream: OStream, tag: nat, ltype: nat, dataSize: nat, ghost k: Kind) returns (ok: bool)
    requires stream.Valid() && Describe(ltype, dataSize, k) && tag < 0x1_0000
    modifies stream, stream.buf
    ensures stream.Valid() && old(stream.Written()) <= stream.Written()
    ensures var b := VarintBytes(8 * tag + WireTypeOf(k));
            && (ok <==> old(stream.bytesWritten) + |b| <= stream.maxSize)
            && (ok ==> stream.Written() == old(stream.Written()) + b)
  {
    var wireType := if ltype == LTYPE_UVARINT || ltype == LTYPE_SVARINT then 0 else 2;
    ok := stream.EncodeTag(wireType, tag);
  }

  /** Tag, then contents by the field's type. */
  method EncodeBasicField(stream: OStream, tag: nat, ltype: nat, dataSize: nat, value: Value, ghost k: Kind)
    returns (ok: bool)
    requires stream.Valid() && Describe(ltype, dataSize, k) && Holds(k, value) && tag < 0x1_0000
    modifies stream, stream.buf
    ensures stream.Valid() && old(stream.Written()) <= stream.Written()
    ensures var c := Contents(k, value);
            var t := VarintBytes(8 * tag + WireTypeOf(k));
            && (ok <==> c.Some? && old(stream.bytesWritten) + |t + c.value| <= stream.maxSize)
            && (ok ==> stream.Written() == old(stream.Written()) + (t + c.value))
  {
    hide VarintBytes, Contents;
    ContentsOf(k, value);
    ok := EncodeTagForField(stream, tag, ltype, dataSize, k);
    if !ok {
      return false;
    }
    match ltype
    case 2 => ok := EncVarint(stream, ltype, dataSize, value, k);
    case 3 => ok := EncVarint(stream, ltype, dataSize, value, k);
    case 6 => ok := EncBytes(stream, ltype, dataSize, value, k);
    case 11 => ok := EncFixedLengthBytes(stream, ltype, dataSize, value, k);
    case _ => ok := false;
  }

  lemma ContentsOf(k: Kind, value: Value)
    requires Holds(k, value)
    ensures !value.Sized? ==> Contents(k, value).Some?
  {
  }

  method EncodeFieldAt(stream: OStream, iter: FieldIter, msg: array<Slot>) returns (ok: bool)
    requires stream.Valid() && Ready(iter, msg)
    modifies stream, stream.buf
    ensures stream.Valid() && old(stream.Written()) <= stream.Written()
    ensures var b := EncodeField(iter.fields[iter.index], msg[iter.index]);
            && (ok <==> b.Some? && old(stream.bytesWritten) + |b.value| <= stream.maxSize)
            && (ok ==> stream.Written() == old(stream.Written()) + b.value)
  {
    hide VarintBytes, Contents, Holds, CodecField, WellFormed;
    CurrentField(iter, msg);
    var slot := msg[iter.index];
    if iter.sizeOffset != 0 {
      if !slot.has {
        return true;
      }
    } else {
      var isDefault := CheckProto3Default(iter.sizeOffset, iter.dataSize, slot, iter.fields[iter.index]);
      if isDefault {
        return true;
      }
    }
    ok := EncodeBasicField(stream, iter.tag, LType(iter.typ), iter.dataSize, slot.value, CurrentKind(iter));
  }

  /** One field more: the whole encoding, given what is done and what is left. */
  lemma EncodeUnfold(fields: seq<FieldInfo>, slots: seq<Slot>, i: nat, done: seq<byte>)
    requires SlotsFor(fields, slots) && i < |fields|
    ensures var a, b := EncodeField(fields[i], slots[i]), EncodeFrom(fields, slots, i + 1);
            Remaining(fields, slots, i, done) == (if a.None? || b.None? then None else Some(done + a.value + b.value))
    ensures EncodeFrom(fields, slots, |fields|) == Some([])
  {
    var a, b := EncodeField(fields[i], slots[i]), EncodeFrom(fields, slots, i + 1);
    if a.Some? && b.Some? {
      assert done + (a.value + b.value) == done + a.value + b.value;
    }
  }

  ghost function Remaining(fields: seq<FieldInfo>, slots: seq<Slot>, i: nat, done: seq<byte>): Option<seq<byte>>
    requires SlotsFor(fields, slots) && i <= |fields|
  {
    match EncodeFrom(fields, slots, i)
    case None => None
    case Some(rest) => Some(done + rest)
  }

  lemma NothingDone(fields: seq<FieldInfo>, slots: seq<Slot>)
    requires SlotsFor(fields, slots)
    ensures Remaining(fields, slots, 0, []) == EncodeFrom(fields, slots, 0)
  {
    var e := EncodeFrom(fields, slots, 0);
    if e.Some? { assert [] + e.value == e.value; }
  }

  /** Encodes every field in order; succeeds exactly when the message is encodable and fits. */
  method Encode(stream: OStream, desc: MsgDesc, ghost fields: seq<FieldInfo>, msg: array<Slot>) returns (ok: bool)
    requires stream.Valid() && Describes(desc, fields) && CodecFields(fields) && SlotsFor(fields, msg[..])
    modifies stream, stream.buf
    ensures stream.Valid()
    ensures var b := EncodeFrom(fields, msg[..], 0);
            && (ok <==> b.Some? && old(stream.bytesWritten) + |b.value| <= stream.maxSize)
            && (ok ==> stream.Written() == old(stream.Written()) + b.value)
  {
    hide EncodeField, EncodeFrom, WellFormed, CodecField, Holds, KindOf, Describes;
    var iter := new FieldIter.Begin(desc, fields);
    ghost var before := stream.Written();
    ghost var done: seq<byte> := [];
    ghost var slots := msg[..];
    NothingDone(fields, slots);
    while true
      invariant stream.Valid() && Ready(iter, msg) && iter.fields == fields && fresh(iter)
      invariant stream.Written() == before + done && msg[..] == slots
      invariant Remaining(fields, slots, iter.index, done) == EncodeFrom(fields, slots, 0)
      decreases |fields| - iter.index
    {
      EncodeUnfold(fields, slots, iter.index, done);
      ok := EncodeFieldAt(stream, iter, msg);
      if !ok {
        return false;
      }
      done := done + EncodeField(fields[iter.index], slots[iter.index]).value;
      var more := iter.Next();
      if !more {
        break;
      }
    }
  }

  // ---------- Decoding ----------

  /** The outcome of reading a member's value from the front of `s`. */
  datatype Reading = Reading(value: Value, used: nat)

  function ReadFront(k: Kind, v: Value, wireType: nat, s: seq<byte>): (r: Option<Reading>)
    requires Holds(k, v)
    ensures r.Some? ==> Holds(k, r.value.value) && InCapacity(r.value.value) && 0 < r.value.used <= |s|
  {
    match BodyLength(wireType, s)
    case None => None
    case Some(n) => match ReadValue(k, v, wireType, BodyOf(wireType, s))
      case None => None
      case Some(w) => Some(Reading(w, n))
  }

  /** Two's complement truncation to `width` bytes. */
  function Truncate(n: int, width: nat): (t: int)
    ensures -(Limit(width) / 2) <= t < Limit(width) / 2
    ensures -(Limit(width) / 2) <= n < Limit(width) / 2 ==> t == n
  {
    (n + Limit(width) / 2) % Limit(width) - Limit(width) / 2
  }

  /** For wire type 0 the body decodes as the stream does. */
  lemma BodyOfVarint(s: seq<byte>)
    ensures Varint64(s).Some? ==> BodyLength(0, s) == Some(Varint64(s).value.used)
    ensures BodyLength(0, s).Some? ==> Varint64(BodyOf(0, s)).Some? == Varint64(s).Some?
    ensures Varint64(s).Some? ==> Varint64(BodyOf(0, s)) == Varint64(s)
  {
    if BodyLength(0, s).Some? {
      var n := VarintLength(s).value;
      LengthIs(s[..n], n);
      assert s[..n][..n] == s[..n];
    }
  }

  /** Decodes a varint and stores it truncated to the member's width; true when nothing was lost. */
  method DecVarint(stream: IStream, ltype: nat, dataSize: nat, v: Value, ghost k: Kind) returns (ok: bool, out: Value)
    requires stream.Valid() && Describe(ltype, dataSize, k) && Holds(k, v) && v.Number?
    modifies stream
    ensures stream.Valid() && stream.End() == old(stream.End()) && stream.bytesLeft <= old(stream.bytesLeft)
    ensures Holds(k, out) && InCapacity(out)
    ensures var r := ReadFront(k, v, 0, old(stream.Rest()));
            && (ok <==> r.Some?)
            && (ok ==> out == r.value.value && stream.Rest() == old(stream.Rest())[r.value.used..])
  {
    hide Varint64, BodyLength, BodyOf;
    BodyOfVarint(stream.Rest());
    out := v;
    if ltype == LTYPE_UVARINT {
      var got, value := stream.DecodeVarint();
      if !got {
        return false, out;
      }
      var clamped := value % Limit(dataSize);
      return clamped == value, Number(clamped);
    } else {
      var got, value := stream.DecodeSvarint();
      if !got {
        return false, out;
      }
      var clamped := Truncate(value, dataSize);
      return clamped == value, Number(clamped);
    }
  }

  /** Reads a length and that many bytes into the member's buffer, whose tail stays as it was. */
  method DecBytes(stream: IStream, ltype: nat, dataSize: nat, v: Value, ghost k: Kind) returns (ok: bool, out: Value)
    requires stream.Valid() && Describe(ltype, dataSize, k) && Holds(k, v) && v.Sized?
    modifies stream
    ensures stream.Valid() && stream.End() == old(stream.End()) && stream.bytesLeft <= old(stream.bytesLeft)
    ensures Holds(k, out) && (InCapacity(v) ==> InCapacity(out))
    ensures var r := ReadFront(k, v, 2, old(stream.Rest()));
            && (ok <==> r.Some?)
            && (ok ==> out == r.value.value && stream.Rest() == old(stream.Rest())[r.value.used..])
  {
    hide Varint32;
    out := v;
    var got, size := stream.DecodeVarint32();
    if !got {
      return false, out;
    }
    if size > 0xFFFF || size + 2 > dataSize {
      return false, out;
    }
    out := out.(size := size);
    var bytes;
    ok, bytes := stream.Read(size);
    if ok {
      out := out.(buf := bytes + out.buf[size..]);
    }
  }

  /** Exactly the member's length, or nothing at all for all zeros. */
  method DecFixedLengthBytes(stream: IStream, ltype: nat, dataSize: nat, v: Value, ghost k: Kind)
    returns (ok: bool, out: Value)
    requires stream.Valid() && Describe(ltype, dataSize, k) && Holds(k, v) && v.Array?
    modifies stream
    ensures stream.Valid() && stream.End() == old(stream.End()) && stream.bytesLeft <= old(stream.bytesLeft)
    ensures Holds(k, out) && InCapacity(out)
    ensures var r := ReadFront(k, v, 2, old(stream.Rest()));
            && (ok <==> r.Some?)
            && (ok ==> out == r.value.value && stream.Rest() == old(stream.Rest())[r.value.used..])
  {
    hide Varint32;
    out := v;
    var got, size := stream.DecodeVarint32();
    if !got || size > 0xFFFF {
      return false, out;
    }
    if size == 0 {
      return true, Array(Fill(dataSize, 0));
    }
    if size != dataSize {
      return false, out;
    }
    var bytes;
    ok, bytes := stream.Read(dataSize);
    if ok {
      out := Array(bytes);
    }
  }

  /** Checks the wire type and dispatches on the field's type. */
  method DecodeBasicField(stream: IStream, wireType: nat, ltype: nat, dataSize: nat, v: Value, ghost k: Kind)
    returns (ok: bool, out: Value)
    requires stream.Valid() && Describe(ltype, dataSize, k) && Holds(k, v)
    modifies stream
    ensures stream.Valid() && stream.End() == old(stream.End()) && stream.bytesLeft <= old(stream.bytesLeft)
    ensures Holds(k, out) && (InCapacity(v) ==> InCapacity(out))
    ensures var r := ReadFront(k, v, wireType, old(stream.Rest()));
            && (ok <==> r.Some?)
            && (ok ==> out == r.value.value && stream.Rest() == old(stream.Rest())[r.value.used..])
  {
    hide BodyLength, BodyOf;
    ok, out := false, v;
    match ltype
    case 2 => if wireType == 0 { ok, out := DecVarint(stream, ltype, dataSize, v, k); }
    case 3 => if wireType == 0 { ok, out := DecVarint(stream, ltype, dataSize, v, k); }
    case 6 => if wireType == 2 { ok, out := DecBytes(stream, ltype, dataSize, v, k); }
    case 11 => if wireType == 2 { ok, out := DecFixedLengthBytes(stream, ltype, dataSize, v, k); }
    case _ =>
  }

  /** Sets the presence flag, if there is one, and reads the value in place. */
  method DecodeStaticField(stream: IStream, wireType: nat, iter: FieldIter, msg: array<Slot>) returns (ok: bool)
    requires stream.Valid() && Ready(iter, msg)
    modifies stream, msg
    ensures stream.Valid() && stream.End() == old(stream.End()) && stream.bytesLeft <= old(stream.bytesLeft)
    ensures Ready(iter, msg) && (old(InCapacities(msg[..])) ==> InCapacities(msg[..]))
    ensures var i := iter.index; var f := iter.fields[i];
            var r := ReadFront(KindOf(f), old(msg[i]).value, wireType, old(stream.Rest()));
            && (ok <==> r.Some?)
            && (ok ==> msg[..] == old(msg[..])[i := Slot(old(msg[i]).has || HasFlag(f), r.value.value)]
                       && stream.Rest() == old(stream.Rest())[r.value.used..])
  {
    hide ReadFront, Holds, CodecField, WellFormed;
    CurrentField(iter, msg);
    var i := iter.index;
    var slot := msg[i];
    if iter.sizeOffset != 0 {
      slot := slot.(has := true);
    }
    var out;
    ok, out := DecodeBasicField(stream, wireType, LType(iter.typ), iter.dataSize, slot.value, CurrentKind(iter));
    msg[i] := slot.(value := out);
  }

  ghost predicate InCapacities(slots: seq<Slot>) {
    forall s | s in slots :: InCapacity(s.value)
  }

  lemma DefaultsInCapacity(fields: seq<FieldInfo>)
    requires forall f | f in fields :: CodecField(f)
    ensures InCapacities(Defaults(fields)) && SlotsFor(fields, Defaults(fields))
  {
  }

  method FieldSetToDefault(ltype: nat, dataSize: nat, ghost k: Kind) returns (slot: Slot)
    requires Describe(ltype, dataSize, k)
    ensures slot == Slot(false, ZeroValue(k))
  {
    match ltype
    case 6 => slot := Slot(false, Sized(0, Fill(dataSize - 2, 0)));
    case 11 => slot := Slot(false, Array(Fill(dataSize, 0)));
    case _ => slot := Slot(false, Number(0));
  }

  /** Clears every member, whatever was there, and leaves the iterator on the first field. */
  method MessageSetToDefaults(iter: FieldIter, msg: array<Slot>)
    requires iter.Valid() && CodecFields(iter.fields) && iter.index == 0 && msg.Length == |iter.fields|
    modifies iter, msg
    ensures iter.Valid() && iter.index == 0
    ensures msg[..] == Defaults(iter.fields)
  {
    hide CodecField, WellFormed;
    while true
      invariant iter.Valid() && CodecFields(iter.fields)
      invariant forall j | 0 <= j < iter.index :: msg[j] == DefaultSlot(iter.fields[j])
      decreases |iter.fields| - iter.index
    {
      CurrentType(iter);
      var i := iter.index;
      msg[i] := FieldSetToDefault(LType(iter.typ), iter.dataSize, CurrentKind(iter));
      var more := iter.Next();
      if !more {
        break;
      }
    }
  }

  lemma CurrentType(iter: FieldIter)
    requires iter.Valid() && CodecFields(iter.fields)
    ensures Describe(LType(iter.typ), iter.dataSize, CurrentKind(iter)) && CodecField(iter.fields[iter.index])
  {
    assert iter.fields[iter.index] in iter.fields;
  }

  /** A record of a known field: what reading its value does to the rest of the decoding. */
  lemma KnownRecord(fields: seq<FieldInfo>, slots: seq<Slot>, s: seq<byte>, i: nat)
    requires CodecFields(fields) && SlotsFor(fields, slots) && i < |fields| && s != []
    requires Varint32(s).Some? && 0 != fields[i].tag == Varint32(s).value.value / 8
    ensures var key := Varint32(s).value;
            var f, rest := fields[i], s[key.used..];
            var r := ReadFront(KindOf(f), slots[i].value, key.value % 8, rest);
            if r.None? then DecodeOnto(fields, slots, s).None?
            else var next := slots[i := Slot(slots[i].has || HasFlag(f), r.value.value)];
                 SlotsFor(fields, next)
                     && DecodeOnto(fields, slots, s) == DecodeOnto(fields, next, rest[r.value.used..])
  {
    hide Varint32, BodyLength, BodyOf, ReadValue, CodecField, Holds, KindOf, CutRecord, DecodeOnto;
    DecodeStep(fields, slots, s);
    IndexOfField(fields, i);
    CutAfterKey(s);
  }

  /** Cutting a record, seen from behind its key. */
  lemma CutAfterKey(s: seq<byte>)
    requires Varint32(s).Some? && Varint32(s).value.value / 8 != 0
    ensures var key := Varint32(s).value;
            var rest := s[key.used..];
            var n := BodyLength(key.value % 8, rest);
            if n.None? then CutRecord(s).None?
            else CutRecord(s) == Some(Cut(Record(key.value / 8, key.value % 8, BodyOf(key.value % 8, rest)),
                                          key.used + n.value))
                 && s[key.used + n.value..] == rest[n.value..]
  {
    hide Varint32, BodyLength, BodyOf;
  }

  /** A record of an unknown field is skipped by its wire type. */
  lemma UnknownRecord(fields: seq<FieldInfo>, slots: seq<Slot>, s: seq<byte>)
    requires SlotsFor(fields, slots) && s != []
    requires Varint32(s).Some? && Varint32(s).value.value / 8 != 0 && !HasTag(fields, Varint32(s).value.value / 8)
    ensures var key := Varint32(s).value;
            var rest := s[key.used..];
            var n := BodyLength(key.value % 8, rest);
            if n.None? then DecodeOnto(fields, slots, s).None?
            else DecodeOnto(fields, slots, s) == DecodeOnto(fields, slots, rest[n.value..])
  {
    hide Varint32, BodyLength, BodyOf, SlotsFor, CutRecord, DecodeOnto;
    DecodeStep(fields, slots, s);
    CutAfterKey(s);
  }

  lemma BadKey(fields: seq<FieldInfo>, slots: seq<Slot>, s: seq<byte>)
    requires SlotsFor(fields, slots) && s != []
    requires Varint32(s).None? || Varint32(s).value.value / 8 == 0
    ensures DecodeOnto(fields, slots, s).None?
  {
  }

  /** pb_decode of a whole buffer: defaults, then one record at a time until the input is used up. On
      every input the loop ends and no size exceeds its member's capacity, failure included. */
  method Decode(stream: IStream, desc: MsgDesc, ghost fields: seq<FieldInfo>, msg: array<Slot>) returns (ok: bool)
    requires stream.Valid() && Describes(desc, fields) && CodecFields(fields) && msg.Length == |fields|
    modifies stream, msg
    ensures stream.Valid() && stream.End() == old(stream.End())
    ensures SlotsFor(fields, msg[..]) && InCapacities(msg[..])
    ensures ok <==> MessageCodec.Decode(fields, old(stream.Rest())).Some?
    ensures ok ==> msg[..] == MessageCodec.Decode(fields, old(stream.Rest())).value && stream.bytesLeft == 0
  {
    hide CodecField, WellFormed, Holds, KindOf, Varint32, ReadFront, BodyLength, DecodeOnto, HasTag, Describes,
         SlotsFor, InCapacities;
    ghost var s0 := stream.Rest();
    var iter := new FieldIter.Begin(desc, fields);
    MessageSetToDefaults(iter, msg);
    DefaultsInCapacity(fields);
    NoPlaceholders(fields);
    var extensionRangeStart := 0;
    while stream.bytesLeft > 0
      invariant stream.Valid() && stream.End() == old(stream.End())
      invariant Ready(iter, msg) && iter.fields == fields && fresh(iter)
      invariant InCapacities(msg[..])
      invariant extensionRangeStart == 0 || extensionRangeStart == 0xFFFF_FFFF
      invariant DecodeOnto(fields, msg[..], stream.Rest()) == MessageCodec.Decode(fields, s0)
      decreases stream.bytesLeft
    {
      ghost var s, slots := stream.Rest(), msg[..];
      var got, wireType, tag, eof := stream.DecodeTag();
      if !got {
        BadKey(fields, slots, s);
        if eof {
          break;
        }
        return false;
      }
      if tag == 0 {
        BadKey(fields, slots, s);
        return false;
      }
      FindableIsHasTag(fields, tag, iter.index);
      var found := iter.Find(tag);
      CurrentType(iter);
      if !found || LType(iter.typ) == LTYPE_EXTENSION {
        if extensionRangeStart == 0 {
          found := iter.FindExtension();
          extensionRangeStart := 0xFFFF_FFFF; // above every tag: the empty extension list is never walked
        }
        UnknownRecord(fields, slots, s);
        var skipped := stream.SkipField(wireType);
        if !skipped {
          return false;
        }
      } else {
        KnownRecord(fields, slots, s, iter.index);
        var decoded := DecodeStaticField(stream, wireType, iter, msg);
        if !decoded {
          return false;
        }
      }
    }
    DecodeEnd(fields, msg[..]);
    ok := true;
  }

  lemma NoPlaceholders(fields: seq<FieldInfo>)
    requires CodecFields(fields)
    ensures !HasExtension(fields)
  {
  }

  lemma DecodeEnd(fields: seq<FieldInfo>, slots: seq<Slot>)
    requires SlotsFor(fields, slots)
    ensures DecodeOnto(fields, slots, []) == Some(slots)
  {
  }
}
