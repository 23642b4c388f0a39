/**
 Decoding is a last-wins fold over records: each member depends only on the records carrying its tag,
 in their order. Reordering records of different fields and inserting unknown ones change nothing.
 */
module RecordOrder {
  import opened Basics
  import opened Varint
  import opened PbStreams
  import opened FieldIterator
  import opened MessageCodec

  /** The records with a given tag, in order. */
  function OfTag(rs: seq<Record>, tag: nat): (out: seq<Record>)
    ensures forall r | r in out :: r.tag == tag && r in rs
  {
    if rs == [] then []
    else if rs[0].tag == tag then [rs[0]] + OfTag(rs[1..], tag) else OfTag(rs[1..], tag)
  }

  /** One member read by a list of records, all of them its own. */
  function FieldFold(f: FieldInfo, slot: Slot, rs: seq<Record>): (out: Option<Slot>)
    requires CodecField(f) && Holds(KindOf(f), slot.value)
    ensures out.Some? ==> Holds(KindOf(f), out.value.value)
    decreases |rs|
  {
    if rs == [] then Some(slot)
    else match ReadSlot(f, slot, rs[0])
      case None => None
      case Some(s) => FieldFold(f, s, rs[1..])
  }

  /** Each member on its own, over its own records. */
  ghost predicate FieldsRead(fields: seq<FieldInfo>, slots: seq<Slot>, rs: seq<Record>)
    requires SlotsFor(fields, slots)
  {
    forall i | 0 <= i < |fields| :: FieldFold(fields[i], slots[i], OfTag(rs, fields[i].tag)).Some?
  }

  lemma OtherField(fields: seq<FieldInfo>, tag: nat, i: nat)
    requires WellFormed(fields) && i < |fields| && IndexOf(fields, tag) != i
    ensures fields[i].tag != tag
  {
    IndexOfField(fields, i);
  }

  lemma {:induction false} NoneOfTag(rs: seq<Record>, tag: nat)
    requires forall r | r in rs :: r.tag != tag
    ensures OfTag(rs, tag) == []
  {
    if rs != [] {
      NoneOfTag(rs[1..], tag);
    }
  }

  /** The whole fold succeeds exactly when every member's own fold does, and gives the same members. */
  lemma {:induction false} FieldIndependence(fields: seq<FieldInfo>, slots: seq<Slot>, rs: seq<Record>)
    requires CodecFields(fields) && SlotsFor(fields, slots)
    ensures Fold(fields, slots, rs).Some? <==> FieldsRead(fields, slots, rs)
    ensures Fold(fields, slots, rs).Some? ==>
              forall i | 0 <= i < |fields| ::
                FieldFold(fields[i], slots[i], OfTag(rs, fields[i].tag)) == Some(Fold(fields, slots, rs).value[i])
    decreases |rs|
  {
    hide ReadSlot, CodecField, Holds, KindOf, WellFormed;
    if rs != [] {
      var r, rest := rs[0], rs[1..];
      var k := IndexOf(fields, r.tag);
      forall i | 0 <= i < |fields| && i != k ensures OfTag(rs, fields[i].tag) == OfTag(rest, fields[i].tag) {
        OtherField(fields, r.tag, i);
      }
      if k < |fields| {
        assert OfTag(rs, fields[k].tag) == [r] + OfTag(rest, fields[k].tag);
        assert OfTag(rs, fields[k].tag)[1..] == OfTag(rest, fields[k].tag);
      }
      var next := Apply(fields, slots, r);
      if next.Some? {
        FieldIndependence(fields, next.value, rest);
      }
    }
  }

  /** Two record lists that agree field by field decode alike, errors included. */
  lemma SameRecordsPerField(fields: seq<FieldInfo>, slots: seq<Slot>, rs: seq<Record>, rs': seq<Record>)
    requires CodecFields(fields) && SlotsFor(fields, slots)
    requires forall f | f in fields :: OfTag(rs, f.tag) == OfTag(rs', f.tag)
    ensures Fold(fields, slots, rs) == Fold(fields, slots, rs')
  {
    FieldIndependence(fields, slots, rs);
    FieldIndependence(fields, slots, rs');
    if Fold(fields, slots, rs).Some? {
      assert Fold(fields, slots, rs).value == Fold(fields, slots, rs').value;
    }
  }

  lemma {:induction false} OfTagAppend(a: seq<Record>, b: seq<Record>, tag: nat)
    ensures OfTag(a + b, tag) == OfTag(a, tag) + OfTag(b, tag)
  {
    if a == [] {
      assert [] + b == b;
    } else {
      OfTagAppend(a[1..], b, tag);
      assert (a + b)[1..] == a[1..] + b;
    }
  }

  // ---------- On bytes ----------

  /** Cutting looks at the front record only. */
  lemma CutPrefix(a: seq<byte>, b: seq<byte>)
    requires CutRecord(a).Some?
    ensures CutRecord(a + b) == CutRecord(a)
  {
    hide Varint32, BodyLength, BodyOf;
    var key := Varint32(a).value;
    KeyPrefix(a, b);
    var rest := a[key.used..];
    assert (a + b)[key.used..] == rest + b;
    BodyPrefix(key.value % 8, rest, b);
  }

  lemma KeyPrefix(a: seq<byte>, b: seq<byte>)
    requires Varint32(a).Some?
    ensures Varint32(a + b) == Varint32(a)
  {
    DecodePrefix(a, b);
  }

  lemma BodyPrefix(wireType: nat, s: seq<byte>, t: seq<byte>)
    requires BodyLength(wireType, s).Some?
    ensures BodyLength(wireType, s + t) == BodyLength(wireType, s)
    ensures BodyOf(wireType, s + t) == BodyOf(wireType, s)
  {
    hide Varint32, VarintLength;
    var n := BodyLength(wireType, s).value;
    assert (s + t)[..n] == s[..n];
    match wireType
    case 0 => LengthOfPrefix(s, t);
    case 2 =>
      KeyPrefix(s, t);
      var u := Varint32(s).value.used;
      assert (s + t)[u..n] == s[u..n];
    case _ =>
  }

  lemma {:induction false} CutAllAppend(a: seq<byte>, b: seq<byte>)
    requires CutAll(a).Some?
    ensures CutAll(a + b) == if CutAll(b).None? then None else Some(CutAll(a).value + CutAll(b).value)
    decreases |a|
  {
    hide CutRecord;
    if a == [] {
      assert a + b == b;
      if CutAll(b).Some? { assert [] + CutAll(b).value == CutAll(b).value; }
    } else {
      CutPrefix(a, b);
      var c := CutRecord(a).value;
      assert (a + b)[c.used..] == a[c.used..] + b;
      CutAllAppend(a[c.used..], b);
      if CutAll(b).Some? {
        assert [c.record] + (CutAll(a[c.used..]).value + CutAll(b).value)
            == ([c.record] + CutAll(a[c.used..]).value) + CutAll(b).value;
      }
    }
  }

  /** Records of unknown fields, at any record boundary, leave the result of decoding as it was. */
  lemma UnknownRecordsIgnored(fields: seq<FieldInfo>, a: seq<byte>, u: seq<byte>, b: seq<byte>)
    requires CodecFields(fields) && CutAll(a).Some? && CutAll(u).Some?
    requires forall r | r in CutAll(u).value :: !HasTag(fields, r.tag)
    ensures Decode(fields, a + u + b) == Decode(fields, a + b)
  {
    CutAllAppend(a, b);
    CutAllAppend(a, u);
    CutAllAppend(a + u, b);
    if CutAll(b).Some? {
      var ra, ru, rb := CutAll(a).value, CutAll(u).value, CutAll(b).value;
      forall f | f in fields ensures OfTag(ra + ru + rb, f.tag) == OfTag(ra + rb, f.tag) {
        OfTagAppend(ra, rb, f.tag);
        OfTagAppend(ra, ru, f.tag);
        OfTagAppend(ra + ru, rb, f.tag);
        NoneOfTag(ru, f.tag);
        assert OfTag(ra, f.tag) + [] == OfTag(ra, f.tag);
      }
      DefaultsHold(fields);
      SameRecordsPerField(fields, Defaults(fields), ra + ru + rb, ra + rb);
    }
  }

  /** Whole groups of records may trade places when no tag occurs in both. */
  lemma DisjointRecordsCommute(fields: seq<FieldInfo>, a: seq<byte>, x: seq<byte>, y: seq<byte>, b: seq<byte>)
    requires CodecFields(fields) && CutAll(a).Some? && CutAll(x).Some? && CutAll(y).Some?
    requires forall r, q | r in CutAll(x).value && q in CutAll(y).value :: r.tag != q.tag
    ensures Decode(fields, a + x + y + b) == Decode(fields, a + y + x + b)
  {
    hide OfTag, CodecField, WellFormed, CutAll, Fold;
    CutAllAppend(a, x);
    CutAllAppend(a + x, y);
    CutAllAppend(a + x + y, b);
    CutAllAppend(a, y);
    CutAllAppend(a + y, x);
    CutAllAppend(a + y + x, b);
    if CutAll(b).Some? {
      var ra, rx, ry, rb := CutAll(a).value, CutAll(x).value, CutAll(y).value, CutAll(b).value;
      forall f | f in fields ensures OfTag(ra + rx + ry + rb, f.tag) == OfTag(ra + ry + rx + rb, f.tag) {
        SwapDisjoint(ra, rx, ry, rb, f.tag);
      }
      DefaultsHold(fields);
      SameRecordsPerField(fields, Defaults(fields), ra + rx + ry + rb, ra + ry + rx + rb);
    }
  }

  lemma SwapDisjoint(a: seq<Record>, x: seq<Record>, y: seq<Record>, b: seq<Record>, tag: nat)
    requires forall r, q | r in x && q in y :: r.tag != q.tag
    ensures OfTag(a + x + y + b, tag) == OfTag(a + y + x + b, tag)
  {
    hide OfTag;
    OfTagFour(a, x, y, b, tag);
    OfTagFour(a, y, x, b, tag);
    if exists r :: r in x && r.tag == tag {
      NoneOfTag(y, tag);
    } else {
      NoneOfTag(x, tag);
    }
  }

  lemma OfTagFour(a: seq<Record>, b: seq<Record>, c: seq<Record>, d: seq<Record>, tag: nat)
    ensures OfTag(a + b + c + d, tag) == OfTag(a, tag) + OfTag(b, tag) + OfTag(c, tag) + OfTag(d, tag)
  {
    OfTagAppend(a, b, tag);
    OfTagAppend(a + b, c, tag);
    OfTagAppend(a + b + c, d, tag);
  }

  // ---------- The last record wins ----------

  /** The meaning of a member: its number, its bytes, or its bytes up to the size. */
  function Meaning(v: Value): Value {
    match v
    case Sized(size, buf) => if size <= |buf| then Array(buf[..size]) else v
    case _ => v
  }

  /** What a member means after several records is what the last one alone would have made of it. Only
      the bytes past the size of a bounded byte string can be left over from earlier records. */
  lemma {:induction false} LastRecordWins(f: FieldInfo, slot: Slot, other: Slot, rs: seq<Record>)
    requires CodecField(f) && Holds(KindOf(f), slot.value) && Holds(KindOf(f), other.value) && rs != []
    requires FieldFold(f, slot, rs).Some?
    ensures ReadSlot(f, other, rs[|rs| - 1]).Some?
    ensures Meaning(FieldFold(f, slot, rs).value.value) == Meaning(ReadSlot(f, other, rs[|rs| - 1]).value.value)
    decreases |rs|
  {
    var next := ReadSlot(f, slot, rs[0]).value;
    if |rs| == 1 {
      assert FieldFold(f, next, rs[1..]) == Some(next);
    } else {
      LastRecordWins(f, next, other, rs[1..]);
    }
  }
}
