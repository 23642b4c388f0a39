/**
 Message descriptors and the field iterator of nanopb. A descriptor is a run of 32-bit words, one,
 two, four or eight for a field; the iterator walks it in place and searches it circularly, starting
 from wherever the last search ended.
 */
module FieldIterator {
  import opened Basics

  /** A field as the generator describes it; `log2Width` is 0, 1, 2 or 3. */
  datatype FieldInfo = FieldInfo(log2Width: nat, tag: nat, typ: nat, dataOffset: nat, dataSize: nat,
                                 sizeOffset: nat, arraySize: nat)

  /** The constants the generator emits for one message type. */
  datatype MsgDesc = MsgDesc(fieldInfo: seq<uint32>, fieldCount: nat, largestTag: nat)

  // The three parts of a field's type byte.
  function LType(typ: nat): nat { typ % 0x10 }
  function HType(typ: nat): nat { (typ / 0x10) % 4 }
  function AType(typ: nat): nat { (typ / 0x40) % 4 }

  const LTYPE_UVARINT: nat := 0x02
  const LTYPE_SVARINT: nat := 0x03
  const LTYPE_BYTES: nat := 0x06
  const LTYPE_EXTENSION: nat := 0x0A
  const LTYPE_FIXED_LENGTH_BYTES: nat := 0x0B
  const HTYPE_REQUIRED: nat := 0
  const HTYPE_OPTIONAL: nat := 1

  predicate IsSubmessage(typ: nat) { LType(typ) == 0x08 || LType(typ) == 0x09 }

  /** A type byte in its parts: kind, rule and allocation; kinds 8 and 9 are submessages, rule 0 is required, and a
      placeholder for extensions has kind 10 and is passed over by every search that does not start on it. */
  lemma TypeByte(kind: nat, rule: nat, allocation: nat)
    requires kind < 0x10 && rule < 4 && allocation < 4
    ensures var typ := kind + 0x10 * rule + 0x40 * allocation;
            && LType(typ) == kind && HType(typ) == rule && AType(typ) == allocation
            && (IsSubmessage(typ) <==> kind == 8 || kind == 9)
            && (HType(typ) == HTYPE_REQUIRED <==> rule == 0)
            && forall f: FieldInfo, tag: nat | f.typ == typ :: Misses(f, tag) <==> f.tag != tag || kind == 10
  {
  }

  function Width(log2Width: nat): (w: nat)
    ensures w > 0
  {
    match log2Width
    case 0 => 1
    case 1 => 2
    case 2 => 4
    case _ => 8
  }

  /** What the generator's static assertions guarantee about a field of its width. */
  predicate Fits(f: FieldInfo) {
    && 0 < f.tag && f.typ < 0x100
    && match f.log2Width
       case 0 => f.tag < 0x40 && f.dataOffset < 0x100 && f.sizeOffset < 0x10 && f.dataSize < 0x10 && f.arraySize == 1
       case 1 => f.tag < 0x400 && f.dataOffset < 0x1_0000 && f.sizeOffset < 0x10 && f.dataSize < 0x1000
                 && f.arraySize < 0x1000
       case 2 => f.tag < 0x1_0000 && f.dataOffset < 0x1_0000 && f.sizeOffset < 0x80 && f.dataSize < 0x1_0000
                 && f.arraySize < 0x1_0000
       case 3 => f.tag < 0x1_0000 && f.dataOffset < 0x1_0000 && f.sizeOffset < 0x80 && f.dataSize < 0x1_0000
                 && f.arraySize < 0x1_0000
       case _ => false
  }

  /** Two to the width of a bit field. */
  type radix = r: int | r > 0 witness 1

  /** A word made of bit fields, lowest first: `rs[i]` is two to the width of field `i`. */
  function Join(ds: seq<nat>, rs: seq<radix>): nat
    requires |ds| == |rs|
  {
    if ds == [] then 0 else ds[0] + rs[0] * Join(ds[1..], rs[1..])
  }

  /** Bit field `i` of a word: shift the lower fields out, mask the higher ones off. */
  function Slice(w: nat, rs: seq<radix>, i: nat): nat
    requires i < |rs|
    decreases i
  {
    if i == 0 then Remainder(w, rs[0]) else Slice(Quotient(w, rs[0]), rs[1..], i - 1)
  }

  function Quotient(w: nat, r: radix): (q: nat)
    ensures q == w / r
  {
    Multiples(r, w / r);
    w / r
  }

  function Remainder(w: nat, r: radix): (m: nat)
    ensures m == w % r < r
  {
    w % r
  }

  function Product(rs: seq<radix>): nat {
    if rs == [] then 1 else rs[0] * Product(rs[1..])
  }

  /** The first word: width code, low six tag bits and type byte in every format, then what differs. */
  function FirstLayout(log2Width: nat): (rs: seq<radix>)
    ensures |rs| >= 3 && rs[0] == 4 && rs[1] == 0x40 && rs[2] == 0x100
  {
    [4, 0x40, 0x100] + match log2Width
                       case 0 => [0x100, 0x10, 0x10]
                       case 1 => [0x1000, 0x10]
                       case 2 => [0x1_0000]
                       case _ => []
  }

  function FirstFields(f: FieldInfo): (ds: seq<nat>)
    ensures |ds| == |FirstLayout(f.log2Width)|
  {
    [f.log2Width, f.tag % 0x40, f.typ] + match f.log2Width
                                         case 0 => [f.dataOffset, f.sizeOffset, f.dataSize]
                                         case 1 => [f.arraySize, f.sizeOffset]
                                         case 2 => [f.arraySize]
                                         case _ => []
  }

  function SecondLayout(log2Width: nat): (rs: seq<radix>)
  {
    if log2Width == 1 then [0x1_0000, 0x1000, 0x10] else [0x100, 0x100_0000]
  }

  function SecondFields(f: FieldInfo): (ds: seq<nat>)
    ensures |ds| == |SecondLayout(f.log2Width)|
  {
    if f.log2Width == 1 then [f.dataOffset, f.dataSize, f.tag / 0x40] else [f.sizeOffset, f.tag / 0x40]
  }

  /** The words of one field. */
  function Words(f: FieldInfo): (ws: seq<uint32>)
    requires Fits(f)
    ensures |ws| == Width(f.log2Width)
    ensures ws[0] == Join(FirstFields(f), FirstLayout(f.log2Width))
    ensures |ws| > 2 ==> ws[2] == f.dataOffset && ws[3] == f.dataSize
    ensures |ws| > 4 ==> ws[4] == f.arraySize
    ensures |ws| > 1 ==> ws[1] == Join(SecondFields(f), SecondLayout(f.log2Width))
  {
    WordsFit(f);
    var first := Join(FirstFields(f), FirstLayout(f.log2Width));
    var second := Join(SecondFields(f), SecondLayout(f.log2Width));
    match f.log2Width
    case 0 => [first]
    case 1 => [first, second]
    case 2 => [first, second, f.dataOffset, f.dataSize]
    case _ => [first, second, f.dataOffset, f.dataSize, f.arraySize, 0, 0, 0]
  }

  /** The words bit by bit, in the four formats of the generator: width code and low tag bits, type, and then offsets,
      sizes and high tag bits at the places of the format. */
  lemma WordsAre(f: FieldInfo)
    requires Fits(f)
    ensures var low, high := f.tag % 0x40, f.tag / 0x40;
            Words(f)
            == match f.log2Width
               case 0 => [4 * f.tag + 0x100 * f.typ + 0x1_0000 * f.dataOffset + 0x100_0000 * f.sizeOffset
                          + 0x1000_0000 * f.dataSize]
               case 1 => [1 + 4 * low + 0x100 * f.typ + 0x1_0000 * f.arraySize + 0x1000_0000 * f.sizeOffset,
                          f.dataOffset + 0x1_0000 * f.dataSize + 0x1000_0000 * high]
               case 2 => [2 + 4 * low + 0x100 * f.typ + 0x1_0000 * f.arraySize, f.sizeOffset + 0x100 * high,
                          f.dataOffset, f.dataSize]
               case _ => [3 + 4 * low + 0x100 * f.typ, f.sizeOffset + 0x100 * high, f.dataOffset, f.dataSize,
                          f.arraySize, 0, 0, 0]
  {
    hide Join;
    FirstWord(f);
    SecondWord(f);
  }

  lemma FirstWord(f: FieldInfo)
    requires Fits(f)
    ensures Join(FirstFields(f), FirstLayout(f.log2Width))
            == f.log2Width + 4 * (f.tag % 0x40) + 0x100 * f.typ
               + match f.log2Width
                 case 0 => 0x1_0000 * f.dataOffset + 0x100_0000 * f.sizeOffset + 0x1000_0000 * f.dataSize
                 case 1 => 0x1_0000 * f.arraySize + 0x1000_0000 * f.sizeOffset
                 case 2 => 0x1_0000 * f.arraySize
                 case _ => 0
  {
    hide Join, Fits;
    var ds, rs := FirstFields(f), FirstLayout(f.log2Width);
    JoinThree(ds, rs);
    match f.log2Width
    case 0 =>
      JoinThree(ds[3..], rs[3..]);
      JoinNone(ds[3..][3..], rs[3..][3..]);
    case 1 => JoinTwo(ds[3..], rs[3..]);
    case 2 => JoinOne(ds[3..], rs[3..]);
    case _ => JoinNone(ds[3..], rs[3..]);
  }

  lemma SecondWord(f: FieldInfo)
    ensures Join(SecondFields(f), SecondLayout(f.log2Width))
            == if f.log2Width == 1 then f.dataOffset + 0x1_0000 * f.dataSize + 0x1000_0000 * (f.tag / 0x40)
               else f.sizeOffset + 0x100 * (f.tag / 0x40)
  {
    hide Join;
    var ds, rs := SecondFields(f), SecondLayout(f.log2Width);
    if f.log2Width == 1 {
      JoinThree(ds, rs);
      JoinNone(ds[3..], rs[3..]);
    } else {
      JoinTwo(ds, rs);
    }
  }

  lemma JoinNone(ds: seq<nat>, rs: seq<radix>)
    requires |ds| == |rs| == 0
    ensures Join(ds, rs) == 0
  {
  }

  lemma JoinOne(ds: seq<nat>, rs: seq<radix>)
    requires |ds| == |rs| == 1
    ensures Join(ds, rs) == ds[0]
  {
    assert Join(ds[1..], rs[1..]) == 0;
  }

  lemma JoinTwo(ds: seq<nat>, rs: seq<radix>)
    requires |ds| == |rs| == 2
    ensures Join(ds, rs) == ds[0] + rs[0] * ds[1]
  {
    JoinOne(ds[1..], rs[1..]);
  }

  lemma JoinThree(ds: seq<nat>, rs: seq<radix>)
    requires |ds| == |rs| >= 3
    ensures Join(ds, rs) == ds[0] + rs[0] * (ds[1] + rs[1] * (ds[2] + rs[2] * Join(ds[3..], rs[3..])))
  {
    assert ds[1..][1..] == ds[2..] && ds[2..][1..] == ds[3..] && rs[1..][1..] == rs[2..] && rs[2..][1..] == rs[3..];
    assert Join(ds[1..], rs[1..]) == ds[1] + rs[1] * Join(ds[2..], rs[2..]);
    assert Join(ds[2..], rs[2..]) == ds[2] + rs[2] * Join(ds[3..], rs[3..]);
  }

  lemma {:induction false} JoinBound(ds: seq<nat>, rs: seq<radix>)
    requires |ds| == |rs| && forall i | 0 <= i < |ds| :: ds[i] < rs[i]
    ensures Join(ds, rs) < Product(rs)
  {
    if ds != [] {
      JoinBound(ds[1..], rs[1..]);
      DigitBound(ds[0], rs[0], Join(ds[1..], rs[1..]), Product(rs[1..]));
    }
  }

  lemma DigitBound(d: nat, r: radix, q: nat, p: nat)
    requires d < r && q < p
    ensures d + r * q < r * p
  {
    assert r * (q + 1) <= r * p;
  }

  lemma WordsFit(f: FieldInfo)
    requires Fits(f)
    ensures Join(FirstFields(f), FirstLayout(f.log2Width)) < TWO_32
    ensures Join(SecondFields(f), SecondLayout(f.log2Width)) < TWO_32
  {
    JoinBound(FirstFields(f), FirstLayout(f.log2Width));
    JoinBound(SecondFields(f), SecondLayout(f.log2Width));
    ProductOf(f.log2Width);
  }

  lemma ProductOf(log2Width: nat)
    ensures Product(FirstLayout(log2Width)) <= TWO_32 && Product(SecondLayout(log2Width)) <= TWO_32
  {
    var one: seq<radix>, two: seq<radix> := [0x100, 0x10, 0x10], [0x1000, 0x10];
    assert one[1..] == [0x10, 0x10] && one[1..][1..] == [0x10] && one[1..][1..][1..] == [];
    assert Product(one) == 0x1_0000;
    assert two[1..] == [0x10] && two[1..][1..] == [];
    assert Product(two) == 0x1_0000;
    var rs := FirstLayout(log2Width);
    assert rs[1..][1..][1..] == rs[3..];
    assert Product(rs[1..][1..]) == 0x100 * Product(rs[3..]);
    assert Product(rs) == 4 * (0x40 * Product(rs[1..][1..]));
    var sec := SecondLayout(log2Width);
    assert sec[1..][1..] == sec[2..];
  }

  /** Cutting out a bit field gives back what was packed there. */
  lemma {:induction false} SliceJoin(ds: seq<nat>, rs: seq<radix>, i: nat)
    requires |ds| == |rs| && i < |rs| && forall k | 0 <= k < |ds| :: ds[k] < rs[k]
    ensures Slice(Join(ds, rs), rs, i) == ds[i]
  {
    var q := Join(ds[1..], rs[1..]);
    DivideDigit(ds[0], rs[0], q);
    if i > 0 {
      SliceJoin(ds[1..], rs[1..], i - 1);
    }
  }

  lemma DivideDigit(d: nat, r: radix, q: nat)
    requires d < r
    ensures (d + r * q) % r == d && (d + r * q) / r == q
  {
    var k := (d + r * q) / r;
    Multiples(r, k - q);
    assert r * (k - q) == d - (d + r * q) % r;
  }

  lemma Multiples(r: radix, x: int)
    ensures x >= 1 ==> r * x >= r
    ensures x <= -1 ==> r * x + r <= 0
  {
  }

  /** All words of a message, with the zero the generator appends. */
  function Pack(fields: seq<FieldInfo>): (ws: seq<uint32>)
    requires forall f | f in fields :: Fits(f)
    ensures |ws| > 0
  {
    if fields == [] then [0] else Words(fields[0]) + Pack(fields[1..])
  }

  /** Where field `i` starts. */
  function Offset(fields: seq<FieldInfo>, i: nat): nat
    requires i <= |fields|
  {
    if i == 0 then 0 else Offset(fields, i - 1) + Width(fields[i - 1].log2Width)
  }

  /** How many of the first `i` fields are required, and how many are submessages. */
  function RequiredBefore(fields: seq<FieldInfo>, i: nat): nat
    requires i <= |fields|
  {
    if i == 0 then 0 else RequiredBefore(fields, i - 1) + (if HType(fields[i - 1].typ) == HTYPE_REQUIRED then 1 else 0)
  }

  function SubmessagesBefore(fields: seq<FieldInfo>, i: nat): nat
    requires i <= |fields|
  {
    if i == 0 then 0 else SubmessagesBefore(fields, i - 1) + (if IsSubmessage(fields[i - 1].typ) then 1 else 0)
  }

  /** Non-empty lists of fields in tag order whose words are numbered by 16 bits. */
  ghost predicate WellFormed(fields: seq<FieldInfo>) {
    && |fields| > 0
    && (forall f | f in fields :: Fits(f))
    && (forall i, j | 0 <= i < j < |fields| :: fields[i].tag < fields[j].tag)
    && |Pack(fields)| < 0x1_0000
  }

  /** The generated constants that belong to a list of fields. */
  ghost predicate Describes(desc: MsgDesc, fields: seq<FieldInfo>) {
    && WellFormed(fields)
    && desc.fieldInfo == Pack(fields)
    && desc.fieldCount == |fields|
    && desc.largestTag == fields[|fields| - 1].tag
  }

  ghost predicate HasTag(fields: seq<FieldInfo>, tag: nat) {
    exists f :: f in fields && f.tag == tag
  }

  /** A field the search passes over: of another tag, or only a placeholder for extensions. */
  predicate Misses(f: FieldInfo, tag: nat) {
    f.tag != tag || LType(f.typ) == LTYPE_EXTENSION
  }

  /** A search from field `start` finds the tag: there without looking further, elsewhere unless it belongs to a
      placeholder. */
  ghost predicate Findable(fields: seq<FieldInfo>, tag: nat, start: nat)
    requires start < |fields|
  {
    fields[start].tag == tag || exists f :: f in fields && !Misses(f, tag)
  }

  ghost predicate HasExtension(fields: seq<FieldInfo>) {
    exists f :: f in fields && LType(f.typ) == LTYPE_EXTENSION
  }

  /** Without placeholders every search finds exactly the tags there are. */
  lemma FindableIsHasTag(fields: seq<FieldInfo>, tag: nat, start: nat)
    requires start < |fields| && !HasExtension(fields)
    ensures Findable(fields, tag, start) <==> HasTag(fields, tag)
  {
    if HasTag(fields, tag) {
      var f :| f in fields && f.tag == tag;
      assert !Misses(f, tag);
    }
    assert fields[start] in fields;
  }

  // ---------- Layout ----------

  /** The words from the offset of field `i` on are those of the remaining fields. */
  lemma {:induction false} PackFrom(fields: seq<FieldInfo>, i: nat)
    requires (forall f | f in fields :: Fits(f)) && i <= |fields|
    ensures Offset(fields, i) <= |Pack(fields)| && Pack(fields)[Offset(fields, i)..] == Pack(fields[i..])
  {
    if i == 0 {
      assert fields[0..] == fields;
    } else {
      PackFrom(fields, i - 1);
      var w := Words(fields[i - 1]);
      assert fields[i - 1..][1..] == fields[i..];
      assert Pack(fields[i - 1..]) == w + Pack(fields[i..]);
      assert Pack(fields)[Offset(fields, i)..] == Pack(fields)[Offset(fields, i - 1)..][|w|..];
    }
  }

  lemma WordAt(fields: seq<FieldInfo>, i: nat, k: nat)
    requires (forall f | f in fields :: Fits(f)) && i < |fields| && k < Width(fields[i].log2Width)
    ensures Offset(fields, i) + k < |Pack(fields)|
    ensures Pack(fields)[Offset(fields, i) + k] == Words(fields[i])[k]
  {
    PackFrom(fields, i);
    assert Pack(fields[i..]) == Words(fields[i]) + Pack(fields[i..][1..]);
    assert Pack(fields)[Offset(fields, i)..][k] == Pack(fields)[Offset(fields, i) + k];
  }

  /** What every format's first word says, read with the layout of the one-word format. */
  lemma HeadOf(f: FieldInfo)
    requires Fits(f)
    ensures Slice(Words(f)[0], HEAD, 0) == f.log2Width
    ensures Slice(Words(f)[0], HEAD, 1) == f.tag % 0x40
    ensures Slice(Words(f)[0], HEAD, 2) == f.typ
  {
    var w, rs := Words(f)[0], FirstLayout(f.log2Width);
    forall i: nat | i < 3 ensures Slice(w, HEAD, i) == FirstFields(f)[i] {
      SliceJoin(FirstFields(f), rs, i);
      assert HEAD == rs[..3];
      SlicePrefix(w, rs, 3, i);
    }
  }

  const HEAD: seq<radix> := [4, 0x40, 0x100]

  lemma {:induction false} SlicePrefix(w: nat, rs: seq<radix>, n: nat, i: nat)
    requires i < n <= |rs|
    ensures Slice(w, rs[..n], i) == Slice(w, rs, i)
    decreases i
  {
    if i > 0 {
      SlicePrefix(Quotient(w, rs[0]), rs[1..], n - 1, i - 1);
      assert rs[..n][1..] == rs[1..][..n - 1];
    }
  }

  /** The first word of each format, cut as that format lays it out. */
  lemma FirstWordOf(f: FieldInfo)
    requires Fits(f)
    ensures Slice(Words(f)[0], HEAD, 0) == f.log2Width
    ensures Slice(Words(f)[0], HEAD, 1) == f.tag % 0x40
    ensures Slice(Words(f)[0], HEAD, 2) == f.typ
    ensures f.log2Width == 0 ==> var w, rs := Words(f)[0], FirstLayout(0);
              |rs| == 6 && Slice(w, rs, 3) == f.dataOffset && Slice(w, rs, 4) == f.sizeOffset
                  && Slice(w, rs, 5) == f.dataSize
    ensures f.log2Width == 1 ==> var w, rs := Words(f)[0], FirstLayout(1);
              |rs| == 5 && Slice(w, rs, 3) == f.arraySize && Slice(w, rs, 4) == f.sizeOffset
    ensures f.log2Width == 2 ==> var w, rs := Words(f)[0], FirstLayout(2); |rs| == 4 && Slice(w, rs, 3) == f.arraySize
  {
    HeadOf(f);
    var ds, rs := FirstFields(f), FirstLayout(f.log2Width);
    forall i | 0 <= i < |ds| ensures Slice(Words(f)[0], rs, i) == ds[i] {
      SliceJoin(ds, rs, i);
    }
  }

  lemma SecondWordOf(f: FieldInfo)
    requires Fits(f) && f.log2Width > 0
    ensures f.log2Width == 1 ==> var w, rs := Words(f)[1], SecondLayout(1);
              |rs| == 3 && Slice(w, rs, 0) == f.dataOffset && Slice(w, rs, 1) == f.dataSize
                  && Slice(w, rs, 2) == f.tag / 0x40
    ensures f.log2Width != 1 ==> var w, rs := Words(f)[1], SecondLayout(f.log2Width);
              |rs| == 2 && Slice(w, rs, 0) == f.sizeOffset && Slice(w, rs, 1) == f.tag / 0x40
  {
    var ds, rs := SecondFields(f), SecondLayout(f.log2Width);
    forall i | 0 <= i < |ds| ensures Slice(Words(f)[1], rs, i) == ds[i] {
      SliceJoin(ds, rs, i);
    }
  }

  lemma StartCounts(fields: seq<FieldInfo>)
    ensures Offset(fields, 0) == RequiredBefore(fields, 0) == SubmessagesBefore(fields, 0) == 0
  {
  }

  lemma StepCounts(fields: seq<FieldInfo>, i: nat)
    requires i < |fields|
    ensures Offset(fields, i + 1) == Offset(fields, i) + Width(fields[i].log2Width)
    ensures RequiredBefore(fields, i + 1)
         == RequiredBefore(fields, i) + (if HType(fields[i].typ) == HTYPE_REQUIRED then 1 else 0)
    ensures SubmessagesBefore(fields, i + 1)
         == SubmessagesBefore(fields, i) + (if IsSubmessage(fields[i].typ) then 1 else 0)
  {
  }

  /** The decoding half of the word formats: reads one field from the front of `ws`. */
  method UnpackField(ws: seq<uint32>, ghost f: FieldInfo)
    returns (typ: nat, tag: nat, arraySize: nat, sizeOffset: nat, dataOffset: nat, dataSize: nat)
    requires Fits(f) && Words(f) <= ws
    ensures typ == f.typ && tag == f.tag && arraySize == f.arraySize
    ensures sizeOffset == f.sizeOffset && dataOffset == f.dataOffset && dataSize == f.dataSize
  {
    hide Slice, Join, FirstLayout, SecondLayout, Words;
    FirstWordOf(f);
    assert forall k | 0 <= k < |Words(f)| :: ws[k] == Words(f)[k];
    var word0 := ws[0];
    typ := Slice(word0, HEAD, 2);
    var lowTag := Slice(word0, HEAD, 1);
    match Slice(word0, HEAD, 0)
    case 0 =>
      arraySize := 1;
      tag := lowTag;
      sizeOffset := Slice(word0, FirstLayout(0), 4);
      dataOffset := Slice(word0, FirstLayout(0), 3);
      dataSize := Slice(word0, FirstLayout(0), 5);
    case 1 =>
      SecondWordOf(f);
      arraySize := Slice(word0, FirstLayout(1), 3);
      tag := lowTag + 0x40 * Slice(ws[1], SecondLayout(1), 2);
      sizeOffset := Slice(word0, FirstLayout(1), 4);
      dataOffset := Slice(ws[1], SecondLayout(1), 0);
      dataSize := Slice(ws[1], SecondLayout(1), 1);
    case 2 =>
      SecondWordOf(f);
      arraySize := Slice(word0, FirstLayout(2), 3);
      tag := lowTag + 0x40 * Slice(ws[1], SecondLayout(2), 1);
      sizeOffset := Slice(ws[1], SecondLayout(2), 0);
      dataOffset := ws[2];
      dataSize := ws[3];
    case _ =>
      SecondWordOf(f);
      arraySize := ws[4];
      tag := lowTag + 0x40 * Slice(ws[1], SecondLayout(3), 1);
      sizeOffset := Slice(ws[1], SecondLayout(3), 0);
      dataOffset := ws[2];
      dataSize := ws[3];
  }

  lemma DescribedWords(desc: MsgDesc, fields: seq<FieldInfo>, i: nat)
    requires Describes(desc, fields) && i < |fields|
    ensures desc.fieldCount == |fields| && Fits(fields[i])
    ensures Offset(fields, i) <= |desc.fieldInfo| && Words(fields[i]) <= desc.fieldInfo[Offset(fields, i)..]
  {
    PackFrom(fields, i);
    assert Pack(fields[i..]) == Words(fields[i]) + Pack(fields[i..][1..]);
  }

  lemma DescribedCount(desc: MsgDesc, fields: seq<FieldInfo>)
    requires Describes(desc, fields)
    ensures desc.fieldCount == |fields| > 0
  {
  }

  lemma DescribedHead(desc: MsgDesc, fields: seq<FieldInfo>, i: nat)
    requires Describes(desc, fields) && i < |fields|
    ensures desc.fieldCount == |fields| && Offset(fields, i) < |desc.fieldInfo|
    ensures var w := desc.fieldInfo[Offset(fields, i)];
            Slice(w, HEAD, 0) == fields[i].log2Width && Slice(w, HEAD, 1) == fields[i].tag % 0x40
            && Slice(w, HEAD, 2) == fields[i].typ
  {
    hide Words, Pack, Slice, Offset, LType;
    HeadOf(fields[i]);
    WordAt(fields, i, 0);
  }

  // ---------- The iterator ----------

  class FieldIter {
    const desc: MsgDesc
    ghost const fields: seq<FieldInfo>

    var index: nat
    var fieldInfoIndex: nat
    var requiredFieldIndex: nat
    var submessageIndex: nat

    var tag: nat
    var typ: nat
    var dataSize: nat
    var arraySize: nat
    var dataOffset: nat
    var sizeOffset: nat

    /** The four running indices are those of field `i`. */
    ghost predicate Counting(i: nat)
      reads this
    {
      && index == i < |fields|
      && fieldInfoIndex == Offset(fields, i)
      && requiredFieldIndex == RequiredBefore(fields, i)
      && submessageIndex == SubmessagesBefore(fields, i)
    }

    /** The loaded values are those of the current field. */
    ghost predicate Loaded()
      reads this
    {
      && index < |fields|
      && tag == fields[index].tag && typ == fields[index].typ
      && dataSize == fields[index].dataSize && arraySize == fields[index].arraySize
      && dataOffset == fields[index].dataOffset && sizeOffset == fields[index].sizeOffset
    }

    ghost predicate Valid()
      reads this
    {
      Describes(desc, fields) && Counting(index) && Loaded()
    }

    /** pb_field_iter_begin on a message type with at least one field. */
    constructor Begin(desc: MsgDesc, ghost fields: seq<FieldInfo>)
      requires Describes(desc, fields)
      ensures this.desc == desc && this.fields == fields && Valid() && index == 0
    {
      this.desc, this.fields := desc, fields;
      index, fieldInfoIndex, requiredFieldIndex, submessageIndex := 0, 0, 0, 0;
      tag, typ, dataSize, arraySize, dataOffset, sizeOffset := 0, 0, 0, 0, 0, 0;
      new;
      var loaded := LoadDescriptorValues();
    }

    /** Loads the values of the current field; false, and nothing loaded, past the last one. */
    method LoadDescriptorValues() returns (ok: bool)
      requires Describes(desc, fields) && (index >= |fields| || Counting(index))
      modifies this`tag, this`typ, this`dataSize, this`arraySize, this`dataOffset, this`sizeOffset
      ensures ok <==> index < |fields|
      ensures ok ==> Valid()
      ensures !ok ==> unchanged(this)
    {
      hide Words, Pack, Offset, RequiredBefore, SubmessagesBefore, Fits, Describes;
      DescribedCount(desc, fields);
      if index >= desc.fieldCount {
        return false;
      }
      DescribedWords(desc, fields, index);
      typ, tag, arraySize, sizeOffset, dataOffset, dataSize := UnpackField(desc.fieldInfo[fieldInfoIndex..],
                                                                           fields[index]);
      ok := true;
    }

    /** Steps to the next field, or back to the first after the last; an index at or past the count
        restarts too. */
    method AdvanceIterator()
      requires Describes(desc, fields) && (index == |fields| || Counting(index))
      modifies this`index, this`fieldInfoIndex, this`requiredFieldIndex, this`submessageIndex
      ensures Counting(if old(index) + 1 < |fields| then old(index) + 1 else 0)
    {
      hide Slice, HType, IsSubmessage, Width, Offset, RequiredBefore, SubmessagesBefore, Describes;
      StartCounts(fields);
      DescribedCount(desc, fields);
      if index < |fields| { DescribedHead(desc, fields, index); }
      index := index + 1;
      if index >= desc.fieldCount {
        index, fieldInfoIndex, submessageIndex, requiredFieldIndex := 0, 0, 0, 0;
      } else {
        StepCounts(fields, index - 1);
        var previous := desc.fieldInfo[fieldInfoIndex];
        var previousType := Slice(previous, HEAD, 2);
        fieldInfoIndex := fieldInfoIndex + Width(Slice(previous, HEAD, 0));
        requiredFieldIndex := requiredFieldIndex + (if HType(previousType) == HTYPE_REQUIRED then 1 else 0);
        submessageIndex := submessageIndex + (if IsSubmessage(previousType) then 1 else 0);
      }
    }

    method Next() returns (more: bool)
      requires Valid()
      modifies this
      ensures Valid()
      ensures more <==> old(index) + 1 < |fields|
      ensures index == if more then old(index) + 1 else 0
    {
      AdvanceIterator();
      var loaded := LoadDescriptorValues();
      more := index != 0;
    }

    /** The circular search: true exactly when the tag is to be found, and then the iterator is on it;
        otherwise it is back on the field it started from. */
    method Find(wanted: uint32) returns (found: bool)
      requires Valid()
      modifies this
      ensures Valid()
      ensures found <==> Findable(fields, wanted, old(index))
      ensures if found then fields[index].tag == wanted else index == old(index)
    {
      hide Slice, Offset, RequiredBefore, SubmessagesBefore, Searching, Findable, LType, Describes;
      FindableAt(fields, wanted, index);
      NoTagAbove(desc, fields, wanted, index);
      DescribedCount(desc, fields);
      if tag == wanted {
        return true;
      } else if wanted > desc.largestTag {
        return false;
      }
      var start := index;
      if wanted < tag {
        // The tag, if present, lies before the current field: force a restart.
        index := desc.fieldCount;
      }
      ghost var visited := 0;
      SearchStart(fields, wanted, start);
      while true
        invariant index == |fields| || Counting(index)
        invariant Searching(fields, wanted, start, index, visited)
        decreases |fields| + 1 - visited
      {
        ghost var before := index;
        AdvanceIterator();
        DescribedHead(desc, fields, index);
        FindableFrom(fields, wanted, start, index);
        var info := desc.fieldInfo[fieldInfoIndex];
        if Slice(info, HEAD, 1) == wanted % 0x40 {
          var loaded := LoadDescriptorValues();
          if tag == wanted && LType(typ) != LTYPE_EXTENSION {
            return true;
          }
        }
        SearchStep(desc, fields, wanted, start, before, visited, index);
        visited := visited + 1;
        if index == start {
          break;
        }
      }
      var loaded := LoadDescriptorValues();
      found := false;
    }

    /** Looks for an extension placeholder, the current field first, then all the way round. */
    method FindExtension() returns (found: bool)
      requires Valid()
      modifies this
      ensures Valid()
      ensures found <==> HasExtension(fields)
      ensures if found then LType(fields[index].typ) == LTYPE_EXTENSION else index == old(index)
    {
      hide Slice, Offset, RequiredBefore, SubmessagesBefore, Describes;
      DescribedHead(desc, fields, index);
      assert fields[index] in fields;
      if LType(typ) == LTYPE_EXTENSION {
        return true;
      }
      var start := index;
      ghost var visited := 0;
      while true
        invariant Counting(index) && visited < |fields|
        invariant index == if start + visited < |fields| then start + visited else start + visited - |fields|
        invariant forall i | 0 <= i < |fields| && Passed(start, visited, |fields|, i) ::
                    LType(fields[i].typ) != LTYPE_EXTENSION
        decreases |fields| - visited
      {
        AdvanceIterator();
        visited := visited + 1;
        DescribedHead(desc, fields, index);
        assert fields[index] in fields;
        var info := desc.fieldInfo[fieldInfoIndex];
        if LType(Slice(info, HEAD, 2)) == LTYPE_EXTENSION {
          found := LoadDescriptorValues();
          return;
        }
        if index == start {
          break;
        }
      }
      var loaded := LoadDescriptorValues();
      found := false;
    }
  }

  /** Going round from `start`, field `i` is among the first `visited + 1` fields. */
  predicate Passed(start: nat, visited: nat, count: nat, i: nat) {
    start <= i <= start + visited || i + count <= start + visited
  }

  /** Where the circular search is: `visited` fields after the start, or after a forced restart at the
      front, have been passed over. */
  ghost predicate Searching(fields: seq<FieldInfo>, wanted: nat, start: nat, index: nat, visited: nat) {
    && start < |fields| && fields[start].tag != wanted
    && if wanted < fields[start].tag then
         && visited <= start
         && index == (if visited == 0 then |fields| else visited - 1)
         && (forall i | 0 <= i < visited :: Misses(fields[i], wanted))
       else
         && visited < |fields|
         && index == (if start + visited < |fields| then start + visited else start + visited - |fields|)
         && (forall i | start < i < |fields| && i <= start + visited :: Misses(fields[i], wanted))
         && (forall i | 0 <= i <= start + visited - |fields| && i < |fields| :: Misses(fields[i], wanted))
  }

  lemma FindableAt(fields: seq<FieldInfo>, wanted: nat, start: nat)
    requires start < |fields|
    ensures fields[start].tag == wanted ==> Findable(fields, wanted, start)
  {
  }

  lemma FindableFrom(fields: seq<FieldInfo>, wanted: nat, start: nat, i: nat)
    requires start < |fields| && i < |fields|
    ensures !Misses(fields[i], wanted) ==> Findable(fields, wanted, start)
  {
  }

  lemma NoTagAbove(desc: MsgDesc, fields: seq<FieldInfo>, wanted: nat, start: nat)
    requires Describes(desc, fields) && start < |fields|
    ensures wanted > desc.largestTag ==> !Findable(fields, wanted, start)
  {
  }

  lemma SearchStart(fields: seq<FieldInfo>, wanted: nat, start: nat)
    requires start < |fields| && fields[start].tag != wanted
    ensures Searching(fields, wanted, start, if wanted < fields[start].tag then |fields| else start, 0)
  {
  }

  /** One step of the search from `index` to `next`, which is passed over. */
  lemma SearchStep(desc: MsgDesc, fields: seq<FieldInfo>, wanted: nat, start: nat, index: nat, visited: nat,
                   next: nat)
    requires Describes(desc, fields) && Searching(fields, wanted, start, index, visited)
    requires next == (if index + 1 < |fields| then index + 1 else 0) && Misses(fields[next], wanted)
    ensures visited <= |fields|
    ensures next != start ==> Searching(fields, wanted, start, next, visited + 1)
    ensures next == start ==> !Findable(fields, wanted, start)
  {
    if wanted < fields[start].tag {
      TagsAbove(desc, fields, wanted, start);
      assert next == visited;
    }
  }

  /** Tags rise: from a field with a larger tag on, the wanted one does not occur. */
  lemma TagsAbove(desc: MsgDesc, fields: seq<FieldInfo>, wanted: nat, start: nat)
    requires Describes(desc, fields) && start < |fields| && wanted < fields[start].tag
    ensures forall i | start <= i < |fields| :: Misses(fields[i], wanted)
  {
  }
}
