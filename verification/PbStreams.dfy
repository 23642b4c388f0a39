/**
 The byte streams of nanopb. An input stream is a read-only buffer with a position and the number
 of bytes still readable; an output stream is a buffer with the number of bytes written so far.
 Each method is proved against the functions of module Varint.
 */
module PbStreams {
  import opened Basics
  import opened Varint

  /** How many bytes the value of a record takes, by wire type alone: this is all skipping needs. */
  function BodyLength(wireType: nat, s: seq<byte>): (n: Option<nat>)
    ensures n.Some? ==> 0 < n.value <= |s|
  {
    match wireType
    case 0 => VarintLength(s)
    case 1 => if 8 <= |s| then Some(8) else None
    case 2 => (match Varint32(s)
               case None => None
               case Some(d) => if d.used + d.value <= |s| then Some(d.used + d.value) else None)
    case 5 => if 4 <= |s| then Some(4) else None
    case _ => None
  }

  /** A group at or above bit 35 does not reach the low 32 bits. */
  lemma HighGroupVanishes(p: nat, i: nat, x: nat)
    requires i >= 5
    ensures (p + Place(x, i)) % TWO_32 == p % TWO_32
  {
    PlaceFrom5(x, i);
    ModuloMultiple(p, 8 * Place(x, i - 5));
  }

  lemma ModuloMultiple(p: nat, q: nat)
    ensures (p + TWO_32 * q) % TWO_32 == p % TWO_32
  {
  }

  lemma PlaceFour(x: nat)
    ensures Place(x, 4) == 0x1000_0000 * x
  {
    assert Place(x, 1) == 0x80 * x && Place(x, 2) == 0x4000 * x && Place(x, 3) == 0x20_0000 * x;
  }

  lemma {:induction false} PlaceFrom5(x: nat, i: nat)
    requires i >= 5
    ensures Place(x, i) == 0x8_0000_0000 * Place(x, i - 5)
  {
    if i == 5 {
      PlaceFour(x);
    } else {
      PlaceFrom5(x, i - 1);
    }
  }

  class IStream {
    const data: seq<byte>
    var pos: nat
    var bytesLeft: nat

    ghost predicate Valid()
      reads this
    {
      pos + bytesLeft <= |data|
    }

    /** The bytes that can still be read. */
    ghost function Rest(): (s: seq<byte>)
      requires Valid()
      reads this
      ensures |s| == bytesLeft
    {
      data[pos..pos + bytesLeft]
    }

    /** The end of the readable part never moves: no operation reads past it. */
    ghost function End(): nat
      reads this
    {
      pos + bytesLeft
    }

    constructor FromBuffer(buf: seq<byte>, msgLen: nat)
      requires msgLen <= |buf|
      ensures Valid() && data == buf && End() == msgLen && Rest() == buf[..msgLen]
    {
      data := buf;
      pos := 0;
      bytesLeft := msgLen;
    }

    method Read(count: nat) returns (ok: bool, bytes: seq<byte>)
      requires Valid()
      modifies this
      ensures Valid() && End() == old(End())
      ensures ok <==> count <= old(bytesLeft)
      ensures ok ==> bytes == old(Rest())[..count] && Rest() == old(Rest())[count..]
      ensures !ok ==> Rest() == old(Rest())
    {
      bytes := [];
      if count == 0 {
        return true, bytes;
      }
      if bytesLeft < count {
        return false, bytes;
      }
      bytes := data[pos..pos + count];
      pos := pos + count;
      bytesLeft := bytesLeft - count;
      ok := true;
    }

    method ReadByte() returns (ok: bool, b: byte)
      requires Valid()
      modifies this
      ensures Valid() && End() == old(End())
      ensures ok <==> old(bytesLeft) > 0
      ensures ok ==> b == old(Rest())[0] && Rest() == old(Rest())[1..]
      ensures !ok ==> Rest() == old(Rest())
    {
      if bytesLeft == 0 {
        return false, 0;
      }
      b := data[pos];
      pos := pos + 1;
      bytesLeft := bytesLeft - 1;
      ok := true;
    }

    /** The 32-bit varint decoder: a fast path for one byte, then groups with two overflow rules. */
    method DecodeVarint32Eof() returns (ok: bool, dest: uint32, eof: bool)
      requires Valid()
      modifies this
      ensures Valid() && End() == old(End())
      ensures ok <==> Varint32(old(Rest())).Some?
      ensures ok ==> dest == Varint32(old(Rest())).value.value
      ensures ok ==> Rest() == old(Rest())[Varint32(old(Rest())).value.used..]
      ensures eof <==> old(Rest()) == []
      ensures if eof then bytesLeft == old(bytesLeft) else bytesLeft < old(bytesLeft)
    {
      ghost var s := Rest();
      dest, eof := 0, false;
      var got, b := ReadByte();
      if !got {
        if bytesLeft == 0 {
          eof := true;
        }
        return false, dest, eof;
      }
      var result: uint32;
      FirstGroup(s);
      ghost var i := 1;
      if b < 0x80 {
        result := b;
      } else {
        var bitpos := 7;
        result := b % 0x80;
        while b >= 0x80
          invariant Valid() && End() == old(End())
          invariant 1 <= i <= |s| && bitpos == 7 * i && Rest() == s[i..] && b == s[i - 1]
          invariant Groups32(s, i, result)
          decreases bytesLeft
        {
          got, b := ReadByte();
          if !got {
            return false, dest, eof;
          }
          assert b == s[i];
          if bitpos >= 32 {
            var signExtension := if bitpos < 63 then 0xFF else 0x01;
            var validExtension := b % 0x80 == 0 || (result / 0x8000_0000 != 0 && b == signExtension);
            if bitpos >= 64 || !validExtension {
              Rejected32(s, i, result);
              return false, dest, eof;
            }
            GroupAbove32(s, i, result);
          } else if bitpos == 28 {
            if (b % 0x80) / 0x10 != 0 && (b % 0x80) / 8 != 0xF {
              Rejected32(s, i, result);
              return false, dest, eof;
            }
            GroupAt28(s, result);
            result := result + Low4(b) * 0x1000_0000;
          } else {
            GroupBelow28(s, i, result);
            result := result + ShiftLeft(Low7(b), bitpos);
          }
          i := i + 1;
          bitpos := bitpos + 7;
        }
      }
      Finish32(s, i, result);
      dest := result;
      ok := true;
    }

    method DecodeVarint32() returns (ok: bool, dest: uint32)
      requires Valid()
      modifies this
      ensures Valid() && End() == old(End()) && bytesLeft <= old(bytesLeft)
      ensures ok <==> Varint32(old(Rest())).Some?
      ensures ok ==> dest == Varint32(old(Rest())).value.value
      ensures ok ==> Rest() == old(Rest())[Varint32(old(Rest())).value.used..]
    {
      var eof;
      ok, dest, eof := DecodeVarint32Eof();
    }

    method DecodeVarint() returns (ok: bool, dest: uint64)
      requires Valid()
      modifies this
      ensures Valid() && End() == old(End()) && bytesLeft <= old(bytesLeft)
      ensures ok <==> Varint64(old(Rest())).Some?
      ensures ok ==> dest == Varint64(old(Rest())).value.value
      ensures ok ==> Rest() == old(Rest())[Varint64(old(Rest())).value.used..]
    {
      ghost var s := Rest();
      ghost var i := 0;
      dest := 0;
      var bitpos := 0;
      var result: uint64 := 0;
      NoGroups(s);
      while true
        invariant Valid() && End() == old(End())
        invariant 0 <= i <= |s| && bitpos == 7 * i && Rest() == s[i..]
        invariant Groups64(s, i, result) && (i > 0 ==> s[i - 1] >= 0x80)
        decreases bytesLeft
      {
        var got, b := ReadByte();
        if !got {
          return false, dest;
        }
        assert b == s[i];
        if bitpos >= 63 && b >= 2 {
          Rejected64(s, i);
          return false, dest;
        }
        Group64(s, i, result);
        result := result + ShiftLeft(Low7(b), bitpos);
        i := i + 1;
        bitpos := bitpos + 7;
        if b < 0x80 {
          break;
        }
      }
      LengthIs(s, i);
      dest := result;
      ok := true;
    }

    method DecodeSvarint() returns (ok: bool, dest: int64)
      requires Valid()
      modifies this
      ensures Valid() && End() == old(End()) && bytesLeft <= old(bytesLeft)
      ensures ok <==> Varint64(old(Rest())).Some?
      ensures ok ==> dest == UnZigZag(Varint64(old(Rest())).value.value)
      ensures ok ==> Rest() == old(Rest())[Varint64(old(Rest())).value.used..]
    {
      dest := 0;
      var value;
      ok, value := DecodeVarint();
      if ok {
        // The complement of value/2, read as a two's complement number, is -(value/2) - 1.
        dest := if value % 2 == 1 then (TWO_64 - 1 - value / 2) - TWO_64 else value / 2;
      }
    }

    method SkipVarint() returns (ok: bool)
      requires Valid()
      modifies this
      ensures Valid() && End() == old(End()) && bytesLeft <= old(bytesLeft)
      ensures ok <==> VarintLength(old(Rest())).Some?
      ensures ok ==> Rest() == old(Rest())[VarintLength(old(Rest())).value..]
    {
      ghost var s := Rest();
      ghost var i := 0;
      while true
        invariant Valid() && End() == old(End())
        invariant 0 <= i <= |s| && Rest() == s[i..]
        invariant forall j | 0 <= j < i :: s[j] >= 0x80
        decreases bytesLeft
      {
        var got, b := Read(1);
        if !got {
          return false;
        }
        assert b[0] == s[i];
        i := i + 1;
        if b[0] < 0x80 {
          break;
        }
      }
      LengthIs(s, i);
      ok := true;
    }

    method SkipString() returns (ok: bool)
      requires Valid()
      modifies this
      ensures Valid() && End() == old(End()) && bytesLeft <= old(bytesLeft)
      ensures ok <==> BodyLength(2, old(Rest())).Some?
      ensures ok ==> Rest() == old(Rest())[BodyLength(2, old(Rest())).value..]
    {
      var length, bytes;
      ok, length := DecodeVarint32();
      if !ok {
        return false;
      }
      ok, bytes := Read(length);
    }

    method SkipField(wireType: nat) returns (ok: bool)
      requires Valid()
      modifies this
      ensures Valid() && End() == old(End()) && bytesLeft <= old(bytesLeft)
      ensures ok <==> BodyLength(wireType, old(Rest())).Some?
      ensures ok ==> Rest() == old(Rest())[BodyLength(wireType, old(Rest())).value..]
    {
      var bytes;
      match wireType
      case 0 => ok := SkipVarint();
      case 1 => ok, bytes := Read(8);
      case 2 => ok := SkipString();
      case 5 => ok, bytes := Read(4);
      case _ => ok := false;
    }

    method DecodeTag() returns (ok: bool, wireType: nat, tag: uint32, eof: bool)
      requires Valid()
      modifies this
      ensures Valid() && End() == old(End())
      ensures ok <==> Varint32(old(Rest())).Some?
      ensures ok ==> 8 * tag + wireType == Varint32(old(Rest())).value.value && wireType < 8
      ensures ok ==> Rest() == old(Rest())[Varint32(old(Rest())).value.used..]
      ensures eof <==> old(Rest()) == []
      ensures if eof then bytesLeft == old(bytesLeft) else bytesLeft < old(bytesLeft)
    {
      wireType, tag := 0, 0;
      var temp;
      ok, temp, eof := DecodeVarint32Eof();
      if ok {
        tag := temp / 8;
        wireType := temp % 8;
      }
    }
  }

  // ---------- What the 64-bit loop knows ----------

  ghost predicate Groups64(s: seq<byte>, i: nat, result: nat) {
    && i <= |s|
    && (forall j | 0 <= j < i - 1 :: s[j] >= 0x80)
    && Fits64(s[..i])
    && result == Payload(s[..i])
    && (i < 10 ==> result < Pow128(i))
  }

  lemma NoGroups(s: seq<byte>)
    ensures Groups64(s, 0, 0)
  {
    assert s[..0] == [];
  }

  lemma Rejected64(s: seq<byte>, i: nat)
    requires 9 <= i < |s| && s[i] >= 2 && forall j | 0 <= j < i :: s[j] >= 0x80
    ensures Varint64(s).None?
  {
    var d := VarintLength(s);
    if d.Some? && d.value == 10 {
      assert s[..10][9] == s[9];
    }
  }

  /** No shift of the 64-bit loop loses a bit: the tenth group is a single one. */
  lemma Group64(s: seq<byte>, i: nat, result: nat)
    requires Groups64(s, i, result) && (i > 0 ==> s[i - 1] >= 0x80) && i < |s|
    requires 7 * i >= 63 ==> s[i] < 2
    ensures Groups64(s, i + 1, result + ShiftLeft(Low7(s[i]), 7 * i))
    ensures result + ShiftLeft(Low7(s[i]), 7 * i) < TWO_64
  {
    PayloadSnoc(s[..i], s[i]);
    assert s[..i] + [s[i]] == s[..i + 1];
    ShiftIsPlace(Low7(s[i]), i);
    assert Pow128(9) == TWO_64 / 2 by { Pow128Values(); }
    if i < 9 {
      PlaceBound(Low7(s[i]), i);
      Pow128Monotone(i + 1, 9);
    } else {
      PlaceBit(Low7(s[i]), 9);
    }
  }

  // ---------- Output ----------

  class OStream {
    const buf: array<byte>
    const maxSize: nat
    var bytesWritten: nat

    ghost predicate Valid()
      reads this
    {
      bytesWritten <= maxSize <= buf.Length
    }

    ghost function Written(): (s: seq<byte>)
      requires Valid()
      reads this, buf
      ensures |s| == bytesWritten
    {
      buf[..bytesWritten]
    }

    constructor FromBuffer(buf: array<byte>, bufSize: nat)
      requires bufSize <= buf.Length
      ensures Valid() && this.buf == buf && maxSize == bufSize && Written() == []
    {
      this.buf := buf;
      maxSize := bufSize;
      bytesWritten := 0;
    }

    method Write(bytes: seq<byte>) returns (ok: bool)
      requires Valid()
      modifies this, buf
      ensures Valid()
      ensures ok <==> old(bytesWritten) + |bytes| <= maxSize
      ensures Written() == if ok then old(Written()) + bytes else old(Written())
    {
      if |bytes| > 0 && bytesWritten + |bytes| > maxSize {
        return false;
      }
      forall i | 0 <= i < |bytes| {
        buf[bytesWritten + i] := bytes[i];
      }
      bytesWritten := bytesWritten + |bytes|;
      ok := true;
    }

    /** Encodes a 64-bit number given as two halves, through a ten-byte buffer. */
    method EncodeVarintHalves(low: uint32, high: uint32) returns (ok: bool)
      requires Valid()
      modifies this, buf
      ensures Valid()
      ensures var b := VarintBytes(low + TWO_32 * high);
              && (ok <==> old(bytesWritten) + |b| <= maxSize)
              && Written() == if ok then old(Written()) + b else old(Written())
    {
      var buffer := new byte[10];
      var n := GroupsOf(low, high, buffer);
      ok := Write(buffer[..n]);
    }

    method EncodeVarint(value: uint64) returns (ok: bool)
      requires Valid()
      modifies this, buf
      ensures Valid()
      ensures var b := VarintBytes(value);
              && (ok <==> old(bytesWritten) + |b| <= maxSize)
              && Written() == if ok then old(Written()) + b else old(Written())
    {
      if value <= 0x7F {
        ok := Write([value]);
      } else {
        ok := EncodeVarintHalves(value % TWO_32, value / TWO_32);
      }
    }

    method EncodeSvarint(value: int64) returns (ok: bool)
      requires Valid()
      modifies this, buf
      ensures Valid()
      ensures var b := VarintBytes(ZigZag(value));
              && (ok <==> old(bytesWritten) + |b| <= maxSize)
              && Written() == if ok then old(Written()) + b else old(Written())
    {
      var zigzagged: uint64;
      if value < 0 {
        var masked := (value + TWO_64) % (TWO_64 / 2);
        zigzagged := TWO_64 - 1 - 2 * masked;
      } else {
        zigzagged := 2 * value;
      }
      ok := EncodeVarint(zigzagged);
    }

    method EncodeTag(wireType: nat, fieldNumber: uint32) returns (ok: bool)
      requires Valid() && wireType < 8
      modifies this, buf
      ensures Valid()
      ensures var b := VarintBytes(8 * fieldNumber + wireType);
              && (ok <==> old(bytesWritten) + |b| <= maxSize)
              && Written() == if ok then old(Written()) + b else old(Written())
    {
      ok := EncodeVarint(8 * fieldNumber + wireType);
    }

    /** Length prefix and contents. A failed call may have written the prefix. */
    method EncodeString(bytes: seq<byte>) returns (ok: bool)
      requires Valid() && |bytes| < TWO_32
      modifies this, buf
      ensures Valid()
      ensures var b := VarintBytes(|bytes|) + bytes;
              && (ok <==> old(bytesWritten) + |b| <= maxSize)
              && (ok ==> Written() == old(Written()) + b)
      ensures !ok ==> old(Written()) <= Written()
    {
      ok := EncodeVarint(|bytes|);
      if !ok {
        return false;
      }
      ok := Write(bytes);
    }
  }

  // ---------- The two halves ----------

  method Store(buffer: array<byte>, i: nat, b: byte) returns (next: nat)
    requires i < buffer.Length
    modifies buffer
    ensures next == i + 1 && buffer[..next] == old(buffer[..i]) + [b]
  {
    buffer[i] := b;
    next := i + 1;
  }

  /** Splits the two halves into groups, shifting 32-bit words only. */
  method GroupsOf(low0: uint32, high0: uint32, buffer: array<byte>) returns (n: nat)
    requires buffer.Length == 10
    modifies buffer
    ensures n <= 10 && buffer[..n] == VarintBytes(low0 + TWO_32 * high0)
  {
    var i, current := LowGroups(low0, high0, buffer);
    if high0 != 0 {
      HighStart(current, high0);
      i, current := HighGroups(current + 0x10 * (high0 % 8), high0 / 8, buffer);
    }
    n := Store(buffer, i, current);
  }

  /** The groups of the low word: all of them when the high word is zero, else the first four. */
  method LowGroups(low0: uint32, high: uint32, buffer: array<byte>) returns (i: nat, current: byte)
    requires buffer.Length == 10
    modifies buffer
    ensures i <= 4 && (high != 0 ==> i == 4 && current < 0x10)
    ensures VarintBytes(low0 + TWO_32 * high)
         == buffer[..i] + (if high == 0 then [current] else VarintBytes(Remaining(4, current, 0, high)))
  {
    hide VarintBytes;
    ghost var v := low0 + TWO_32 * high;
    var low: uint32 := low0 / 0x80;
    i, current := 0, low0 % 0x80;
    while i < 4 && (low != 0 || high != 0)
      invariant 0 <= i <= 4 && current < 0x80
      invariant LowPart(i, current, low)
      invariant VarintBytes(v) == buffer[..i] + VarintBytes(Remaining(i, current, low, high))
      decreases 4 - i
    {
      LowStep(i, current, low, high);
      i := Store(buffer, i, current + 0x80);
      current := low % 0x80;
      low := low / 0x80;
    }
    OneGroup(current);
  }

  /** The rest of the high word, once the first four groups are stored and the fifth is in hand. */
  method HighGroups(first: byte, high0: uint32, buffer: array<byte>) returns (i: nat, current: byte)
    requires buffer.Length == 10 && first < 0x80 && HighPart(4, high0)
    modifies buffer
    ensures i < 10 && current < 0x80
    ensures buffer[..i] + [current] == old(buffer[..4]) + VarintBytes(Spread(first, high0))
  {
    ghost var whole := buffer[..4] + VarintBytes(Spread(first, high0));
    var high: uint32 := high0;
    i, current := 4, first;
    while high != 0
      invariant 4 <= i < 10 && current < 0x80 && HighPart(i, high)
      invariant whole == buffer[..i] + VarintBytes(Spread(current, high))
      decreases high
    {
      HighStep(i, current, high);
      i := Store(buffer, i, current + 0x80);
      current := high % 0x80;
      high := high / 0x80;
    }
  }

  /** Weight of the high word when `i` groups of the low word have been taken. */
  ghost function HighWeight(i: nat): nat {
    match i
    case 0 => 0x200_0000
    case 1 => 0x4_0000
    case 2 => 0x800
    case _ => 0x10
  }

  /** How much of the low word is left, beside the group in hand. */
  ghost predicate LowPart(i: nat, current: nat, low: nat) {
    if i < 4 then low < HighWeight(i) else current < 0x10 && low == 0
  }

  ghost function Remaining(i: nat, current: nat, low: nat, high: nat): nat {
    if i < 4 then current + 0x80 * (low + HighWeight(i) * high) else current + 0x10 * high
  }

  /** A number split into the group in hand and what is above it. */
  ghost function Spread(current: nat, above: nat): nat {
    current + 0x80 * above
  }

  lemma LowStep(i: nat, current: byte, low: nat, high: nat)
    requires i < 4 && current < 0x80 && LowPart(i, current, low) && (low != 0 || high != 0)
    ensures LowPart(i + 1, low % 0x80, low / 0x80)
    ensures VarintBytes(Remaining(i, current, low, high))
         == [current + 0x80] + VarintBytes(Remaining(i + 1, low % 0x80, low / 0x80, high))
  {
    var r := low + HighWeight(i) * high;
    assert HighWeight(i) * high >= high;
    assert Remaining(i + 1, low % 0x80, low / 0x80, high) == r;
  }

  /** At most five groups of the high word follow the first four of the low one. */
  ghost predicate HighPart(i: nat, high: nat) {
    match i
    case 4 => high < 0x2000_0000
    case 5 => high < 0x40_0000
    case 6 => high < 0x8000
    case 7 => high < 0x100
    case 8 => high < 2
    case _ => high == 0
  }

  lemma LowBits(b: byte)
    ensures Low7(b) == Low4(b) + 0x10 * (Low7(b) / 0x10)
    ensures Low4(b) / 8 == (b / 8) % 2
  {
    var h := b / 0x80;
    assert b == 0x80 * h + Low7(b);
    assert Low7(b) % 0x10 == Low4(b);
    assert b / 8 == 0x10 * h + Low7(b) / 8;
    assert Low7(b) / 8 == 2 * (Low7(b) / 0x10) + Low4(b) / 8;
  }

  lemma OneGroup(x: byte)
    ensures x < 0x80 ==> VarintBytes(x) == [x]
  {
  }

  lemma HighStart(current: byte, high: uint32)
    requires current < 0x10
    ensures current + 0x10 * (high % 8) < 0x80 && HighPart(4, high / 8)
    ensures Remaining(4, current, 0, high) == Spread(current + 0x10 * (high % 8), high / 8)
  {
  }

  lemma HighStep(i: nat, current: byte, high: nat)
    requires current < 0x80 && high != 0 && HighPart(i, high)
    ensures HighPart(i + 1, high / 0x80)
    ensures VarintBytes(Spread(current, high)) == [current + 0x80] + VarintBytes(Spread(high % 0x80, high / 0x80))
  {
    assert Spread(current, high) % 0x80 == current && Spread(current, high) / 0x80 == high;
  }

  lemma FifthGroup(p: nat, b: byte)
    requires p < 0x1000_0000
    ensures (p + 0x1000_0000 * Low7(b)) % TWO_32 == p + 0x1000_0000 * Low4(b)
    ensures (p + 0x1000_0000 * Low4(b)) / 0x8000_0000 == (b / 8) % 2
  {
    LowBits(b);
    ModuloMultiple(p + 0x1000_0000 * Low4(b), Low7(b) / 0x10);
  }

  /** What the 32-bit loop knows after `i` bytes, of which only the last may end the varint. */
  ghost predicate Groups32(s: seq<byte>, i: nat, result: nat) {
    && 1 <= i <= |s|
    && (forall j | 0 <= j < i - 1 :: s[j] >= 0x80)
    && Fits32(s[..i])
    && result == Payload(s[..i]) % TWO_32
    && (i < 5 ==> Payload(s[..i]) < Pow128(i))
    && (i >= 5 ==> result / 0x8000_0000 == (s[4] / 8) % 2)
  }

  lemma FirstGroup(s: seq<byte>)
    requires s != []
    ensures Groups32(s, 1, Low7(s[0]))
  {
    assert s[..1] == [s[0]] && [s[0]][1..] == [];
    Pow128Values();
  }

  lemma Finish32(s: seq<byte>, n: nat, result: nat)
    requires Groups32(s, n, result) && s[n - 1] < 0x80
    ensures Varint32(s) == Some(Decoded(result, n))
  {
    LengthIs(s, n);
  }

  /** A run of high bytes that breaks a 32-bit rule is the start of no acceptable varint. */
  lemma Rejected32(s: seq<byte>, i: nat, result: nat)
    requires Groups32(s, i, result) && s[i - 1] >= 0x80 && 4 <= i < |s|
    requires i == 4 ==> !FifthByte(s[4])
    requires 5 <= i < 10 ==> !ExtensionByte(s[4], s[i], i)
    ensures Varint32(s).None?
  {
    var d := VarintLength(s);
    if d.Some? && 5 <= i < d.value {
      assert s[..d.value][4] == s[4] && s[..d.value][i] == s[i];
    }
  }

  lemma GroupBelow28(s: seq<byte>, i: nat, result: nat)
    requires Groups32(s, i, result) && s[i - 1] >= 0x80 && i < |s| && i < 4
    ensures Groups32(s, i + 1, result + ShiftLeft(Low7(s[i]), 7 * i))
    ensures result + ShiftLeft(Low7(s[i]), 7 * i) < TWO_32
  {
    PayloadSnoc(s[..i], s[i]);
    assert s[..i] + [s[i]] == s[..i + 1];
    ShiftIsPlace(Low7(s[i]), i);
    PlaceBound(Low7(s[i]), i);
    Pow128Monotone(i + 1, 4);
    assert Pow128(4) < TWO_32 by { Pow128Values(); }
  }

  lemma GroupAt28(s: seq<byte>, result: nat)
    requires Groups32(s, 4, result) && s[3] >= 0x80 && 4 < |s| && FifthByte(s[4])
    ensures Groups32(s, 5, result + Low4(s[4]) * 0x1000_0000)
    ensures result + Low4(s[4]) * 0x1000_0000 < TWO_32
  {
    PayloadSnoc(s[..4], s[4]);
    assert s[..4] + [s[4]] == s[..5];
    PlaceFour(Low7(s[4]));
    assert Pow128(4) == 0x1000_0000 by { Pow128Values(); }
    FifthGroup(result, s[4]);
    assert result == Payload(s[..4]);
  }

  lemma GroupAbove32(s: seq<byte>, i: nat, result: nat)
    requires Groups32(s, i, result) && s[i - 1] >= 0x80 && i < |s|
    requires 5 <= i < 10 && ExtensionByte(s[4], s[i], i)
    ensures Groups32(s, i + 1, result)
  {
    PayloadSnoc(s[..i], s[i]);
    assert s[..i] + [s[i]] == s[..i + 1];
    HighGroupVanishes(Payload(s[..i]), i, Low7(s[i]));
    FitsSnoc(s, i);
  }

  lemma FitsSnoc(s: seq<byte>, i: nat)
    requires 5 <= i < 10 && i < |s| && Fits32(s[..i]) && ExtensionByte(s[4], s[i], i)
    ensures Fits32(s[..i + 1])
  {
    assert s[..i][4] == s[4];
    assert forall j | 5 <= j < i :: s[..i + 1][j] == s[..i][j];
  }
}
