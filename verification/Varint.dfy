/**
 Base-128 varints and ZigZag numbers as functions on byte sequences: the reference the stream
 methods in PbStreams are proved against, and the laws of those functions.
 */
module Varint {
  import opened Basics

  /** A value together with the number of bytes it occupied. */
  datatype Decoded = Decoded(value: nat, used: nat)

  /** `x << n`, by doubling, so that proofs about it stay linear. */
  function ShiftLeft(x: nat, n: nat): nat {
    if n == 0 then x else 2 * ShiftLeft(x, n - 1)
  }

  /** The contribution of `x` as group number `i` of a varint. */
  ghost function Place(x: nat, i: nat): nat {
    if i == 0 then x else 0x80 * Place(x, i - 1)
  }

  ghost function Pow128(n: nat): (p: nat)
    ensures p > 0
  {
    if n == 0 then 1 else 128 * Pow128(n - 1)
  }

  /** Length of the varint at the front of `s`: up to and including the first byte below 0x80. */
  function VarintLength(s: seq<byte>): (n: Option<nat>)
    ensures n.Some? ==> 0 < n.value <= |s| && s[n.value - 1] < 0x80
    ensures n.Some? ==> forall i | 0 <= i < n.value - 1 :: s[i] >= 0x80
    ensures n.None? ==> forall i | 0 <= i < |s| :: s[i] >= 0x80
  {
    if s == [] then None
    else if s[0] < 0x80 then Some(1)
    else match VarintLength(s[1..])
      case None => None
      case Some(n) => Some(n + 1)
  }

  /** The seven value bits of a byte. */
  function Low7(b: byte): (g: nat)
    ensures g < 0x80
  {
    b % 0x80
  }

  /** The four value bits of the fifth byte that still fit 32 bits. */
  function Low4(b: byte): (g: nat)
    ensures g < 0x10
  {
    b % 0x10
  }

  /** The number spelled by the low seven bits of each byte, lowest group first. */
  function Payload(b: seq<byte>): nat {
    if b == [] then 0 else Low7(b[0]) + 0x80 * Payload(b[1..])
  }

  /** The canonical (shortest) varint of `v`. */
  function VarintBytes(v: nat): (b: seq<byte>)
    ensures |b| > 0
  {
    if v < 0x80 then [v] else [0x80 + v % 0x80] + VarintBytes(v / 0x80)
  }

  /** Encodings the 64-bit decoder takes: at most ten bytes, and the tenth holds one bit. */
  predicate Fits64(b: seq<byte>) {
    |b| <= 10 && (|b| == 10 ==> b[9] < 2)
  }

  /** A byte past bit 32 must be empty padding, or the sign extension of a negative int32, whose sign
      is bit 3 of the fifth byte. */
  predicate ExtensionByte(fifth: byte, x: byte, i: nat) {
    x % 0x80 == 0 || ((fifth / 8) % 2 == 1 && x == (if i < 9 then 0xFF else 0x01))
  }

  /** The fifth byte: nothing above bit 31, or all ones there. */
  predicate FifthByte(x: byte) {
    (x % 0x80) / 0x10 == 0 || (x % 0x80) / 8 == 0xF
  }

  /** Encodings the 32-bit decoder takes. */
  predicate Fits32(b: seq<byte>) {
    && |b| <= 10
    && (|b| >= 5 ==> FifthByte(b[4]))
    && forall i | 5 <= i < |b| :: ExtensionByte(b[4], b[i], i)
  }

  function Varint64(s: seq<byte>): (d: Option<Decoded>)
    ensures d.Some? ==> 0 < d.value.used <= |s|
  {
    match VarintLength(s)
    case None => None
    case Some(n) => if Fits64(s[..n]) then Some(Decoded(Payload(s[..n]), n)) else None
  }

  function Varint32(s: seq<byte>): (d: Option<Decoded>)
    ensures d.Some? ==> 0 < d.value.used <= |s| && d.value.value < TWO_32
  {
    match VarintLength(s)
    case None => None
    case Some(n) => if Fits32(s[..n]) then Some(Decoded(Payload(s[..n]) % TWO_32, n)) else None
  }

  // ---------- ZigZag ----------

  function ZigZag(s: int): (u: nat) {
    if s < 0 then -2 * s - 1 else 2 * s
  }

  function UnZigZag(u: nat): int {
    if u % 2 == 1 then -(u / 2) - 1 else u / 2
  }

  lemma ZigZagRoundTrip(s: int64, u: uint64)
    ensures ZigZag(s) < TWO_64 && UnZigZag(ZigZag(s)) == s
    ensures -0x8000_0000_0000_0000 <= UnZigZag(u) < 0x8000_0000_0000_0000 && ZigZag(UnZigZag(u)) == u
  {
  }

  /** The codes go by magnitude, a positive number before its negative: 0, 1, -1, 2, -2 and so on. Together with the
      bijection this leaves no other map. */
  lemma ZigZagOrder(a: int, b: int)
    ensures (if a < 0 then -a else a) < (if b < 0 then -b else b) ==> ZigZag(a) < ZigZag(b)
    ensures a > 0 ==> ZigZag(a) == ZigZag(-a) + 1
    ensures ZigZag(0) == 0 && ZigZag(-1) == 1 && ZigZag(1) == 2
  {
  }

  // ---------- Powers ----------

  lemma {:induction false} ShiftIsPlace(x: nat, i: nat)
    ensures ShiftLeft(x, 7 * i) == Place(x, i)
  {
    if i > 0 {
      ShiftIsPlace(x, i - 1);
      assert ShiftLeft(x, 7 * i) == 2 * ShiftLeft(x, 7 * i - 1) == 4 * ShiftLeft(x, 7 * i - 2);
      assert ShiftLeft(x, 7 * i - 2) == 2 * ShiftLeft(x, 7 * i - 3) == 4 * ShiftLeft(x, 7 * i - 4);
      assert ShiftLeft(x, 7 * i - 4) == 2 * ShiftLeft(x, 7 * i - 5) == 4 * ShiftLeft(x, 7 * i - 6);
    }
  }

  lemma {:induction false} PlaceBound(x: nat, i: nat)
    requires x < 0x80
    ensures Place(x, i) + Pow128(i) <= Pow128(i + 1)
  {
    if i > 0 {
      PlaceBound(x, i - 1);
    }
  }

  lemma {:induction false} PlaceBit(x: nat, i: nat)
    requires x < 2
    ensures Place(x, i) <= Pow128(i)
  {
    if i > 0 {
      PlaceBit(x, i - 1);
    }
  }

  lemma Pow128Values()
    ensures Pow128(4) == 0x1000_0000 && Pow128(5) == 0x8_0000_0000 && Pow128(9) == 0x8000_0000_0000_0000
    ensures Pow128(0) == 1 && Pow128(1) == 0x80 && Pow128(2) == 0x4000 && Pow128(3) == 0x20_0000
    ensures Pow128(6) == 0x400_0000_0000 && Pow128(7) == 0x2_0000_0000_0000 && Pow128(8) == 0x100_0000_0000_0000
  {
    assert Pow128(0) == 1 && Pow128(1) == 0x80 && Pow128(2) == 0x4000 && Pow128(3) == 0x20_0000;
    assert Pow128(4) == 0x1000_0000 && Pow128(5) == 0x8_0000_0000 && Pow128(6) == 0x400_0000_0000;
    assert Pow128(7) == 0x2_0000_0000_0000 && Pow128(8) == 0x100_0000_0000_0000;
  }

  // ---------- Payload ----------

  /** Decoding left to right: one more byte adds its group at the next power of 128. */
  lemma {:induction false} PayloadSnoc(b: seq<byte>, x: byte)
    ensures Payload(b + [x]) == Payload(b) + Place(Low7(x), |b|)
  {
    if b == [] {
      assert [] + [x] == [x];
      assert [x][1..] == [];
    } else {
      PayloadSnoc(b[1..], x);
      assert (b + [x])[1..] == b[1..] + [x];
    }
  }

  lemma {:induction false} PayloadBound(b: seq<byte>)
    ensures Payload(b) < Pow128(|b|)
  {
    if b != [] {
      PayloadBound(b[1..]);
    }
  }

  lemma {:induction false} LengthOfPrefix(s: seq<byte>, t: seq<byte>)
    requires VarintLength(s).Some?
    ensures VarintLength(s + t) == VarintLength(s)
  {
    if s[0] >= 0x80 {
      LengthOfPrefix(s[1..], t);
      assert (s + t)[1..] == s[1..] + t;
    }
  }

  /** The length is determined by its property: the only position that ends the run of high bytes. */
  lemma {:induction false} LengthIs(s: seq<byte>, n: nat)
    requires 0 < n <= |s| && s[n - 1] < 0x80 && forall i | 0 <= i < n - 1 :: s[i] >= 0x80
    ensures VarintLength(s) == Some(n)
  {
    if n > 1 {
      LengthIs(s[1..], n - 1);
    }
  }

  // ---------- Encoding ----------

  lemma ContinuedByte(v: nat)
    ensures Low7(0x80 + v % 0x80) + 0x80 * (v / 0x80) == v
  {
  }

  lemma {:induction false} EncodeTerminates(v: nat)
    ensures VarintLength(VarintBytes(v)) == Some(|VarintBytes(v)|)
  {
    if v >= 0x80 {
      EncodeTerminates(v / 0x80);
      assert VarintBytes(v)[1..] == VarintBytes(v / 0x80);
    }
  }

  lemma {:induction false} EncodePayload(v: nat)
    ensures Payload(VarintBytes(v)) == v
  {
    var b := VarintBytes(v);
    if v < 0x80 {
      assert b[1..] == [];
    } else {
      EncodePayload(v / 0x80);
      assert b[1..] == VarintBytes(v / 0x80);
      ContinuedByte(v);
    }
  }

  lemma EncodeShape(v: nat)
    ensures VarintLength(VarintBytes(v)) == Some(|VarintBytes(v)|)
    ensures Payload(VarintBytes(v)) == v
  {
    EncodeTerminates(v);
    EncodePayload(v);
  }

  lemma {:induction false} LongNeedsLarge(v: nat)
    ensures |VarintBytes(v)| == 1 || Pow128(|VarintBytes(v)| - 1) <= v
  {
    if v >= 0x80 {
      LongNeedsLarge(v / 0x80);
    }
  }

  /** No varint of the same value is shorter than the canonical one. */
  lemma Minimal(v: nat, b: seq<byte>)
    requires Payload(b) == v && b != []
    ensures |VarintBytes(v)| <= |b|
  {
    LongNeedsLarge(v);
    PayloadBound(b);
    Pow128Monotone(|b|, |VarintBytes(v)| - 1);
  }

  lemma {:induction false} Pow128Monotone(a: nat, b: nat)
    ensures a <= b ==> Pow128(a) <= Pow128(b)
  {
    if a < b {
      Pow128Monotone(a, b - 1);
    }
  }

  lemma {:induction false} LengthAtMost(v: nat, n: nat)
    requires 0 < n && v < Pow128(n)
    ensures |VarintBytes(v)| <= n
  {
    if v >= 0x80 {
      Pow128Values();
      LengthAtMost(v / 0x80, n - 1);
    }
  }

  lemma EncodeLength(v: nat)
    ensures v < 0x80 ==> |VarintBytes(v)| == 1
    ensures v < 0x4000 ==> |VarintBytes(v)| <= 2
    ensures v < TWO_32 ==> |VarintBytes(v)| <= 5
    ensures v < TWO_64 ==> |VarintBytes(v)| <= 10
  {
    Pow128Values();
    if v < 0x4000 { LengthAtMost(v, 2); }
    if v < TWO_32 { LengthAtMost(v, 5); }
    if v < TWO_64 { assert Pow128(10) == 0x80 * Pow128(9); LengthAtMost(v, 10); }
  }

  lemma TenthGroup(b: seq<byte>)
    requires |b| == 10 && Payload(b) < TWO_64
    ensures Low7(b[9]) < 2
  {
    FiveGroups(b);
    FiveGroups(b[5..]);
    assert b[5..][4] == b[9];
  }

  lemma EncodeFits64(v: uint64)
    ensures Fits64(VarintBytes(v))
  {
    EncodeShape(v);
    EncodeLength(v);
    if |VarintBytes(v)| == 10 {
      TenthGroup(VarintBytes(v));
    }
  }

  lemma EncodeFits32(v: uint32)
    ensures Fits32(VarintBytes(v))
  {
    EncodePayload(v);
    EncodeLength(v);
    if |VarintBytes(v)| == 5 {
      SmallValue(VarintBytes(v));
    }
  }

  /** Both decoders look at the varint only, never at what follows. */
  lemma DecodePrefix(b: seq<byte>, t: seq<byte>)
    requires VarintLength(b).Some?
    ensures Varint64(b + t) == Varint64(b) && Varint32(b + t) == Varint32(b)
  {
    LengthOfPrefix(b, t);
    var n := VarintLength(b).value;
    assert (b + t)[..n] == b[..n];
  }

  lemma CanonicalDecodes(v: nat)
    ensures v < TWO_64 ==> Varint64(VarintBytes(v)) == Some(Decoded(v, |VarintBytes(v)|))
    ensures v < TWO_32 ==> Varint32(VarintBytes(v)) == Some(Decoded(v, |VarintBytes(v)|))
  {
    var b := VarintBytes(v);
    EncodeShape(v);
    assert b[..|b|] == b;
    if v < TWO_64 { EncodeFits64(v); }
    if v < TWO_32 { EncodeFits32(v); }
  }

  /** Every 64-bit value comes back, whatever follows it, and exactly the rest is left. */
  lemma RoundTrip64(v: uint64, t: seq<byte>)
    ensures Varint64(VarintBytes(v) + t) == Some(Decoded(v, |VarintBytes(v)|))
    ensures (VarintBytes(v) + t)[|VarintBytes(v)|..] == t
  {
    EncodeShape(v);
    CanonicalDecodes(v);
    DecodePrefix(VarintBytes(v), t);
  }

  lemma RoundTrip32(v: uint32, t: seq<byte>)
    ensures Varint32(VarintBytes(v) + t) == Some(Decoded(v, |VarintBytes(v)|))
    ensures (VarintBytes(v) + t)[|VarintBytes(v)|..] == t
  {
    EncodeShape(v);
    CanonicalDecodes(v);
    DecodePrefix(VarintBytes(v), t);
  }

  lemma RoundTripSigned(s: int64, t: seq<byte>)
    ensures var d := Varint64(VarintBytes(ZigZag(s)) + t);
            d.Some? && UnZigZag(d.value.value) == s && d.value.used == |VarintBytes(ZigZag(s))| <= 10
  {
    RoundTrip64(ZigZag(s), t);
    EncodeLength(ZigZag(s));
  }

  // ---------- The 32-bit decoder against the 64-bit one ----------

  lemma Value64Bound(b: seq<byte>)
    requires Fits64(b)
    ensures Payload(b) < TWO_64
  {
    PayloadBound(b);
    Pow128Values();
    if |b| == 10 {
      PayloadBound(b[..9]);
      PayloadSnoc(b[..9], b[9]);
      assert b[..9] + [b[9]] == b;
    } else {
      Pow128Monotone(|b|, 9);
    }
  }

  /** Whatever the 32-bit decoder accepts, the 64-bit one accepts, over the same bytes and with the
      same low 32 bits. */
  lemma Refines64(s: seq<byte>)
    requires Varint32(s).Some?
    ensures Varint64(s).Some?
    ensures Varint64(s).value.used == Varint32(s).value.used
    ensures Varint64(s).value.value % TWO_32 == Varint32(s).value.value
  {
    var n := VarintLength(s).value;
    var b := s[..n];
    if n == 10 {
      assert ExtensionByte(b[4], b[9], 9);
    }
  }

  /** What the 32-bit decoder drops is sign extension only: a result below 2^31 is the whole number encoded. */
  lemma NothingDropped(s: seq<byte>)
    requires Varint32(s).Some? && Varint32(s).value.value < 0x8000_0000
    ensures Varint64(s).Some? && Varint64(s).value == Varint32(s).value
  {
    Refines64(s);
    var b := s[..VarintLength(s).value];
    PayloadBound(b);
    Pow128Values();
    if |b| < 5 {
      Pow128Monotone(|b|, 4);
    } else {
      FiveGroups(b);
      NoExtension(b);
    }
  }

  lemma NoExtension(b: seq<byte>)
    requires |b| >= 5 && Fits32(b) && Payload(b) % TWO_32 < 0x8000_0000
    ensures Payload(b) < TWO_32
  {
    FiveGroups(b);
    var low := Low7(b[0]) + 0x80 * Low7(b[1]) + 0x4000 * Low7(b[2]) + 0x20_0000 * Low7(b[3]);
    var rest := Payload(b[5..]);
    SignBit(low, Low7(b[4]), rest);
    assert (b[4] / 8) % 2 == 0;
    forall i | 5 <= i < |b| ensures Low7(b[i]) == 0 {
      assert ExtensionByte(b[4], b[i], i);
    }
    AllZero(b[5..]);
  }

  lemma SignBit(low: nat, g: nat, rest: nat)
    requires low < 0x1000_0000 && g < 0x80
    requires (low + 0x1000_0000 * g + 0x8_0000_0000 * rest) % TWO_32 < 0x8000_0000
    ensures (g / 8) % 2 == 0
  {
    var x, k := low + 0x1000_0000 * (g % 0x10), g / 0x10 + 8 * rest;
    assert low + 0x1000_0000 * g + 0x8_0000_0000 * rest == x + TWO_32 * k;
    assert (x + TWO_32 * k) / TWO_32 == k;
    assert g % 0x10 < 8;
  }

  lemma {:induction false} AllZero(b: seq<byte>)
    requires forall i | 0 <= i < |b| :: Low7(b[i]) == 0
    ensures Payload(b) == 0
  {
    if b != [] { AllZero(b[1..]); }
  }

  /** Groups above bit 35, and the bits of the fifth above bit 32, all zero. */
  lemma SmallValue(b: seq<byte>)
    requires |b| >= 5 && Payload(b) < TWO_32
    ensures Low7(b[4]) < 0x10 && forall i | 5 <= i < |b| :: Low7(b[i]) == 0
  {
    FiveGroups(b);
    ZeroGroups(b[5..]);
    forall i | 5 <= i < |b| ensures Low7(b[i]) == 0 {
      assert b[5..][i - 5] == b[i];
    }
  }

  lemma {:induction false} ZeroGroups(b: seq<byte>)
    ensures Payload(b) == 0 ==> forall i | 0 <= i < |b| :: Low7(b[i]) == 0
  {
    if b != [] {
      ZeroGroups(b[1..]);
      assert forall i | 1 <= i < |b| :: b[i] == b[1..][i - 1];
    }
  }

  /** The first five groups written out, so that bounds on the number are linear arithmetic. */
  lemma FiveGroups(b: seq<byte>)
    requires |b| >= 5
    ensures Payload(b) == Low7(b[0]) + 0x80 * Low7(b[1]) + 0x4000 * Low7(b[2]) + 0x20_0000 * Low7(b[3])
                          + 0x1000_0000 * Low7(b[4]) + 0x8_0000_0000 * Payload(b[5..])
  {
    assert b[4..][1..] == b[5..] && b[3..][1..] == b[4..] && b[2..][1..] == b[3..] && b[1..][1..] == b[2..];
    assert Payload(b[4..]) == Low7(b[4]) + 0x80 * Payload(b[5..]);
    assert Payload(b[3..]) == Low7(b[3]) + 0x80 * Payload(b[4..]);
    assert Payload(b[2..]) == Low7(b[2]) + 0x80 * Payload(b[3..]);
    assert Payload(b[1..]) == Low7(b[1]) + 0x80 * Payload(b[2..]);
  }

  /** A number in the top 2^31 of the 64-bit range spells out ten bytes of sign extension. */
  lemma NegativeValue(b: seq<byte>)
    requires Fits64(b) && TWO_64 - 0x8000_0000 <= Payload(b)
    ensures |b| == 10 && Low7(b[4]) >= 0x78 && Low7(b[9]) == 1 && forall i | 5 <= i < 9 :: Low7(b[i]) == 0x7F
  {
    PayloadBound(b);
    Pow128Values();
    Pow128Monotone(|b|, 9);
    FiveGroups(b);
    var c := b[5..];
    FiveGroups(c);
    assert c[5..] == [] && b[9] == c[4];
    assert forall i | 5 <= i < 9 :: b[i] == c[i - 5];
  }

  lemma Fits32From64(b: seq<byte>)
    requires Fits64(b) && (Payload(b) < TWO_32 || TWO_64 - 0x8000_0000 <= Payload(b))
    requires forall i | 0 <= i < |b| - 1 :: b[i] >= 0x80
    ensures Fits32(b)
  {
    if Payload(b) < TWO_32 {
      if |b| >= 5 { SmallValue(b); }
    } else {
      NegativeValue(b);
    }
  }

  /** Conversely, a 64-bit encoding of a number below 2^32 or of a sign-extended negative int32 is
      accepted by the 32-bit decoder. */
  lemma Accepts32(s: seq<byte>)
    requires Varint64(s).Some?
    requires var v := Varint64(s).value.value; v < TWO_32 || TWO_64 - 0x8000_0000 <= v
    ensures Varint32(s).Some?
    ensures Varint32(s).value == Varint64(s).value.(value := Varint64(s).value.value % TWO_32)
  {
    Fits32From64(s[..VarintLength(s).value]);
  }
}
