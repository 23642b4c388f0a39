/**
 The checksum over the device keypair: CRC-16 with generator x^16 + x^12 + x^5 + 1 (ITU-T Recommendation
 V.41), initial value 0xFFFF. A natural number stands for the polynomial over GF(2) with its bits as
 coefficients, so addition of polynomials is `Xor` and multiplication by x is doubling.
 */
module Crc16 {
  import opened Basics

  // ---------- Polynomials over GF(2) ----------

  function Xor(a: nat, b: nat): nat
    decreases a
  {
    if a == 0 then b else (a + b) % 2 + 2 * Xor(a / 2, b / 2)
  }

  lemma {:induction false} XorZero(a: nat)
    ensures Xor(a, 0) == a
  {
    if a != 0 { XorZero(a / 2); }
  }

  lemma {:induction false} XorCommutes(a: nat, b: nat)
    ensures Xor(a, b) == Xor(b, a)
    decreases a + b
  {
    if a == 0 {
      XorZero(b);
    } else if b == 0 {
      XorZero(a);
    } else {
      XorCommutes(a / 2, b / 2);
    }
  }

  lemma XorHalf(a: nat, b: nat)
    ensures Xor(a, b) == 2 * Xor(a / 2, b / 2) + (a + b) % 2
    ensures Xor(a, b) / 2 == Xor(a / 2, b / 2) && Xor(a, b) % 2 == (a + b) % 2
  {
  }

  lemma {:induction false} XorAssociates(a: nat, b: nat, c: nat)
    ensures Xor(Xor(a, b), c) == Xor(a, Xor(b, c))
    decreases a + b + c
  {
    hide Xor;
    if a + b + c == 0 {
      XorZero(0);
    } else {
      XorAssociates(a / 2, b / 2, c / 2);
      XorHalf(a, b);
      XorHalf(b, c);
      XorHalf(Xor(a, b), c);
      XorHalf(a, Xor(b, c));
      SameParity(Xor(a, b), a + b, c);
      SameParity(Xor(b, c), b + c, a);
    }
  }

  lemma SameParity(x: nat, y: nat, z: nat)
    requires x % 2 == y % 2
    ensures (x + z) % 2 == (y + z) % 2
  {
  }

  lemma {:induction false} XorSelf(a: nat)
    ensures Xor(a, a) == 0
  {
    if a != 0 { XorSelf(a / 2); }
  }

  lemma {:induction false} XorZeroMeansEqual(a: nat, b: nat)
    requires Xor(a, b) == 0
    ensures a == b
  {
    if a != 0 {
      XorHalf(a, b);
      XorZeroMeansEqual(a / 2, b / 2);
    }
  }

  lemma XorDouble(a: nat, b: nat)
    ensures Xor(2 * a, 2 * b) == 2 * Xor(a, b)
  {
    hide Xor;
    XorHalf(2 * a, 2 * b);
    assert 2 * a / 2 == a && 2 * b / 2 == b;
  }

  lemma XorSwap(a: nat, b: nat, c: nat, d: nat)
    ensures Xor(Xor(a, b), Xor(c, d)) == Xor(Xor(a, c), Xor(b, d))
  {
    hide Xor;
    XorAssociates(a, b, Xor(c, d));
    XorAssociates(b, c, d);
    XorCommutes(b, c);
    XorAssociates(c, b, d);
    XorAssociates(a, c, Xor(b, d));
  }

  predicate PowerOfTwo(m: nat) {
    m == 1 || (m > 1 && m % 2 == 0 && PowerOfTwo(m / 2))
  }

  /** The coefficient of the highest power, apart from the rest. */
  lemma {:induction false} XorTop(a: nat, b: nat, m: nat)
    requires PowerOfTwo(m) && a < m && b < m
    ensures Xor(a, b) < m
    ensures Xor(a, m + b) == m + Xor(a, b) && Xor(m + a, b) == m + Xor(a, b) && Xor(m + a, m + b) == Xor(a, b)
    decreases m
  {
    hide Xor;
    if m == 1 {
      XorZero(0);
      XorZero(1);
      XorCommutes(0, 1);
      XorSelf(1);
    } else {
      XorTop(a / 2, b / 2, m / 2);
      XorTopStep(a, b, m / 2);
    }
  }

  lemma EvenShift(a: nat, k: nat, b: nat)
    ensures (2 * k + a) / 2 == k + a / 2 && (2 * k + a + b) % 2 == (a + b) % 2
  {
  }

  lemma XorTopStep(a: nat, b: nat, k: nat)
    requires var c, d := a / 2, b / 2;
             && Xor(c, d) < k && Xor(c, k + d) == k + Xor(c, d) && Xor(k + c, d) == k + Xor(c, d)
             && Xor(k + c, k + d) == Xor(c, d)
    ensures Xor(a, b) < 2 * k
    ensures var m := 2 * k;
            Xor(a, m + b) == m + Xor(a, b) && Xor(m + a, b) == m + Xor(a, b) && Xor(m + a, m + b) == Xor(a, b)
  {
    hide Xor;
    XorHalf(a, b);
    XorHalf(a, 2 * k + b);
    XorHalf(2 * k + a, b);
    XorHalf(2 * k + a, 2 * k + b);
    EvenShift(a, k, b);
    EvenShift(b, k, a);
    EvenShift(b, k, 2 * k + a);
  }

  lemma PowersOfTwo()
    ensures PowerOfTwo(0x1_0000) && PowerOfTwo(0x8000)
  {
  }

  /** Multiplication by x^n. */
  function Shifted(p: nat, n: nat): nat {
    if n == 0 then p else 2 * Shifted(p, n - 1)
  }

  lemma {:induction false} ShiftedXor(p: nat, q: nat, n: nat)
    ensures Shifted(Xor(p, q), n) == Xor(Shifted(p, n), Shifted(q, n))
  {
    hide Xor;
    if n > 0 {
      ShiftedXor(p, q, n - 1);
      XorDouble(Shifted(p, n - 1), Shifted(q, n - 1));
    }
  }

  /** Low-order terms fill the gap a shift leaves. */
  lemma {:induction false} XorDisjoint(p: nat, q: nat, n: nat)
    requires q < Shifted(1, n)
    ensures Xor(Shifted(p, n), q) == Shifted(p, n) + q
    decreases n
  {
    hide Xor;
    if n == 0 {
      XorZero(p);
    } else {
      XorHalf(Shifted(p, n), q);
      XorDisjoint(p, q / 2, n - 1);
    }
  }

  // ---------- The checksum ----------

  function Generator(): nat { 0x1_1021 }

  /** One turn of the inner loop, in sixteen bits. */
  function BitStep(c: uint16): uint16 {
    (if c >= 0x8000 then Xor(2 * c, 0x1021) else 2 * c) % 0x1_0000
  }

  function Steps(c: uint16, n: nat): uint16
    decreases n
  {
    if n == 0 then c else Steps(BitStep(c), n - 1)
  }

  /** The byte in the upper half of the register. */
  function High(b: byte): uint16 { 0x100 * (b as int) }

  function ByteStep(c: uint16, b: byte): uint16 {
    XorWord(c, High(b));
    Steps(Xor(c, High(b)), 8)
  }

  function Crc(c: uint16, data: seq<byte>): uint16
    decreases |data|
  {
    if data == [] then c else Crc(ByteStep(c, data[0]), data[1..])
  }

  function Checksum(data: seq<byte>): uint16 { Crc(0xFFFF, data) }

  lemma XorWord(c: uint16, d: uint16)
    ensures Xor(c, d) < 0x1_0000
  {
    PowersOfTwo();
    XorTop(c, d, 0x1_0000);
  }

  /** The loop computes the checksum. */
  method ComputeCrc(data: seq<byte>) returns (crc: uint16)
    ensures crc == Checksum(data)
  {
    hide Xor, BitStep;
    crc := 0xFFFF;
    for i := 0 to |data|
      invariant Crc(crc, data[i..]) == Checksum(data)
    {
      ghost var before := crc;
      XorWord(crc, High(data[i]));
      crc := Xor(crc, High(data[i]));
      for j := 0 to 8
        invariant Steps(crc, 8 - j) == ByteStep(before, data[i])
      {
        BitStepIs(crc);
        crc := (if crc >= 0x8000 then Xor(2 * crc, 0x1021) else 2 * crc) % 0x1_0000;
      }
      assert data[i..][1..] == data[i + 1..];
    }
  }

  lemma BitStepIs(c: uint16)
    ensures BitStep(c) == (if c >= 0x8000 then Xor(2 * c, 0x1021) else 2 * c) % 0x1_0000
  {
  }

  // ---------- Linear and one-to-one ----------

  lemma BitStepForm(c: uint16)
    ensures BitStep(c) == Xor(2 * (c % 0x8000), if c >= 0x8000 then 0x1021 else 0)
  {
    hide Xor, PowerOfTwo;
    PowersOfTwo();
    if c >= 0x8000 {
      XorTop(2 * c - 0x1_0000, 0x1021, 0x1_0000);
    } else {
      XorZero(2 * c);
    }
  }

  lemma BitStepLinear(c: uint16, d: uint16)
    ensures Xor(c, d) < 0x1_0000 && BitStep(Xor(c, d)) == Xor(BitStep(c), BitStep(d))
  {
    hide Xor, PowerOfTwo, BitStep;
    var a, b := c % 0x8000, d % 0x8000;
    var g, h := if c >= 0x8000 then 0x1021 else 0, if d >= 0x8000 then 0x1021 else 0;
    XorWord(c, d);
    PowersOfTwo();
    XorTop(a, b, 0x8000);
    BitStepForm(c);
    BitStepForm(d);
    BitStepForm(Xor(c, d));
    XorSwap(2 * a, g, 2 * b, h);
    XorDouble(a, b);
    XorZero(0);
    XorZero(0x1021);
    XorCommutes(0, 0x1021);
    XorSelf(0x1021);
  }

  lemma BitStepZero(c: uint16)
    requires BitStep(c) == 0
    ensures c == 0
  {
    hide Xor;
    BitStepForm(c);
    XorHalf(2 * (c % 0x8000), 0x1021);
  }

  lemma {:induction false} StepsLinear(c: uint16, d: uint16, n: nat)
    ensures Xor(c, d) < 0x1_0000 && Steps(Xor(c, d), n) == Xor(Steps(c, n), Steps(d, n))
    decreases n
  {
    hide Xor, BitStep;
    BitStepLinear(c, d);
    if n > 0 {
      StepsLinear(BitStep(c), BitStep(d), n - 1);
    }
  }

  lemma {:induction false} StepsZero(c: uint16, n: nat)
    requires Steps(c, n) == 0
    ensures c == 0
    decreases n
  {
    hide BitStep;
    if n > 0 {
      StepsZero(BitStep(c), n - 1);
      BitStepZero(c);
    }
  }

  /** The register never forgets a difference. */
  lemma StepsInjective(c: uint16, d: uint16, n: nat)
    requires Steps(c, n) == Steps(d, n)
    ensures c == d
  {
    hide Xor, Steps;
    StepsLinear(c, d, n);
    XorSelf(Steps(c, n));
    StepsZero(Xor(c, d), n);
    XorZeroMeansEqual(c, d);
  }

  lemma XorInjective(a: nat, b: nat, c: nat)
    requires Xor(a, b) == Xor(a, c)
    ensures b == c
  {
    hide Xor;
    XorSwap(a, b, a, c);
    XorSelf(Xor(a, b));
    XorSelf(a);
    XorCommutes(0, Xor(b, c));
    XorZero(Xor(b, c));
    XorZeroMeansEqual(b, c);
  }

  lemma ByteStepInjective(c: uint16, d: uint16, b: byte)
    requires ByteStep(c, b) == ByteStep(d, b)
    ensures c == d
  {
    hide Xor, Steps;
    XorWord(c, High(b));
    XorWord(d, High(b));
    StepsInjective(Xor(c, High(b)), Xor(d, High(b)), 8);
    XorCommutes(c, High(b));
    XorCommutes(d, High(b));
    XorInjective(High(b), c, d);
  }

  lemma {:induction false} CrcInjective(c: uint16, d: uint16, data: seq<byte>)
    requires c != d
    ensures Crc(c, data) != Crc(d, data)
    decreases |data|
  {
    hide ByteStep;
    if data != [] {
      if ByteStep(c, data[0]) == ByteStep(d, data[0]) {
        ByteStepInjective(c, d, data[0]);
      }
      CrcInjective(ByteStep(c, data[0]), ByteStep(d, data[0]), data[1..]);
    }
  }

  lemma {:induction false} CrcAppend(c: uint16, a: seq<byte>, b: seq<byte>)
    ensures Crc(c, a + b) == Crc(Crc(c, a), b)
    decreases |a|
  {
    hide ByteStep;
    if a == [] {
      assert a + b == b;
    } else {
      CrcAppend(ByteStep(c, a[0]), a[1..], b);
      assert (a + b)[1..] == a[1..] + b;
    }
  }

  lemma {:induction false} NoFeedback(v: nat, n: nat)
    requires Shifted(v, n) < 0x1_0000
    ensures v < 0x1_0000 && Steps(v, n) == Shifted(v, n)
    decreases n
  {
    hide Xor;
    ShiftedGrows(v, n);
    if n > 0 {
      ShiftedTwice(v, n - 1);
      ShiftedGrows(2 * v, n - 1);
      NoFeedback(2 * v, n - 1);
    }
  }

  lemma {:induction false} ShiftedGrows(v: nat, n: nat)
    ensures v <= Shifted(v, n)
  {
    if n > 0 { ShiftedGrows(v, n - 1); }
  }

  lemma {:induction false} ShiftedTwice(v: nat, n: nat)
    ensures Shifted(2 * v, n) == 2 * Shifted(v, n)
  {
    if n > 0 { ShiftedTwice(v, n - 1); }
  }

  lemma ShiftedByte(v: byte)
    ensures Shifted(v, 8) == High(v)
  {
    ShiftedValues(v);
  }

  /** Two bytes go through the register like one sixteen-bit word. */
  lemma TwoBytes(c: uint16, x: byte, y: byte)
    ensures Xor(c, High(x) + y) < 0x1_0000
    ensures ByteStep(ByteStep(c, x), y) == Steps(Steps(Xor(c, High(x) + y), 8), 8)
  {
    hide Xor, Steps, Shifted;
    var w := Xor(c, High(x));
    XorWord(c, High(x));
    XorWord(c, High(x) + y);
    XorAssociates(c, High(x), y);
    ByteBelow(x, y);
    ShiftedByte(y);
    NoFeedback(y, 8);
    StepsLinear(w, y, 8);
    assert Xor(w, y) == Xor(c, High(x) + y);
    assert Steps(Xor(w, y), 8) == Xor(ByteStep(c, x), High(y));
  }

  lemma ByteBelow(x: byte, y: byte)
    ensures Xor(High(x), y) == High(x) + y
  {
    hide Xor;
    ShiftedByte(x);
    XorDisjoint(x, y, 8);
  }

  lemma TwoBytesInjective(c: uint16, x: byte, y: byte, x': byte, y': byte)
    requires ByteStep(ByteStep(c, x), y) == ByteStep(ByteStep(c, x'), y')
    ensures x == x' && y == y'
  {
    hide Xor, Steps, ByteStep;
    TwoBytes(c, x, y);
    TwoBytes(c, x', y');
    var v, w := Xor(c, High(x) + y), Xor(c, High(x') + y');
    StepsInjective(Steps(v, 8), Steps(w, 8), 8);
    StepsInjective(v, w, 8);
    XorInjective(c, High(x) + y, High(x') + y');
  }

  // ---------- What it detects ----------

  /** Any change within two adjacent bytes shows, whatever surrounds them. */
  lemma PairChange(c: uint16, before: seq<byte>, x: byte, y: byte, x': byte, y': byte, after: seq<byte>)
    requires x != x' || y != y'
    ensures Crc(c, before + [x, y] + after) != Crc(c, before + [x', y'] + after)
  {
    hide ByteStep;
    CrcAppend(c, before + [x, y], after);
    CrcAppend(c, before + [x', y'], after);
    CrcAppend(c, before, [x, y]);
    CrcAppend(c, before, [x', y']);
    var r := Crc(c, before);
    TwoSteps(r, x, y);
    TwoSteps(r, x', y');
    if Crc(r, [x, y]) == Crc(r, [x', y']) {
      TwoBytesInjective(r, x, y, x', y');
    }
    CrcInjective(Crc(r, [x, y]), Crc(r, [x', y']), after);
  }

  lemma TwoSteps(c: uint16, x: byte, y: byte)
    ensures Crc(c, [x, y]) == ByteStep(ByteStep(c, x), y)
  {
    hide ByteStep;
    assert [x, y][1..] == [y];
    OneStep(ByteStep(c, x), y);
  }

  lemma OneStep(c: uint16, x: byte)
    ensures Crc(c, [x]) == ByteStep(c, x)
  {
    hide ByteStep;
  }

  /** Any change of a single byte shows. */
  lemma ByteChange(c: uint16, before: seq<byte>, x: byte, x': byte, after: seq<byte>)
    requires x != x'
    ensures Crc(c, before + [x] + after) != Crc(c, before + [x'] + after)
  {
    hide ByteStep;
    CrcAppend(c, before + [x], after);
    CrcAppend(c, before + [x'], after);
    CrcAppend(c, before, [x]);
    CrcAppend(c, before, [x']);
    var r := Crc(c, before);
    OneStep(r, x);
    OneStep(r, x');
    if ByteStep(r, x) == ByteStep(r, x') {
      OneByteInjective(r, x, x');
    }
    CrcInjective(ByteStep(r, x), ByteStep(r, x'), after);
  }

  lemma OneByteInjective(c: uint16, x: byte, x': byte)
    requires ByteStep(c, x) == ByteStep(c, x')
    ensures x == x'
  {
    hide ByteStep;
    TwoBytesInjective(c, x, 0, x', 0);
  }

  lemma ByteXor(x: byte, e: byte)
    ensures Xor(x, e) < 0x100
  {
    assert PowerOfTwo(0x100);
    XorTop(x, e, 0x100);
  }

  /** What a difference of one byte leaves in the register. */
  function Syndrome(d: byte): uint16 { Steps(High(d), 8) }

  /** The difference two bytes make to the register does not depend on what else has passed through. */
  lemma ByteStepDifference(c: uint16, x: byte, e: byte)
    ensures Xor(x, e) < 0x100 && ByteStep(c, Xor(x, e)) == Xor(ByteStep(c, x), Syndrome(e))
  {
    hide Xor, Steps, Shifted;
    ByteXor(x, e);
    ShiftedByte(x);
    ShiftedByte(e);
    ShiftedByte(Xor(x, e));
    ShiftedXor(x, e, 8);
    XorWord(c, High(x));
    XorAssociates(c, High(x), High(e));
    StepsLinear(Xor(c, High(x)), High(e), 8);
  }

  lemma LastByte()
    ensures Syndrome(0x89) == 0xA1
  {
    hide Xor, BitStep;
    TopStep(0x8900, 0x200);
    TopStep(0x8840, 0x80);
    SmallStep(0x221);
    SmallStep(0x442);
    SmallStep(0x884);
    SmallStep(0x1108);
    SmallStep(0x2210);
    SmallStep(0x4420);
    assert Steps(0x8900, 8) == Steps(0x221, 7) == Steps(0x442, 6) == Steps(0x884, 5) == Steps(0x1108, 4);
    assert Steps(0x1108, 4) == Steps(0x2210, 3) == Steps(0x4420, 2) == Steps(0x8840, 1) == Steps(0xA1, 0);
  }

  lemma SmallStep(c: uint16)
    requires c < 0x8000
    ensures BitStep(c) == 2 * c
  {
  }

  /** A step that folds the generator in, when the rest of the word is `0x1000 + m`. */
  lemma TopStep(c: uint16, m: nat)
    requires 2 * c == 0x1_1000 + m && 0x21 < m < 0x1000 && PowerOfTwo(m)
    ensures BitStep(c) == m + 0x21
  {
    hide Xor;
    BitStepForm(c);
    XorTop(m, 0x21, 0x1000);
    XorTop(0, 0x21, m);
    XorCommutes(0, 0x21);
    XorZero(0x21);
  }

  lemma LowXor(c: uint16, e: byte)
    ensures Xor(c, e) == 0x100 * (c / 0x100) + Xor(c % 0x100, e) && Xor(c % 0x100, e) < 0x100
  {
    hide Xor, Shifted;
    ByteXor(c % 0x100, e);
    ByteAppended(c / 0x100, c % 0x100);
    ByteAppended(c / 0x100, Xor(c % 0x100, e));
    XorAssociates(Shifted(c / 0x100, 8), c % 0x100, e);
  }

  // ---------- The last byte next to the checksum ----------

  lemma {:induction false} XorBelow(p: nat, q: nat, n: nat)
    requires p < Shifted(1, n) && q < Shifted(1, n)
    ensures Xor(p, q) < Shifted(1, n)
    decreases n
  {
    hide Xor;
    if n == 0 {
      XorZero(0);
    } else {
      XorHalf(p, q);
      XorBelow(p / 2, q / 2, n - 1);
    }
  }

  /** High and low parts add up separately. */
  lemma XorParts(p: nat, q: nat, p': nat, q': nat, n: nat)
    requires q < Shifted(1, n) && q' < Shifted(1, n)
    ensures Xor(Shifted(p, n) + q, Shifted(p', n) + q') == Shifted(Xor(p, p'), n) + Xor(q, q')
  {
    hide Xor, Shifted;
    XorDisjoint(p, q, n);
    XorDisjoint(p', q', n);
    XorSwap(Shifted(p, n), q, Shifted(p', n), q');
    ShiftedXor(p, p', n);
    XorBelow(q, q', n);
    XorDisjoint(Xor(p, p'), Xor(q, q'), n);
  }

  lemma ShiftedValues(p: nat)
    ensures Shifted(p, 1) == 2 * p && Shifted(p, 4) == 0x10 * p && Shifted(p, 5) == 0x20 * p
    ensures Shifted(p, 7) == 0x80 * p && Shifted(p, 8) == 0x100 * p && Shifted(p, 12) == 0x1000 * p
  {
    assert Shifted(p, 2) == 2 * Shifted(p, 1) && Shifted(p, 3) == 2 * Shifted(p, 2)
           && Shifted(p, 4) == 2 * Shifted(p, 3);
    assert Shifted(p, 5) == 2 * Shifted(p, 4) && Shifted(p, 6) == 2 * Shifted(p, 5)
           && Shifted(p, 7) == 2 * Shifted(p, 6);
    assert Shifted(p, 8) == 2 * Shifted(p, 7) && Shifted(p, 9) == 2 * Shifted(p, 8)
           && Shifted(p, 10) == 2 * Shifted(p, 9);
    assert Shifted(p, 11) == 2 * Shifted(p, 10) && Shifted(p, 12) == 2 * Shifted(p, 11);
  }

  /** Four bits times x^12 + x^5 + 1: three copies that do not overlap, so ordinary multiplication. */
  lemma FanXor(p: nat, q: nat)
    requires p < 0x10 && q < 0x10
    ensures Xor(p, q) < 0x10 && Xor(0x1021 * p, 0x1021 * q) == 0x1021 * Xor(p, q)
  {
    hide Xor, Shifted;
    ShiftedValues(1);
    ShiftedValues(p);
    ShiftedValues(q);
    ShiftedValues(Xor(p, q));
    XorBelow(p, q, 4);
    XorParts(p, p, q, q, 7);
    ShiftedValues(0x81 * p);
    ShiftedValues(0x81 * q);
    ShiftedValues(0x81 * Xor(p, q));
    XorParts(0x81 * p, p, 0x81 * q, q, 5);
  }

  lemma {:induction false} StepsSum(c: uint16, m: nat, n: nat)
    ensures Steps(c, m + n) == Steps(Steps(c, m), n)
    decreases m
  {
    hide BitStep;
    if m > 0 { StepsSum(BitStep(c), m - 1, n); }
  }

  lemma OneStepMore(c: uint16, n: nat)
    ensures Steps(c, n + 1) == BitStep(Steps(c, n))
  {
    hide BitStep;
    StepsSum(c, n, 1);
    assert Steps(Steps(c, n), 1) == Steps(BitStep(Steps(c, n)), 0);
  }

  lemma SyndromeOne()
    ensures Syndrome(0) == 0 && Syndrome(1) == 0x1021
  {
    hide Xor, BitStep;
    ShiftedValues(0);
    NoFeedback(0, 8);
    ShiftedValues(0x100);
    NoFeedback(0x100, 7);
    OneStepMore(0x100, 7);
    BitStepForm(0x8000);
    XorCommutes(0, 0x1021);
    XorZero(0x1021);
  }

  lemma SyndromeXor(d: byte, e: byte)
    ensures Xor(d, e) < 0x100 && Syndrome(Xor(d, e)) == Xor(Syndrome(d), Syndrome(e))
  {
    hide Xor, Steps, Shifted;
    ByteXor(d, e);
    ShiftedByte(d);
    ShiftedByte(e);
    ShiftedByte(Xor(d, e));
    ShiftedXor(d, e, 8);
    StepsLinear(High(d), High(e), 8);
  }

  lemma SyndromeDouble(d: byte)
    requires d < 0x80
    ensures Syndrome(2 * d) == BitStep(Syndrome(d))
  {
    hide BitStep;
    SmallStep(High(d));
    OneStepMore(High(d), 8);
    assert Steps(High(d), 9) == Steps(BitStep(High(d)), 8);
  }

  lemma {:induction false} LowSyndrome(l: byte)
    requires l < 0x10
    ensures Syndrome(l) == 0x1021 * l
  {
    hide Xor, BitStep, Syndrome, Shifted;
    SyndromeOne();
    if l > 1 {
      var k, b := l / 2, l % 2;
      LowSyndrome(k);
      SyndromeDouble(k);
      SmallStep(0x1021 * k);
      ShiftedValues(1);
      ShiftedValues(k);
      XorDisjoint(k, b, 1);
      SyndromeXor(2 * k, b);
      FanXor(2 * k, b);
    }
  }

  lemma HighSyndrome(h: byte)
    requires h < 0x10
    ensures Syndrome(0x10 * h) == Xor(0x1021 * h, 0x210 * h)
  {
    hide Xor, Steps, Shifted;
    LowSyndrome(h);
    ShiftedValues(High(h));
    NoFeedback(High(h), 4);
    assert High(0x10 * h) == Steps(High(h), 4);
    StepsSum(High(h), 4, 8);
    StepsSum(High(h), 8, 4);
    assert Syndrome(0x10 * h) == Steps(0x1021 * h, 4);
    // 0x1021 h is h x^12, four steps past High(h), and the two low copies.
    ShiftedValues(h);
    ShiftedValues(1);
    XorDisjoint(h, 0x21 * h, 12);
    OneThousand();
    StepsLinear(0x1000 * h, 0x21 * h, 4);
    StepsSum(High(h), 4, 4);
    ShiftedValues(0x21 * h);
    NoFeedback(0x21 * h, 4);
  }

  lemma OneThousand()
    ensures Shifted(1, 12) == 0x1000
  {
    ShiftedValues(1);
  }

  lemma WholeSyndrome(h: byte, l: byte)
    requires h < 0x10 && l < 0x10
    ensures Xor(h, l) < 0x10 && Syndrome(0x10 * h + l) == Xor(0x1021 * Xor(h, l), 0x210 * h)
  {
    hide Xor, Syndrome, Shifted;
    LowSyndrome(l);
    HighSyndrome(h);
    ShiftedValues(1);
    ShiftedValues(h);
    XorDisjoint(h, l, 4);
    SyndromeXor(0x10 * h, l);
    FanXor(h, l);
    XorSwap(0x1021 * h, 0x210 * h, 0x1021 * l, 0);
    XorZero(0x1021 * l);
    XorZero(0x210 * h);
  }

  /** Only one difference of a byte leaves the upper half of the register alone. */
  lemma UpperHalfClean(d: byte)
    ensures Syndrome(d) < 0x100 <==> d == 0 || d == 0x89
  {
    hide Xor, Syndrome, Shifted;
    var h, l := d / 0x10, d % 0x10;
    WholeSyndrome(h, l);
    var k := Xor(h, l);
    var e, w := 0x21 * k / 0x100, 0x21 * k % 0x100;
    ShiftedValues(1);
    ShiftedValues(0x10 * k + e);
    ShiftedValues(2 * h);
    XorParts(0x10 * k + e, w, 2 * h, 0x10 * h, 8);
    XorBelow(w, 0x10 * h, 8);
    var top := Xor(0x10 * k + e, 2 * h);
    ShiftedValues(top);
    assert Syndrome(d) < 0x100 <==> top == 0;
    if top == 0 {
      XorZeroMeansEqual(0x10 * k + e, 2 * h);
    }
    XorSelf(2 * h);
    EightAndNine();
    XorSelf(h);
    if k == Xor(h, h) { XorInjective(h, l, h); }
    if h == 8 && k == 1 { XorInjective(8, l, 9); }
  }

  lemma EightAndNine()
    ensures Xor(8, 9) == 1
  {
    hide Xor;
    assert PowerOfTwo(8);
    XorTop(0, 1, 8);
    XorCommutes(0, 1);
    XorZero(1);
  }

  // ---------- What it is ----------

  /** The product of a polynomial with the generator. */
  function Product(q: nat): nat {
    if q == 0 then 0 else Xor(2 * Product(q / 2), if q % 2 == 1 then Generator() else 0)
  }

  /** Equal up to a multiple of the generator. */
  ghost predicate Congruent(p: nat, r: nat) {
    exists q: nat :: Xor(p, r) == Product(q)
  }

  /** The bytes as one polynomial, first byte highest. */
  function Value(data: seq<byte>): nat {
    if data == [] then 0 else 0x100 * Value(data[..|data| - 1]) + data[|data| - 1]
  }

  lemma {:induction false} ProductXor(q: nat, r: nat)
    ensures Product(Xor(q, r)) == Xor(Product(q), Product(r))
    decreases q + r
  {
    hide Xor, Product;
    if q + r == 0 {
      XorZero(0);
      ProductZero();
    } else {
      ProductXor(q / 2, r / 2);
      XorHalf(q, r);
      ProductHalf(q);
      ProductHalf(r);
      ProductHalf(Xor(q, r));
      XorDouble(Product(q / 2), Product(r / 2));
      XorSwap(2 * Product(q / 2), Term(q), 2 * Product(r / 2), Term(r));
      TermXor(q, r);
    }
  }

  function Term(q: nat): nat { if q % 2 == 1 then Generator() else 0 }

  lemma ProductHalf(q: nat)
    ensures Product(q) == Xor(2 * Product(q / 2), Term(q))
  {
    if q == 0 { XorZero(0); }
  }

  lemma TermXor(q: nat, r: nat)
    ensures Term(Xor(q, r)) == Xor(Term(q), Term(r))
  {
    hide Xor, Generator;
    XorHalf(q, r);
    var g := Generator();
    XorZero(0);
    XorZero(g);
    XorCommutes(0, g);
    XorSelf(g);
    assert q % 2 + r % 2 == 1 <==> (q + r) % 2 == 1;
  }

  lemma ProductZero()
    ensures Product(0) == 0
  {
  }

  lemma CongruentXor(p: nat, r: nat, s: nat, t: nat)
    requires Congruent(p, r) && Congruent(s, t)
    ensures Congruent(Xor(p, s), Xor(r, t))
  {
    hide Xor, Product;
    var q: nat :| Xor(p, r) == Product(q);
    var u: nat :| Xor(s, t) == Product(u);
    ProductXor(q, u);
    XorSwap(p, r, s, t);
    assert Xor(Xor(p, s), Xor(r, t)) == Product(Xor(q, u));
  }

  lemma CongruentSelf(p: nat)
    ensures Congruent(p, p)
  {
    hide Xor;
    XorSelf(p);
    assert Xor(p, p) == Product(0);
  }

  lemma CongruentDouble(p: nat, r: nat)
    requires Congruent(p, r)
    ensures Congruent(2 * p, 2 * r)
  {
    hide Xor, Product;
    var q: nat :| Xor(p, r) == Product(q);
    XorDouble(p, r);
    ProductHalf(2 * q);
    XorZero(2 * Product(q));
    assert Xor(2 * p, 2 * r) == Product(2 * q);
  }

  /** One turn of the inner loop multiplies by x. */
  lemma BitStepCongruent(c: uint16)
    ensures Congruent(BitStep(c), 2 * c)
  {
    hide Xor, PowerOfTwo, Product;
    if c >= 0x8000 {
      PowersOfTwo();
      BitStepForm(c);
      var a := 2 * c - 0x1_0000;
      XorTop(a, 0x1021, 0x1_0000);
      XorCommutes(a, 0x1021);
      XorTop(Xor(a, 0x1021), a, 0x1_0000);
      XorAssociates(0x1021, a, a);
      XorSelf(a);
      XorZero(0x1021);
      ProductOne();
      assert Xor(BitStep(c), 2 * c) == Product(1);
    } else {
      CongruentSelf(2 * c);
    }
  }

  lemma ProductOne()
    ensures Product(1) == Generator()
  {
    hide Xor;
    assert Product(1) == Xor(2 * Product(0), Generator());
    XorCommutes(0, Generator());
    XorZero(Generator());
  }

  lemma CongruentTrans(p: nat, r: nat, s: nat)
    requires Congruent(p, r) && Congruent(r, s)
    ensures Congruent(p, s)
  {
    hide Xor, Congruent;
    CongruentXor(p, r, r, s);
    XorCommutes(p, r);
    CongruentSelf(r);
    CongruentXor(Xor(r, p), Xor(r, s), r, r);
    CancelXor(r, p);
    CancelXor(r, s);
  }

  /** Adding twice adds nothing. */
  lemma CancelXor(r: nat, p: nat)
    ensures Xor(Xor(r, p), r) == p
  {
    hide Xor;
    XorCommutes(r, p);
    XorAssociates(p, r, r);
    XorSelf(r);
    XorZero(p);
  }

  lemma {:induction false} StepsCongruent(c: uint16, n: nat)
    ensures Congruent(Steps(c, n), Shifted(c, n))
    decreases n
  {
    hide Congruent, BitStep;
    if n == 0 {
      CongruentSelf(c);
    } else {
      StepsCongruent(BitStep(c), n - 1);
      BitStepCongruent(c);
      ShiftCongruent(BitStep(c), 2 * c, n - 1);
      ShiftedTwice(c, n - 1);
      CongruentTrans(Steps(c, n), Shifted(BitStep(c), n - 1), Shifted(c, n));
    }
  }

  lemma {:induction false} ShiftCongruent(p: nat, r: nat, n: nat)
    requires Congruent(p, r)
    ensures Congruent(Shifted(p, n), Shifted(r, n))
  {
    hide Congruent;
    if n > 0 {
      ShiftCongruent(p, r, n - 1);
      CongruentDouble(Shifted(p, n - 1), Shifted(r, n - 1));
    }
  }

  lemma {:induction false} ShiftedSum(p: nat, m: nat, n: nat)
    ensures Shifted(Shifted(p, m), n) == Shifted(p, m + n)
  {
    if n > 0 { ShiftedSum(p, m, n - 1); }
  }

  lemma CrcSnoc(c: uint16, data: seq<byte>)
    requires data != []
    ensures Crc(c, data) == ByteStep(Crc(c, data[..|data| - 1]), data[|data| - 1])
  {
    hide ByteStep, Crc;
    var n := |data| - 1;
    CrcAppend(c, data[..n], [data[n]]);
    OneStep(Crc(c, data[..n]), data[n]);
    assert data == data[..n] + [data[n]];
  }

  /** The division of Recommendation V.41: up to a multiple of the generator, the register holds its initial
      value times x^8n plus the n-byte message times x^16. */
  lemma {:induction false} CrcIsRemainder(c: uint16, data: seq<byte>)
    ensures Congruent(Crc(c, data), Xor(Shifted(c, 8 * |data|), Shifted(Value(data), 16)))
    decreases |data|
  {
    hide Congruent, Xor, ByteStep, Shifted;
    if data == [] {
      ZeroShifted(16);
      NoShift(c);
      XorZero(c);
      CongruentSelf(c);
    } else {
      var n := |data| - 1;
      CrcIsRemainder(c, data[..n]);
      CrcSnoc(c, data);
      RemainderStep(Crc(c, data[..n]), Shifted(c, 8 * n), Value(data[..n]), data[n]);
      ShiftedSum(c, 8 * n, 8);
    }
  }

  lemma NoShift(c: nat)
    ensures Shifted(c, 0) == c
  {
  }

  lemma {:induction false} ZeroShifted(n: nat)
    ensures Shifted(0, n) == 0
  {
    if n > 0 { ZeroShifted(n - 1); }
  }

  lemma RemainderStep(r: uint16, p: nat, v: nat, b: byte)
    requires Congruent(r, Xor(p, Shifted(v, 16)))
    ensures Congruent(ByteStep(r, b), Xor(Shifted(p, 8), Shifted(0x100 * v + b, 16)))
  {
    hide Congruent, Xor, Steps, Shifted;
    XorWord(r, High(b));
    var c := Xor(r, High(b));
    StepsCongruent(c, 8);
    // High(b) is b x^8.
    ShiftedByte(b);
    CongruentSelf(High(b));
    var whole := Xor(Xor(p, Shifted(v, 16)), Shifted(b, 8));
    CongruentXor(r, Xor(p, Shifted(v, 16)), High(b), High(b));
    ShiftCongruent(c, whole, 8);
    CongruentTrans(ByteStep(r, b), Shifted(c, 8), Shifted(whole, 8));
    // Shifting the sum term by term.
    XorAssociates(p, Shifted(v, 16), Shifted(b, 8));
    ShiftedSum(v, 8, 8);
    ShiftedXor(Shifted(v, 8), b, 8);
    ByteAppended(v, b);
    ShiftedXor(p, Shifted(0x100 * v + b, 8), 8);
    ShiftedSum(0x100 * v + b, 8, 8);
  }

  lemma ByteAppended(v: nat, b: byte)
    ensures Xor(Shifted(v, 8), b) == 0x100 * v + b
  {
    hide Xor;
    XorDisjoint(v, b, 8);
    ShiftedValues(v);
  }

  function Halved(p: nat, n: nat): nat {
    if n == 0 then p else Halved(p / 2, n - 1)
  }

  lemma {:induction false} HalvedXor(p: nat, q: nat, n: nat)
    ensures Halved(Xor(p, q), n) == Xor(Halved(p, n), Halved(q, n))
    decreases n
  {
    hide Xor;
    if n > 0 {
      XorHalf(p, q);
      HalvedXor(p / 2, q / 2, n - 1);
    }
  }

  /** A multiple of the generator other than zero has a term of degree 16 or more. */
  lemma {:induction false} ProductDegree(q: nat)
    requires q > 0
    ensures Halved(Product(q), 16) > 0
  {
    hide Xor, Product, Halved;
    ProductHalf(q);
    HalvedXor(2 * Product(q / 2), Term(q), 16);
    if q == 1 {
      ProductOne();
      ProductZero();
      WordDegree(Generator());
      WordDegree(0);
    } else {
      ProductDegree(q / 2);
      HalvedDouble(Product(q / 2), 16);
      WordDegree(Term(q));
      TopSurvives(Halved(2 * Product(q / 2), 16), Halved(Term(q), 16));
    }
  }

  lemma TopSurvives(p: nat, t: nat)
    requires p > 1 && t <= 1
    ensures Xor(p, t) > 0
  {
    hide Xor;
    if Xor(p, t) == 0 { XorZeroMeansEqual(p, t); }
  }

  lemma {:induction false} HalvedDouble(p: nat, n: nat)
    requires Halved(p, n) > 0
    ensures Halved(2 * p, n) > 1
    decreases n
  {
    if n > 0 {
      assert 2 * p / 2 == p;
      HalvedDouble(p / 2, n - 1);
      HalvedMonotone(2 * (p / 2), p, n - 1);
    }
  }

  lemma {:induction false} HalvedMonotone(p: nat, q: nat, n: nat)
    requires p <= q
    ensures Halved(p, n) <= Halved(q, n)
    decreases n
  {
    if n > 0 { HalvedMonotone(p / 2, q / 2, n - 1); }
  }

  lemma HalvedFour(p: nat, n: nat)
    requires n >= 4
    ensures Halved(p, n) == Halved(p / 0x10, n - 4)
  {
    assert Halved(p, n) == Halved(p / 4, n - 2);
    assert Halved(p / 4, n - 2) == Halved(p / 4 / 4, n - 4);
  }

  lemma WordDegree(p: nat)
    ensures Halved(p, 16) == p / 0x1_0000
  {
    hide Halved;
    HalvedFour(p, 16);
    HalvedFour(p / 0x10, 12);
    HalvedFour(p / 0x100, 8);
    HalvedFour(p / 0x1000, 4);
    HalvedNot(p / 0x1_0000);
  }

  lemma HalvedNot(p: nat)
    ensures Halved(p, 0) == p
  {
  }

  /** A word is determined by what it is congruent to, so the checksum is the remainder. */
  lemma RemainderIsUnique(c: uint16, d: uint16, p: nat)
    requires Congruent(c, p) && Congruent(d, p)
    ensures c == d
  {
    hide Xor, Product, Halved;
    CongruentSwap(d, p);
    CongruentTrans(c, p, d);
    var q: nat :| Xor(c, d) == Product(q);
    XorWord(c, d);
    WordDegree(Xor(c, d));
    if q > 0 {
      ProductDegree(q);
    } else {
      ProductZero();
      XorZeroMeansEqual(c, d);
    }
  }

  lemma CongruentSwap(p: nat, r: nat)
    requires Congruent(p, r)
    ensures Congruent(r, p)
  {
    hide Xor;
    XorCommutes(p, r);
  }

  /** The checksum of the settings, in full: the only 16-bit word which differs from 0xFFFF times x^8n plus the
      message times x^16 by a multiple of x^16 + x^12 + x^5 + 1. */
  lemma ChecksumIs(data: seq<byte>, c: uint16)
    ensures c == Checksum(data)
       <==> Congruent(c, Xor(Shifted(0xFFFF, 8 * |data|), Shifted(Value(data), 16)))
  {
    hide Congruent, Crc, Xor, Shifted;
    var p := Xor(Shifted(0xFFFF, 8 * |data|), Shifted(Value(data), 16));
    CrcIsRemainder(0xFFFF, data);
    if Congruent(c, p) {
      RemainderIsUnique(c, Checksum(data), p);
    }
  }

  /** The multiples are those of that one polynomial: the first is it, and shifts and sums of multiples are ones. */
  lemma MultiplesOfGenerator(q: nat, r: nat)
    ensures Product(0) == 0 && Product(1) == 0x1_0000 + 0x1000 + 0x20 + 1
    ensures Product(2 * q) == 2 * Product(q)
    ensures Product(Xor(q, r)) == Xor(Product(q), Product(r))
  {
    hide Xor, Product;
    ProductZero();
    ProductOne();
    ProductXor(q, r);
    ProductHalf(2 * q);
    XorZero(2 * Product(q));
  }
}
