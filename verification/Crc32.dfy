/**
 The table-driven CRC-32 against the serial shift register it stands for: most significant
 bit first, the generator polynomial of section 3.2.9 of IEEE 802.3, register preset to ones
 and complemented at the end.
 */
module Crc32s {

  const CRC32_POLY: bv32 := 0x04c1_1db7

  // ---------- words ----------
  // The few bit-vector facts are proved here; everything after works with these names.

  function Xor(a: bv32, b: bv32): bv32 { a ^ b }

  function Doubled(c: bv32): bv32 { c << 1 }

  function Halved(c: bv32): bv32 { c >> 1 }

  function ByteDown(w: bv32): bv32 { w >> 8 }

  function Low24(w: bv32): bv32 { w & 0x00ff_ffff }

  predicate Top(c: bv32) { c & 0x8000_0000 != 0 }

  predicate Odd(c: bv32) { c & 1 != 0 }

  function TopIf(bit: bool): bv32 { if bit then 0x8000_0000 else 0 }

  lemma XorRegroups(a: bv32, b: bv32, p: bv32)
    ensures Xor(Xor(a, p), b) == Xor(Xor(a, b), p)
    ensures Xor(a, Xor(b, p)) == Xor(Xor(a, b), p)
  {}

  lemma XorCommutes(a: bv32, b: bv32)
    ensures Xor(a, b) == Xor(b, a)
  {}

  lemma XorTwice(a: bv32, p: bv32)
    ensures Xor(Xor(a, p), p) == a
  {}

  lemma XorUnits(a: bv32)
    ensures Xor(a, 0) == a && Xor(0, a) == a && Xor(a, a) == 0
  {}

  lemma XorCancels(a: bv32, b: bv32, p: bv32)
    ensures Xor(Xor(a, p), Xor(b, p)) == Xor(a, b)
  {
    hide Xor;
    XorRegroups(a, b, p);
    XorRegroups(Xor(a, p), b, p);
    XorTwice(Xor(a, b), p);
  }

  lemma XorZero(a: bv32, b: bv32)
    ensures Xor(a, b) == 0 <==> a == b
  {
    hide Xor;
    XorUnits(b);
    XorTwice(a, b);
  }

  lemma DoubledXor(a: bv32, b: bv32)
    ensures Doubled(Xor(a, b)) == Xor(Doubled(a), Doubled(b))
  {}

  lemma TopXor(a: bv32, b: bv32)
    ensures Top(Xor(a, b)) == (Top(a) != Top(b))
  {}

  lemma HalvedXor(a: bv32, b: bv32)
    ensures Halved(Xor(a, b)) == Xor(Halved(a), Halved(b))
    ensures Odd(Xor(a, b)) == (Odd(a) != Odd(b))
  {}

  /** A bit put on top of an even word moved down: doubling takes the bit off and gives the word back. */
  lemma TopOnEven(bit: bool, rest: bv32)
    requires !Odd(rest)
    ensures Top(Xor(TopIf(bit), Halved(rest))) == bit
    ensures Doubled(Xor(TopIf(bit), Halved(rest))) == rest
  {}

  lemma ShiftOutIsVisible(c: bv32)
    ensures Top(c) ==> Xor(Doubled(c), CRC32_POLY) != 0
    ensures !Top(c) && c != 0 ==> Doubled(c) != 0
  {}

  // ---------- the serial register ----------

  /** One message bit through the register. */
  function SerialStep(c: bv32, bit: bool): bv32 {
    if Top(c) != bit then Xor(Doubled(c), CRC32_POLY) else Doubled(c)
  }

  function Serial(c: bv32, bits: seq<bool>): bv32
    decreases |bits|
  {
    if bits == [] then c else Serial(SerialStep(c, bits[0]), bits[1..])
  }

  function BitsOfByte(b: bv8): (bits: seq<bool>)
    ensures |bits| == 8
  {
    [b & 0x80 != 0, b & 0x40 != 0, b & 0x20 != 0, b & 0x10 != 0, b & 8 != 0, b & 4 != 0, b & 2 != 0, b & 1 != 0]
  }

  function BitsOf(message: seq<bv8>): (bits: seq<bool>)
    ensures |bits| == 8 * |message|
  {
    if message == [] then [] else BitsOfByte(message[0]) + BitsOf(message[1..])
  }

  /** CRC-32 by definition. */
  function SerialCrc(message: seq<bv8>): bv32 {
    Xor(Serial(0xffff_ffff, BitsOf(message)), 0xffff_ffff)
  }

  // ---------- the byte-wise table ----------

  function Shift(c: bv32): bv32 {
    if Top(c) then Xor(Doubled(c), CRC32_POLY) else Doubled(c)
  }

  function ShiftN(c: bv32, n: nat): bv32
    decreases n
  {
    if n == 0 then c else ShiftN(Shift(c), n - 1)
  }

  function HighByte(b: bv8): bv32 { (b as bv32) << 24 }

  function TableEntry(i: bv8): bv32 {
    ShiftN(HighByte(i), 8)
  }

  /** The index into the table: the top byte of the register, xored with the message byte. */
  function Index(c: bv32, b: bv8): bv8 {
    TopByte(c) ^ b
  }

  function TopByte(c: bv32): bv8 { (c >> 24) as bv8 }

  function ByteStep(c: bv32, b: bv8): bv32 {
    Xor(c << 8, TableEntry(Index(c, b)))
  }

  // ---------- linearity ----------

  lemma ShiftIsLinear(a: bv32, b: bv32)
    ensures Shift(Xor(a, b)) == Xor(Shift(a), Shift(b))
  {
    hide Xor, Doubled, Top;
    DoubledXor(a, b);
    TopXor(a, b);
    XorRegroups(Doubled(a), Doubled(b), CRC32_POLY);
    XorCancels(Doubled(a), Doubled(b), CRC32_POLY);
  }

  lemma ShiftIsInjective(a: bv32)
    ensures Shift(a) == 0 <==> a == 0
  {
    ShiftOutIsVisible(a);
  }

  lemma {:induction false} ShiftNIsLinear(a: bv32, b: bv32, n: nat)
    ensures ShiftN(Xor(a, b), n) == Xor(ShiftN(a, n), ShiftN(b, n))
    decreases n
  {
    hide Xor, Shift;
    if n > 0 {
      ShiftIsLinear(a, b);
      ShiftNIsLinear(Shift(a), Shift(b), n - 1);
    }
  }

  lemma {:induction false} ShiftNIsInjective(a: bv32, n: nat)
    ensures ShiftN(a, n) == 0 <==> a == 0
    decreases n
  {
    hide Shift;
    if n > 0 {
      ShiftIsInjective(a);
      ShiftNIsInjective(Shift(a), n - 1);
    }
  }

  function Differences(a: seq<bool>, b: seq<bool>): (r: seq<bool>)
    requires |a| == |b|
    ensures |r| == |a|
    ensures forall i :: 0 <= i < |a| ==> r[i] == (a[i] != b[i])
  {
    if a == [] then [] else [a[0] != b[0]] + Differences(a[1..], b[1..])
  }

  lemma StepIsLinear(c: bv32, d: bv32, a: bool, b: bool)
    ensures Xor(SerialStep(c, a), SerialStep(d, b)) == SerialStep(Xor(c, d), a != b)
  {
    hide Xor, Doubled, Top;
    DoubledXor(c, d);
    TopXor(c, d);
    XorRegroups(Doubled(c), Doubled(d), CRC32_POLY);
    XorCancels(Doubled(c), Doubled(d), CRC32_POLY);
  }

  /** Two runs of the register differ by the run of their difference. */
  lemma {:induction false} SerialIsLinear(c: bv32, d: bv32, a: seq<bool>, b: seq<bool>)
    requires |a| == |b|
    ensures Xor(Serial(c, a), Serial(d, b)) == Serial(Xor(c, d), Differences(a, b))
    decreases |a|
  {
    hide Xor, SerialStep;
    if a != [] {
      StepIsLinear(c, d, a[0], b[0]);
      SerialIsLinear(SerialStep(c, a[0]), SerialStep(d, b[0]), a[1..], b[1..]);
    }
  }

  lemma {:induction false} SerialConcat(c: bv32, a: seq<bool>, b: seq<bool>)
    ensures Serial(c, a + b) == Serial(Serial(c, a), b)
    decreases |a|
  {
    hide SerialStep;
    if a == [] {
      assert a + b == b;
    } else {
      assert (a + b)[1..] == a[1..] + b;
      SerialConcat(SerialStep(c, a[0]), a[1..], b);
    }
  }

  // ---------- up to 32 bits as one word ----------

  /** The low n bits of w are zero. */
  predicate LowZero(w: bv32, n: nat)
    decreases n
  {
    n == 0 || (!Odd(w) && LowZero(Halved(w), n - 1))
  }

  lemma {:induction false} LowZeroXor(a: bv32, b: bv32, n: nat, m: nat)
    requires LowZero(a, n) && LowZero(b, m) && n <= m
    ensures LowZero(Xor(a, b), n)
    decreases n
  {
    hide Xor, Odd, Halved;
    if n > 0 {
      HalvedXor(a, b);
      LowZeroXor(Halved(a), Halved(b), n - 1, m - 1);
    }
  }

  lemma {:induction false} ZeroIsLowZero(n: nat)
    ensures LowZero(0, n)
  {
    if n > 0 {
      ZeroIsLowZero(n - 1);
    }
  }

  lemma TopIsLowZero(bit: bool)
    ensures LowZero(TopIf(bit), 31)
  {
    ZeroIsLowZero(31);
    assert LowZero(0x2, 1);
    assert LowZero(0x8, 3);
    assert LowZero(0x20, 5);
    assert LowZero(0x80, 7);
    assert LowZero(0x200, 9);
    assert LowZero(0x800, 11);
    assert LowZero(0x2000, 13);
    assert LowZero(0x8000, 15);
    assert LowZero(0x20000, 17);
    assert LowZero(0x80000, 19);
    assert LowZero(0x200000, 21);
    assert LowZero(0x800000, 23);
    assert LowZero(0x2000000, 25);
    assert LowZero(0x8000000, 27);
    assert LowZero(0x20000000, 29);
  }

  /** The bits as a word, the first one on top. */
  function Pack(bits: seq<bool>): (w: bv32)
    requires |bits| <= 32
    ensures LowZero(w, 32 - |bits|)
  {
    if bits == [] then
      ZeroIsLowZero(32);
      0
    else
      var rest := Pack(bits[1..]);
      TopIsLowZero(bits[0]);
      LowZeroXor(Halved(rest), TopIf(bits[0]), 32 - |bits|, 31);
      Xor(TopIf(bits[0]), Halved(rest))
  }

  lemma StepOfWord(c: bv32, bit: bool, rest: bv32)
    requires !Odd(rest)
    ensures Shift(Xor(c, Xor(TopIf(bit), Halved(rest)))) == Xor(SerialStep(c, bit), rest)
  {
    hide Xor, Doubled, Top, Halved, TopIf, Odd;
    var w := Xor(TopIf(bit), Halved(rest));
    TopOnEven(bit, rest);
    DoubledXor(c, w);
    TopXor(c, w);
    XorRegroups(Doubled(c), rest, CRC32_POLY);
  }

  /** Shifting a word of bits into the register is shifting the register xored with the word. */
  lemma {:induction false} SerialOfWord(c: bv32, bits: seq<bool>)
    requires |bits| <= 32
    ensures Serial(c, bits) == ShiftN(Xor(c, Pack(bits)), |bits|)
    decreases |bits|
  {
    hide Xor, Halved, TopIf, Odd, SerialStep, Shift;
    if bits == [] {
      XorUnits(c);
    } else {
      var rest := Pack(bits[1..]);
      SerialOfWord(SerialStep(c, bits[0]), bits[1..]);
      StepOfWord(c, bits[0], rest);
    }
  }

  lemma TopOrRest(bit: bool, rest: bv32)
    requires !Odd(rest) && (bit || rest != 0)
    ensures Xor(TopIf(bit), Halved(rest)) != 0
  {}

  lemma {:induction false} PackNonzero(bits: seq<bool>, i: nat)
    requires i < |bits| <= 32 && bits[i]
    ensures Pack(bits) != 0
  {
    hide Xor, Halved, TopIf, Odd;
    var rest := Pack(bits[1..]);
    if i > 0 {
      PackNonzero(bits[1..], i - 1);
    }
    TopOrRest(bits[0], rest);
  }

  // ---------- one byte ----------

  /** One more bit on top of a word that already has some bits `high` on top of `rest`. */
  lemma OneMoreOnTop(bit: bool, high: bv32, rest: bv32)
    ensures Xor(TopIf(bit), Halved(Xor(high, rest))) == Xor(Xor(TopIf(bit), Halved(high)), Halved(rest))
  {
    hide Xor, Halved, TopIf;
    HalvedXor(high, rest);
    XorRegroups(TopIf(bit), Halved(high), Halved(rest));
  }

  /** The bits of a byte moved in from the top one after the other, last bit first. */
  function OnTop(bits: seq<bool>): bv32
    requires |bits| <= 8
  {
    if bits == [] then 0 else Xor(TopIf(bits[0]), Halved(OnTop(bits[1..])))
  }

  function HalvedN(w: bv32, n: nat): bv32 {
    if n == 0 then w else Halved(HalvedN(w, n - 1))
  }

  lemma {:induction false} PackOnTop(bits: seq<bool>, rest: seq<bool>)
    requires |bits| <= 8 && |rest| <= 24
    ensures Pack(bits + rest) == Xor(OnTop(bits), HalvedN(Pack(rest), |bits|))
  {
    hide Xor, Halved, TopIf;
    if bits == [] {
      assert bits + rest == rest;
      XorUnits(Pack(rest));
    } else {
      assert (bits + rest)[1..] == bits[1..] + rest;
      PackOnTop(bits[1..], rest);
      OneMoreOnTop(bits[0], OnTop(bits[1..]), HalvedN(Pack(rest), |bits| - 1));
    }
  }

  lemma NextBitOnTop(b: bv8)
    ensures TopIf(b & 1 != 0) == HighByte(b << 7)
    ensures Xor(TopIf(b & 2 != 0), Halved(HighByte(b << 7))) == HighByte(b << 6)
    ensures Xor(TopIf(b & 4 != 0), Halved(HighByte(b << 6))) == HighByte(b << 5)
    ensures Xor(TopIf(b & 8 != 0), Halved(HighByte(b << 5))) == HighByte(b << 4)
    ensures Xor(TopIf(b & 0x10 != 0), Halved(HighByte(b << 4))) == HighByte(b << 3)
    ensures Xor(TopIf(b & 0x20 != 0), Halved(HighByte(b << 3))) == HighByte(b << 2)
    ensures Xor(TopIf(b & 0x40 != 0), Halved(HighByte(b << 2))) == HighByte(b << 1)
    ensures Xor(TopIf(b & 0x80 != 0), Halved(HighByte(b << 1))) == HighByte(b)
  {}

  lemma LastOnTop(bit: bool)
    ensures Xor(TopIf(bit), Halved(0)) == TopIf(bit)
  {}

  lemma ByteOnTop(b: bv8)
    ensures OnTop(BitsOfByte(b)) == HighByte(b)
  {
    NextBitOnTop(b);
    LastOnTop(b & 1 != 0);
    hide Xor, Halved, TopIf, HighByte;
    var bits := BitsOfByte(b);
    assert OnTop(bits[8..]) == 0;
    hide OnTop;
    OnTopFrom(bits, 7);
    OnTopFrom(bits, 6);
    OnTopFrom(bits, 5);
    OnTopFrom(bits, 4);
    OnTopFrom(bits, 3);
    OnTopFrom(bits, 2);
    OnTopFrom(bits, 1);
    OnTopFrom(bits, 0);
    assert bits[0..] == bits;
  }

  lemma OnTopFrom(bits: seq<bool>, k: nat)
    requires k < |bits| <= 8
    ensures OnTop(bits[k..]) == Xor(TopIf(bits[k]), Halved(OnTop(bits[k + 1..])))
  {
    assert bits[k..][1..] == bits[k + 1..];
  }

  lemma PackByte(b: bv8, rest: seq<bool>)
    requires |rest| <= 24
    ensures Pack(BitsOfByte(b) + rest) == Xor(HighByte(b), ByteDown(Pack(rest)))
  {
    hide Xor, Pack, BitsOfByte;
    PackOnTop(BitsOfByte(b), rest);
    ByteOnTop(b);
    EightHalves(Pack(rest));
  }

  lemma EightHalves(w: bv32)
    ensures HalvedN(w, 8) == ByteDown(w)
  {
    HalvedSteps(w);
    hide Halved;
    assert HalvedN(w, 1) == w >> 1;
    assert HalvedN(w, 2) == w >> 2;
    assert HalvedN(w, 3) == w >> 3;
    assert HalvedN(w, 4) == w >> 4;
    assert HalvedN(w, 5) == w >> 5;
    assert HalvedN(w, 6) == w >> 6;
    assert HalvedN(w, 7) == w >> 7;
  }

  lemma HalvedSteps(w: bv32)
    ensures Halved(w) == w >> 1 && Halved(w >> 1) == w >> 2 && Halved(w >> 2) == w >> 3 && Halved(w >> 3) == w >> 4
    ensures Halved(w >> 4) == w >> 5 && Halved(w >> 5) == w >> 6 && Halved(w >> 6) == w >> 7 && Halved(w >> 7) == w >> 8
  {}

  lemma EightShifts(c: bv32)
    ensures ShiftN(c, 8) == Shift(Shift(Shift(Shift(Shift(Shift(Shift(Shift(c))))))))
  {
    hide Shift;
    var c4 := Shift(Shift(Shift(Shift(c))));
    assert ShiftN(c, 8) == ShiftN(Shift(Shift(c)), 6);
    assert ShiftN(Shift(Shift(c)), 6) == ShiftN(c4, 4);
    assert ShiftN(c4, 4) == ShiftN(Shift(Shift(c4)), 2);
  }

  /** The register below its top byte shifts out without feedback. */
  lemma LowBytesShift(c: bv32)
    ensures ShiftN(Low24(c), 8) == c << 8
  {
    LowBytesDouble(c);
    EightShifts(Low24(c));
    hide Shift, ShiftN;
  }

  lemma LowBytesDouble(c: bv32)
    ensures var c0 := Low24(c);
            && Shift(c0) == c0 << 1 && Shift(c0 << 1) == c0 << 2 && Shift(c0 << 2) == c0 << 3 && Shift(c0 << 3) == c0 << 4
            && Shift(c0 << 4) == c0 << 5 && Shift(c0 << 5) == c0 << 6 && Shift(c0 << 6) == c0 << 7 && Shift(c0 << 7) == c << 8
  {}

  lemma HighByteOfTop(c: bv32)
    ensures Xor(HighByte(TopByte(c)), Low24(c)) == c
  {}

  lemma HighByteXor(a: bv8, b: bv8)
    ensures HighByte(a ^ b) == Xor(HighByte(a), HighByte(b))
  {}

  lemma SplitTopByte(c: bv32, b: bv8)
    ensures Xor(c, HighByte(b)) == Xor(HighByte(Index(c, b)), Low24(c))
  {
    HighByteOfTop(c);
    HighByteXor(TopByte(c), b);
    hide Xor, HighByte, TopByte;
    XorRegroups(HighByte(TopByte(c)), HighByte(b), Low24(c));
  }

  /** One step of the byte loop is eight steps of the serial register. */
  lemma ByteStepIsSerial(c: bv32, b: bv8)
    ensures ByteStep(c, b) == Serial(c, BitsOfByte(b))
  {
    hide Xor, HighByte, Index, Shift, ShiftN, Serial, BitsOfByte, Pack;
    var bits := BitsOfByte(b);
    assert bits + [] == bits;
    PackByte(b, []);
    assert Pack(bits) == HighByte(b) by { PackNothing(b); }
    SerialOfWord(c, bits);
    SplitTopByte(c, b);
    ShiftNIsLinear(HighByte(Index(c, b)), Low24(c), 8);
    LowBytesShift(c);
    XorCommutes(c << 8, TableEntry(Index(c, b)));
  }

  lemma PackNothing(b: bv8)
    ensures Xor(HighByte(b), ByteDown(Pack([]))) == HighByte(b)
  {
    assert Pack([]) == 0;
  }

  // ---------- error detection ----------

  lemma {:induction false} SerialOfZeros(bits: seq<bool>)
    requires forall i :: 0 <= i < |bits| ==> !bits[i]
    ensures Serial(0, bits) == 0
    decreases |bits|
  {
    if bits != [] {
      SerialOfZeros(bits[1..]);
    }
  }

  lemma {:induction false} ZerosKeepItNonzero(c: bv32, bits: seq<bool>)
    requires forall i :: 0 <= i < |bits| ==> !bits[i]
    requires c != 0
    ensures Serial(c, bits) != 0
    decreases |bits|
  {
    if bits != [] {
      ShiftIsInjective(c);
      ZerosKeepItNonzero(SerialStep(c, false), bits[1..]);
    }
  }

  /** A difference confined to a window of 32 bits leaves a trace in the register. */
  lemma BurstLeavesTrace(d: seq<bool>, from: nat, i: nat)
    requires i < |d| && d[i]
    requires forall j :: 0 <= j < |d| && d[j] ==> from <= j < from + 32
    ensures Serial(0, d) != 0
  {
    hide SerialStep, Serial, Pack, ShiftN, Xor;
    var to := if from + 32 <= |d| then from + 32 else |d|;
    var before, window, after := d[..from], d[from..to], d[to..];
    assert d == before + (window + after);
    SerialConcat(0, before, window + after);
    SerialOfZeros(before);
    SerialConcat(0, window, after);
    assert window[i - from];
    PackNonzero(window, i - from);
    SerialOfWord(0, window);
    XorUnits(Pack(window));
    ShiftNIsInjective(Pack(window), |window|);
    ZerosKeepItNonzero(Serial(0, window), after);
  }

  lemma HighByteInjective(a: bv8, b: bv8)
    requires HighByte(a) == HighByte(b)
    ensures a == b
  {}

  lemma BitsOfByteInjective(a: bv8, b: bv8)
    ensures a != b ==> exists i :: 0 <= i < 8 && BitsOfByte(a)[i] != BitsOfByte(b)[i]
  {
    hide BitsOfByte, OnTop, HighByte;
    if forall i :: 0 <= i < 8 ==> BitsOfByte(a)[i] == BitsOfByte(b)[i] {
      assert BitsOfByte(a) == BitsOfByte(b);
      ByteOnTop(a);
      ByteOnTop(b);
      HighByteInjective(a, b);
    }
  }

  lemma {:induction false} BitsOfInjective(a: seq<bv8>, b: seq<bv8>) returns (i: nat)
    requires |a| == |b| && a != b
    ensures i < 8 * |a| && BitsOf(a)[i] != BitsOf(b)[i]
    decreases |a|
  {
    hide BitsOfByte;
    if a[0] != b[0] {
      BitsOfByteInjective(a[0], b[0]);
      i :| 0 <= i < 8 && BitsOfByte(a[0])[i] != BitsOfByte(b[0])[i];
    } else {
      assert a == [a[0]] + a[1..] && b == [b[0]] + b[1..];
      var j := BitsOfInjective(a[1..], b[1..]);
      i := j + 8;
    }
  }

  /** Two messages of one length that differ only within 32 consecutive bits have different CRCs. */
  lemma BurstsAreDetected(a: seq<bv8>, b: seq<bv8>, from: nat)
    requires |a| == |b| && a != b
    requires forall j :: 0 <= j < 8 * |a| && BitsOf(a)[j] != BitsOf(b)[j] ==> from <= j < from + 32
    ensures SerialCrc(a) != SerialCrc(b)
  {
    hide BitsOf, Serial, Xor;
    var x, y := BitsOf(a), BitsOf(b);
    var i := BitsOfInjective(a, b);
    SerialIsLinear(0xffff_ffff, 0xffff_ffff, x, y);
    XorUnits(0xffff_ffff);
    BurstLeavesTrace(Differences(x, y), from, i);
    XorZero(Serial(0xffff_ffff, x), Serial(0xffff_ffff, y));
    XorCancels(Serial(0xffff_ffff, x), Serial(0xffff_ffff, y), 0xffff_ffff);
    XorZero(SerialCrc(a), SerialCrc(b));
  }

  // ---------- the residue ----------

  function BigEndian(w: bv32): seq<bv8> {
    [TopByte(w), TopByte(w << 8), TopByte(w << 16), TopByte(w << 24)]
  }

  lemma BitsOfConcat(a: seq<bv8>, b: seq<bv8>)
    ensures BitsOf(a + b) == BitsOf(a) + BitsOf(b)
    decreases |a|
  {
    if a == [] {
      assert a + b == b;
    } else {
      assert (a + b)[1..] == a[1..] + b;
      BitsOfConcat(a[1..], b);
    }
  }

  lemma MiddleBytes(w: bv32)
    ensures Low24(w << 24) == 0
    ensures ByteDown(w << 24) == Low24(w << 16)
    ensures ByteDown(w << 16) == Low24(w << 8)
    ensures ByteDown(w << 8) == Low24(w)
  {}

  /** The four bytes of a word, most significant first, are the word. */
  lemma PackBigEndian(w: bv32)
    ensures |BitsOf(BigEndian(w))| == 32 && Pack(BitsOf(BigEndian(w))) == w
  {
    var b0, b1, b2, b3 := TopByte(w), TopByte(w << 8), TopByte(w << 16), TopByte(w << 24);
    var s3 := BitsOfByte(b3) + [];
    var s2 := BitsOfByte(b2) + s3;
    var s1 := BitsOfByte(b1) + s2;
    assert BitsOf([b3]) == s3;
    assert [b2, b3][1..] == [b3] && BitsOf([b2, b3]) == s2;
    assert [b1, b2, b3][1..] == [b2, b3] && BitsOf([b1, b2, b3]) == s1;
    assert BigEndian(w)[1..] == [b1, b2, b3] && BitsOf(BigEndian(w)) == BitsOfByte(b0) + s1;
    hide BitsOf, BitsOfByte, BigEndian;
    MiddleBytes(w);
    PackFourBytes(w, w << 8, w << 16, w << 24);
  }

  lemma PackFourBytes(w0: bv32, w1: bv32, w2: bv32, w3: bv32)
    requires ByteDown(w1) == Low24(w0) && ByteDown(w2) == Low24(w1) && ByteDown(w3) == Low24(w2) && Low24(w3) == 0
    ensures Pack(BitsOfByte(TopByte(w0)) + (BitsOfByte(TopByte(w1)) + (BitsOfByte(TopByte(w2)) + (BitsOfByte(TopByte(w3)) + [])))) == w0
  {
    hide Xor, HighByte, TopByte, BitsOfByte, Pack, ByteDown, Low24;
    var s3 := BitsOfByte(TopByte(w3)) + [];
    var s2 := BitsOfByte(TopByte(w2)) + s3;
    var s1 := BitsOfByte(TopByte(w1)) + s2;
    PackByte(TopByte(w3), []);
    PackByte(TopByte(w2), s3);
    PackByte(TopByte(w1), s2);
    PackByte(TopByte(w0), s1);
    PackOfNone();
    HighByteOfTop(w3);
    HighByteOfTop(w2);
    HighByteOfTop(w1);
    HighByteOfTop(w0);
  }

  lemma PackOfNone()
    ensures ByteDown(Pack([])) == 0
  {
    assert Pack([]) == 0;
  }

  lemma NotIsXor(c: bv32)
    ensures Xor(c, Xor(c, 0xffff_ffff)) == 0xffff_ffff
    ensures !c == Xor(c, 0xffff_ffff)
  {}

  /** The register after 32 turns from all ones. */
  lemma ThirtyTwoShiftsOfOnes()
    ensures ShiftN(0xffff_ffff, 32) == 0xc704dd7b
  {
    assert ShiftN(0x5d0c1b61, 4) == 0xc704dd7b;
    assert ShiftN(0xb7647d00, 8) == 0xc704dd7b;
    assert ShiftN(0x0b7647d0, 12) == 0xc704dd7b;
    assert ShiftN(0x00b7647d, 16) == 0xc704dd7b;
    assert ShiftN(0xf38f8d9c, 20) == 0xc704dd7b;
    assert ShiftN(0x4e08bfb4, 24) == 0xc704dd7b;
    assert ShiftN(0xc7b0424d, 28) == 0xc704dd7b;
    assert ShiftN(0xffffffff, 32) == 0xc704dd7b;
  }

  lemma ComplementOfResidue()
    ensures Xor(0xc704_dd7b, 0xffff_ffff) == 0x38fb_2284
  {}

  /** A message followed by its own CRC always has the same CRC. */
  lemma ResidueIsConstant(message: seq<bv8>)
    ensures SerialCrc(message + BigEndian(SerialCrc(message))) == 0x38fb_2284
  {
    hide Xor, Serial, BitsOf, BigEndian, Pack, ShiftN;
    var crc, r := SerialCrc(message), Serial(0xffff_ffff, BitsOf(message));
    BitsOfConcat(message, BigEndian(crc));
    SerialConcat(0xffff_ffff, BitsOf(message), BitsOf(BigEndian(crc)));
    PackBigEndian(crc);
    SerialOfWord(r, BitsOf(BigEndian(crc)));
    NotIsXor(r);
    ThirtyTwoShiftsOfOnes();
    ComplementOfResidue();
  }

  lemma {:induction false} ZerosHaveNoBits(message: seq<bv8>)
    requires forall k :: 0 <= k < |message| ==> message[k] == 0
    ensures forall j :: 0 <= j < 8 * |message| ==> !BitsOf(message)[j]
  {
    if message != [] {
      ZerosHaveNoBits(message[1..]);
    }
  }

  /** The generator's leading coefficient takes a clear register to the rest of the generator. */
  lemma LeadingBit()
    ensures Serial(0, BitsOfByte(1)) == CRC32_POLY
    ensures forall j :: 0 <= j < 7 ==> !BitsOfByte(1)[j]
  {
    var bits := BitsOfByte(1);
    SerialOfZeros(bits[..7]);
    SerialConcat(0, bits[..7], [true]);
    assert bits == bits[..7] + [true];
    assert SerialStep(0, true) == CRC32_POLY;
  }

  lemma GeneratorBytes()
    ensures BigEndian(CRC32_POLY) == [4, 0xc1, 0x1d, 0xb7]
  {}

  lemma GeneratorIsAbsorbed()
    ensures Serial(CRC32_POLY, BitsOf(BigEndian(CRC32_POLY))) == 0
  {
    PackBigEndian(CRC32_POLY);
    SerialOfWord(CRC32_POLY, BitsOf(BigEndian(CRC32_POLY)));
    XorUnits(CRC32_POLY);
    ShiftNIsInjective(0, 32);
  }

  /** 32 is the most: a difference in the shape of the generator, 33 bits wide, goes unnoticed. */
  lemma WiderBurstsMayBeMissed()
    ensures var a: seq<bv8>, b: seq<bv8> := [0, 0, 0, 0, 0], [1, 4, 0xc1, 0x1d, 0xb7];
            && (forall j :: 0 <= j < 40 && BitsOf(a)[j] != BitsOf(b)[j] ==> 7 <= j < 7 + 33)
            && SerialCrc(a) == SerialCrc(b)
  {
    var a: seq<bv8>, b: seq<bv8> := [0, 0, 0, 0, 0], [1, 4, 0xc1, 0x1d, 0xb7];
    GeneratorBytes();
    assert b == [1] + BigEndian(CRC32_POLY);
    assert b[1..] == BigEndian(CRC32_POLY);
    ZerosHaveNoBits(a);
    LeadingBit();
    GeneratorIsAbsorbed();
    assert BitsOf(b) == BitsOfByte(1) + BitsOf(BigEndian(CRC32_POLY));
    hide BitsOf, Serial, Xor, BigEndian, BitsOfByte;
    var x, y := BitsOf(a), BitsOf(b);
    SerialConcat(0, BitsOfByte(1), BitsOf(BigEndian(CRC32_POLY)));
    assert Differences(x, y) == y;
    SerialIsLinear(0xffff_ffff, 0xffff_ffff, x, y);
    XorUnits(0xffff_ffff);
    XorZero(Serial(0xffff_ffff, x), Serial(0xffff_ffff, y));
  }

  // ---------- the preset ----------

  lemma {:induction false} ZerosOnlyShift(c: bv32, bits: seq<bool>)
    requires forall i :: 0 <= i < |bits| ==> !bits[i]
    ensures Serial(c, bits) == ShiftN(c, |bits|)
    decreases |bits|
  {
    if bits != [] {
      ZerosOnlyShift(SerialStep(c, false), bits[1..]);
    }
  }

  lemma EightShiftsOfOnes()
    ensures ShiftN(0xffff_ffff, 8) == 0x4e08_bfb4
  {
    assert ShiftN(0xc7b0_424d, 4) == 0x4e08_bfb4;
  }

  /** Bytes in front of a message go unnoticed if and only if they leave the register at its preset. */
  lemma PrefixIsNoticed(prefix: seq<bv8>, message: seq<bv8>)
    ensures SerialCrc(prefix + message) != SerialCrc(message) <==> Serial(0xffff_ffff, BitsOf(prefix)) != 0xffff_ffff
  {
    hide BitsOf, Serial, Xor;
    var c, bits := Serial(0xffff_ffff, BitsOf(prefix)), BitsOf(message);
    BitsOfConcat(prefix, message);
    SerialConcat(0xffff_ffff, BitsOf(prefix), bits);
    if c != 0xffff_ffff {
      SerialIsLinear(c, 0xffff_ffff, bits, bits);
      XorZero(c, 0xffff_ffff);
      ZerosKeepItNonzero(Xor(c, 0xffff_ffff), Differences(bits, bits));
      XorZero(Serial(c, bits), Serial(0xffff_ffff, bits));
      XorCancels(Serial(c, bits), Serial(0xffff_ffff, bits), 0xffff_ffff);
      XorZero(SerialCrc(prefix + message), SerialCrc(message));
    }
  }

  /** What the preset is for: a zero byte in front of a message changes its CRC. */
  lemma LeadingZeroIsNoticed(message: seq<bv8>)
    ensures SerialCrc([0] + message) != SerialCrc(message)
  {
    ZerosHaveNoBits([0]);
    ZerosOnlyShift(0xffff_ffff, BitsOf([0]));
    EightShiftsOfOnes();
    hide SerialCrc, Serial, ShiftN, BitsOf;
    PrefixIsNoticed([0], message);
  }

  /** The CRC of no bytes is 0, that of the byte 0 is 0xb1f7404b, that of the byte 1 is 0xb5365dfc. */
  lemma ShortMessages()
    ensures SerialCrc([]) == 0 && SerialCrc([0]) == 0xb1f7_404b && SerialCrc([1]) == 0xb536_5dfc
  {
    LeadingBit();
    assert BitsOf([1]) == BitsOfByte(1) + [] == BitsOfByte(1);
    ZerosHaveNoBits([0]);
    ZerosOnlyShift(0xffff_ffff, BitsOf([0]));
    EightShiftsOfOnes();
    hide ShiftN;
    assert Serial(0xffff_ffff, BitsOf([])) == 0xffff_ffff;
    XorsOfShortMessages();
    hide Xor, Serial, BitsOf, BitsOfByte;
    SerialIsLinear(0xffff_ffff, 0, BitsOf([0]), BitsOf([1]));
    assert Differences(BitsOf([0]), BitsOf([1])) == BitsOf([1]);
  }

  lemma XorsOfShortMessages()
    ensures Xor(0xffff_ffff, 0xffff_ffff) == 0 && Xor(0x4e08_bfb4, 0xffff_ffff) == 0xb1f7_404b
    ensures Xor(0xffff_ffff, 0) == 0xffff_ffff && Xor(Xor(0x4e08_bfb4, CRC32_POLY), 0xffff_ffff) == 0xb536_5dfc
  {}

  // ---------- the code ----------

  class Crc32 {
    const table: array<bv32>
    ghost var builds: nat

    ghost predicate Valid()
      reads this, table
    {
      && table.Length == 256
      && (if builds == 0 then forall i :: 0 <= i < 256 ==> table[i] == 0
          else builds == 1 && Complete())
    }

    ghost predicate Complete()
      reads table
    {
      table.Length == 256 && forall i :: 0 <= i < 256 ==> table[i] == TableEntry(i as bv8)
    }

    /** Static storage starts out zero. */
    constructor ()
      ensures Valid() && builds == 0 && fresh(table)
    {
      table := new bv32[256](_ => 0);
      builds := 0;
    }

    /** The inner loop: eight shifts of the entry's index. */
    static method Entry(i: int) returns (c: bv32)
      requires 0 <= i < 256
      ensures c == TableEntry(i as bv8)
    {
      c := (i as bv32) << 24;
      IndexAsWord(i);
      hide Shift, HighByte;
      for j := 8 downto 0
        invariant ShiftN(c, j) == TableEntry(i as bv8)
      {
        ShiftByHand(c);
        c := if c & 0x8000_0000 != 0 then (c << 1) ^ CRC32_POLY else c << 1;
      }
    }

    static lemma ShiftByHand(c: bv32)
      ensures Shift(c) == if c & 0x8000_0000 != 0 then (c << 1) ^ CRC32_POLY else c << 1
    {}

    static lemma IndexAsWord(i: int)
      requires 0 <= i < 256
      ensures (i as bv32) << 24 == HighByte(i as bv8)
    {}

    method InitCrc32()
      requires table.Length == 256
      modifies this`builds, table
      ensures Complete() && builds == old(builds) + 1
    {
      hide TableEntry;
      for i := 0 to 256
        invariant builds == old(builds)
        invariant forall k :: 0 <= k < i ==> table[k] == TableEntry(k as bv8)
      {
        table[i] := Entry(i);
      }
      builds := builds + 1;
    }

    static lemma EntryOneIsNotZero()
      ensures TableEntry(1 as bv8) != 0
    {
      ShiftNIsInjective(HighByte(1), 8);
    }

    static lemma IndexInTable(x: bv8)
      ensures 0 <= x as int < 256 && (x as int) as bv8 == x
    {}

    static lemma IndexByHand(c: bv32, b: bv8)
      ensures Index(c, b) == (c >> 24) as bv8 ^ b
    {}

    static lemma ByteStepByHand(c: bv32, b: bv8)
      ensures ByteStep(c, b) == (c << 8) ^ TableEntry(Index(c, b))
    {
      hide TableEntry, Index;
    }

    /** One turn of the byte loop, as the source writes it. */
    method Turn(c: bv32, b: bv8) returns (c': bv32)
      requires Complete()
      ensures c' == Serial(c, BitsOfByte(b))
    {
      hide Serial, TableEntry, ByteStep, BitsOfByte, Index;
      ByteStepIsSerial(c, b);
      ByteStepByHand(c, b);
      IndexByHand(c, b);
      IndexInTable((c >> 24) as bv8 ^ b);
      c' := (c << 8) ^ table[((c >> 24) as bv8 ^ b) as int];
    }

    static lemma NoBytes()
      ensures Serial(0xffff_ffff, BitsOf([])) == 0xffff_ffff
    {}

    static lemma OneByteMore(buf: seq<bv8>, p: nat)
      requires p < |buf|
      ensures Serial(0xffff_ffff, BitsOf(buf[..p + 1])) == Serial(Serial(0xffff_ffff, BitsOf(buf[..p])), BitsOfByte(buf[p]))
    {
      assert buf[..p + 1] == buf[..p] + [buf[p]];
      BitsOfConcat(buf[..p], [buf[p]]);
      assert BitsOf([buf[p]]) == BitsOfByte(buf[p]);
      SerialConcat(0xffff_ffff, BitsOf(buf[..p]), BitsOfByte(buf[p]));
    }

    method Crc(buf: seq<bv8>, len: int) returns (crc: bv32)
      requires Valid() && len <= |buf|
      modifies this`builds, table
      ensures Valid() && builds == 1
      ensures crc == SerialCrc(if len > 0 then buf[..len] else [])
    {
      hide Serial, BitsOf, BitsOfByte, TableEntry, Xor;
      EntryOneIsNotZero();
      NoBytes();
      assert buf[..0] == [];
      if table[1] == 0 {
        InitCrc32();
      }
      crc := 0xffff_ffff;
      var left, p := len, 0;
      while left > 0
        invariant p <= |buf| && left <= len && (if len > 0 then p + left == len && 0 <= left else p == 0)
        invariant Complete() && builds == 1
        invariant crc == Serial(0xffff_ffff, BitsOf(buf[..p]))
      {
        OneByteMore(buf, p);
        crc := Turn(crc, buf[p]);
        p, left := p + 1, left - 1;
      }
      NotIsXor(crc);
      crc := !crc;
    }
  }
}
