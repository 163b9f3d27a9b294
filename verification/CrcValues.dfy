/** What the checksum comes to: known values, the residue of every message, and leading zeros. */
module CrcValues {
  import opened Wire
  import opened Bits
  import opened Crc

  /** On no bytes the checksum is zero. */
  lemma NothingSums()
    ensures Crc32([]) == 0
  {
  }

  lemma DataIs(b: byte, v: bv8)
    requires IsVector(b, v)
    ensures Data(b) == v as bv32
  {
    VectorIs(b, v);
    hide ToBits;
  }

  function EightBitSteps(crc: bv32): bv32
  {
    StepBit(StepBit(StepBit(StepBit(StepBit(StepBit(StepBit(StepBit(crc))))))))
  }

  lemma EightSteps(crc: bv32)
    ensures Steps(crc, 8) == EightBitSteps(crc)
  {
    hide StepBit;
    var half := StepBit(StepBit(StepBit(StepBit(crc))));
    assert Steps(crc, 8) == Steps(StepBit(StepBit(crc)), 6);
    assert Steps(StepBit(StepBit(crc)), 6) == Steps(half, 4);
    assert Steps(half, 4) == Steps(StepBit(StepBit(half)), 2);
  }

  lemma StepsTo(crc: bv32, b: byte, v: bv8)
    requires IsVector(b, v)
    ensures StepByte(crc, b) == EightBitSteps(Mix(crc, v as bv32))
  {
    hide StepBit, Steps, Data, Vector;
    DataIs(b, v);
    EightSteps(Mix(crc, v as bv32));
  }

  /** The digits 1 to 9. */
  const DIGITS: seq<byte> := [0x31, 0x32, 0x33, 0x34, 0x35, 0x36, 0x37, 0x38, 0x39]

  ghost predicate AreDigits(d: seq<byte>)
  {
    && |d| == 9 && IsVector(d[0], 0x31) && IsVector(d[1], 0x32) && IsVector(d[2], 0x33) && IsVector(d[3], 0x34)
    && IsVector(d[4], 0x35) && IsVector(d[5], 0x36) && IsVector(d[6], 0x37) && IsVector(d[7], 0x38)
    && IsVector(d[8], 0x39)
  }

  lemma FirstVectors()
    ensures IsVector(0x31, 0x31) && IsVector(0x32, 0x32) && IsVector(0x33, 0x33) && IsVector(0x34, 0x34)
  {
  }

  lemma LaterVectors()
    ensures IsVector(0x35, 0x35) && IsVector(0x36, 0x36) && IsVector(0x37, 0x37) && IsVector(0x38, 0x38)
    ensures IsVector(0x39, 0x39)
  {
  }

  lemma DigitVectors()
    ensures AreDigits(DIGITS)
  {
    FirstVectors();
    LaterVectors();
    hide IsVector;
  }

  lemma RegisterOne(crc: bv32, d: seq<byte>, k: nat)
    requires k < |d|
    ensures Register(crc, d[..k + 1]) == StepByte(Register(crc, d[..k]), d[k])
  {
    hide StepByte;
    assert d[..k + 1] == d[..k] + [d[k]];
    RegisterOfConcat(crc, d[..k], [d[k]]);
    var s := Register(crc, d[..k]);
    assert Register(s, [d[k]]) == Register(StepByte(s, d[k]), []);
  }

  /** The register `crc` after k bytes becomes `next` after one more. */
  lemma Onward(d: seq<byte>, k: nat, v: bv8, crc: bv32, next: bv32)
    requires k < |d| && IsVector(d[k], v) && EightBitSteps(Mix(crc, v as bv32)) == next
    requires Register(0xFFFFFFFF, d[..k]) == crc
    ensures Register(0xFFFFFFFF, d[..k + 1]) == next
  {
    hide *;
    RegisterOne(0xFFFFFFFF, d, k);
    StepsTo(crc, d[k], v);
  }

  lemma DigitSteps()
    ensures EightBitSteps(Mix(0xFFFFFFFF, 0x31)) == 0x7C231048
    ensures EightBitSteps(Mix(0x7C231048, 0x32)) == 0xB0ACBB32
    ensures EightBitSteps(Mix(0xB0ACBB32, 0x33)) == 0x77B79C2D
    ensures EightBitSteps(Mix(0x77B79C2D, 0x34)) == 0x641C1F5C
    ensures EightBitSteps(Mix(0x641C1F5C, 0x35)) == 0x340AC5E3
    ensures EightBitSteps(Mix(0x340AC5E3, 0x36)) == 0xF68D2C9E
    ensures EightBitSteps(Mix(0xF68D2C9E, 0x37)) == 0xAFFC9660
    ensures EightBitSteps(Mix(0xAFFC9660, 0x38)) == 0x651F2550
    ensures EightBitSteps(Mix(0x651F2550, 0x39)) == 0x340BC6D9
  {
  }

  lemma DigitRegister(d: seq<byte>)
    requires AreDigits(d)
    ensures Register(0xFFFFFFFF, d[..9]) == 0x340BC6D9
  {
    hide Register, EightBitSteps, IsVector, Mix;
    DigitSteps();
    StartOf(d);
    Onward(d, 0, 0x31, 0xFFFFFFFF, 0x7C231048);
    Onward(d, 1, 0x32, 0x7C231048, 0xB0ACBB32);
    Onward(d, 2, 0x33, 0xB0ACBB32, 0x77B79C2D);
    Onward(d, 3, 0x34, 0x77B79C2D, 0x641C1F5C);
    Onward(d, 4, 0x35, 0x641C1F5C, 0x340AC5E3);
    Onward(d, 5, 0x36, 0x340AC5E3, 0xF68D2C9E);
    Onward(d, 6, 0x37, 0xF68D2C9E, 0xAFFC9660);
    Onward(d, 7, 0x38, 0xAFFC9660, 0x651F2550);
    Onward(d, 8, 0x39, 0x651F2550, 0x340BC6D9);
  }

  /** The published check value: the digits 1 to 9 sum to CBF43926. */
  lemma CheckValue()
    ensures Crc32(DIGITS) == 0xCBF43926
  {
    hide *;
    DigitVectors();
    DigitRegister(DIGITS);
    StartOf(DIGITS);
    Complement();
  }

  lemma Complement()
    ensures |DIGITS| == 9 && !(0x340BC6D9 as bv32) == 0xCBF43926
  {
  }

  lemma StartOf(d: seq<byte>)
    ensures Register(0xFFFFFFFF, d[..0]) == 0xFFFFFFFF
    ensures |d| == 9 ==> Crc32(d) == !Register(0xFFFFFFFF, d[..9])
  {
    if |d| == 9 { assert d[..9] == d; }
  }

  // The residue.

  function Down(t: bv32): bv32 { t >> 8 }

  /** The byte is the low byte of the register value, inverted. */
  predicate InvertsLow(b: byte, t: bv32) { Data(b) == (!t) & 0xFF }

  /** Stepping over an inverted low byte shifts the value down and leaves a trace that does not depend on it. */
  lemma InvertedByte(t: bv32, r: bv32, b: byte)
    requires InvertsLow(b, t)
    ensures StepByte(Mix(t, r), b) == Mix(Down(t), StepByte(r, 255))
  {
    var high := Down(t);
    AllOnes();
    HighPart(t, r);
    hide Steps, StepBit, Mix, Data, Shifted, Down;
    StepsLinear(Shifted(high, 8), Mix(r, 0xFF), 8);
    StepsShift(high, 8);
  }

  lemma AllOnes()
    ensures Data(255) == 0xFF
  {
    assert IsVector(255, 255);
    hide IsVector;
    DataIs(255, 255);
    hide Data;
  }

  lemma HighPart(t: bv32, r: bv32)
    ensures Below(Down(t), 3)
    ensures Mix(Mix(t, r), (!t) & 0xFF) == Mix(Shifted(Down(t), 8), Mix(r, 0xFF))
  {
    var low, high := (!t) & 0xFF, Down(t);
    ShiftedByte(high);
    HighBits(t);
    BelowThree(high);
    hide Shifted, Mix, Below, Down;
    MixAssociates(t, r, low);
    MixCommutes(r, low);
    MixAssociates(t, low, r);
    MixAssociates(high << 8, 0xFF, r);
    MixCommutes(0xFF, r);
  }

  lemma BelowThree(x: bv32)
    requires x & 0xFF000000 == 0
    ensures Below(x, 3)
  {
  }

  lemma HighBits(t: bv32)
    ensures Down(t) & 0xFF000000 == 0
    ensures Mix(t, (!t) & 0xFF) == Mix(Down(t) << 8, 0xFF)
  {
  }

  /** The four bytes of an inverted register. */
  lemma InvertedBytes(s: bv32)
    ensures var d := CrcBytes(!s);
      && InvertsLow(d[0], s) && InvertsLow(d[1], Down(s))
      && InvertsLow(d[2], Down(Down(s))) && InvertsLow(d[3], Down(Down(Down(s))))
  {
    BytesOfSum(!s);
    ShiftInverted(s);
    hide CrcBytes, Data, Down;
  }

  lemma BytesOfSum(c: bv32)
    ensures var d := CrcBytes(c);
      && Data(d[0]) == c & 0xFF && Data(d[1]) == (c >> 8) & 0xFF
      && Data(d[2]) == (c >> 16) & 0xFF && Data(d[3]) == (c >> 24) & 0xFF
  {
    ByteOf(c); ByteOf(c >> 8); ByteOf(c >> 16); ByteOf(c >> 24);
    hide Data, FromBits;
  }

  lemma ByteOf(c: bv32)
    ensures Data(FromBits((c & 0xFF) as bv8)) == c & 0xFF
  {
    ToFromBits((c & 0xFF) as bv8);
    hide ToBits, FromBits;
  }

  lemma ShiftInverted(s: bv32)
    ensures (!s >> 8) & 0xFF == !Down(s) & 0xFF
    ensures (!s >> 16) & 0xFF == !Down(Down(s)) & 0xFF
    ensures (!s >> 24) & 0xFF == !Down(Down(Down(s))) & 0xFF
  {
  }

  /** The register after d and the four bytes of its checksum is the same for every d. */
  lemma ResidueRegister(s: bv32)
    ensures Register(s, CrcBytes(!s)) == StepByte(StepByte(StepByte(StepByte(0, 255), 255), 255), 255)
  {
    var d := CrcBytes(!s);
    InvertedBytes(s);
    FourBytes(s, d);
    NothingLeft(s);
    hide *;
    var s1, s2, s3, r1 := Down(s), Down(Down(s)), Down(Down(Down(s))), StepByte(0, 255);
    InvertedByte(s, 0, d[0]);
    InvertedByte(s1, r1, d[1]);
    InvertedByte(s2, StepByte(r1, 255), d[2]);
    InvertedByte(s3, StepByte(StepByte(r1, 255), 255), d[3]);
  }

  lemma FourBytes(s: bv32, d: seq<byte>)
    requires |d| == 4
    ensures Register(s, d) == StepByte(StepByte(StepByte(StepByte(s, d[0]), d[1]), d[2]), d[3])
  {
    hide *;
    RegisterCons(s, d);
    RegisterCons(StepByte(s, d[0]), d[1..]);
    assert d[1..][1..] == d[2..] && d[2..][1..] == d[3..];
    RegisterCons(StepByte(StepByte(s, d[0]), d[1]), d[2..]);
    RegisterCons(StepByte(StepByte(StepByte(s, d[0]), d[1]), d[2]), d[3..]);
    RegisterEnds(StepByte(StepByte(StepByte(StepByte(s, d[0]), d[1]), d[2]), d[3]), d[3..][1..]);
  }

  lemma RegisterCons(s: bv32, d: seq<byte>)
    requires d != []
    ensures Register(s, d) == Register(StepByte(s, d[0]), d[1..])
  {
    hide StepByte;
  }

  lemma RegisterEnds(s: bv32, d: seq<byte>)
    requires d == []
    ensures Register(s, d) == s
  {
  }

  lemma NothingLeft(s: bv32)
    ensures Mix(s, 0) == s && Down(Down(Down(Down(s)))) == 0
    ensures forall r: bv32 :: Mix(0, r) == r
  {
  }

  lemma OnesSteps()
    ensures EightBitSteps(Mix(0, 0xFF)) == 0x2D02EF8D
    ensures EightBitSteps(Mix(0x2D02EF8D, 0xFF)) == 0xBE2612FF
    ensures EightBitSteps(Mix(0xBE2612FF, 0xFF)) == 0x00BE2612
    ensures EightBitSteps(Mix(0x00BE2612, 0xFF)) == 0xDEBB20E3
  {
  }

  lemma FourOnes()
    ensures StepByte(StepByte(StepByte(StepByte(0, 255), 255), 255), 255) == 0xDEBB20E3
  {
    assert IsVector(255, 255);
    hide *;
    OnesSteps();
    StepsTo(0, 255, 255);
    StepsTo(0x2D02EF8D, 255, 255);
    StepsTo(0xBE2612FF, 255, 255);
    StepsTo(0x00BE2612, 255, 255);
  }

  /** A message followed by its own checksum, low byte first, sums to the residue constant 2144DF1C. */
  lemma Residue(d: seq<byte>)
    ensures Crc32(d + CrcBytes(Crc32(d))) == 0x2144DF1C
  {
    var s := Register(0xFFFFFFFF, d);
    RegisterOfConcat(0xFFFFFFFF, d, CrcBytes(!s));
    ResidueRegister(s);
    hide Register, CrcBytes, StepByte;
    FourOnes();
  }

  lemma ZeroStep()
    ensures IsVector(0, 0) && EightBitSteps(Mix(0xFFFFFFFF, 0)) == 0x2DFD1072
  {
  }

  /** A zero byte in front changes the checksum of every message. */
  lemma LeadingZero(d: seq<byte>)
    ensures Crc32([0] + d) != Crc32(d)
  {
    var longer: seq<byte> := [0] + d;
    assert longer[0] == 0 && longer[1..] == d;
    hide *;
    ZeroStep();
    StepsTo(0xFFFFFFFF, 0, 0);
    RegisterCons(0xFFFFFFFF, longer);
    DifferenceSurvives(0x2DFD1072, 0xFFFFFFFF, d);
    SumsDiffer(longer, d);
  }

  lemma SumsDiffer(d: seq<byte>, e: seq<byte>)
    requires Register(0xFFFFFFFF, d) != Register(0xFFFFFFFF, e)
    ensures Crc32(d) != Crc32(e)
  {
    hide Register;
    if Crc32(d) == Crc32(e) { NotInjective(Register(0xFFFFFFFF, d), Register(0xFFFFFFFF, e)); }
  }
}
