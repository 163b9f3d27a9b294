/** CRC-32 (section 8 of RFC 1952), bit by bit, and the envelope that carries it. */
module Crc {
  import opened Wire
  import opened Bits

  function Half(crc: bv32): bv32 { crc >> 1 }

  /** What the low bit feeds back into the register. */
  function Feedback(crc: bv32): bv32 { if crc & 1 == 1 then 0xEDB88320 else 0 }

  function StepBit(crc: bv32): bv32 { Mix(Half(crc), Feedback(crc)) }

  /** The loop's branch-free form: the mask is all ones exactly when the low bit is set. */
  lemma MaskedStep(crc: bv32)
    ensures (crc >> 1) ^ (0xEDB88320 & (0 - (crc & 1))) == StepBit(crc)
  {
    if crc & 1 == 1 { } else { assert crc & 1 == 0; }
  }

  function Steps(crc: bv32, n: nat): bv32
    decreases n
  {
    if n == 0 then crc else Steps(StepBit(crc), n - 1)
  }

  /** A data byte as a register value. */
  function Data(b: byte): bv32 { ToBits(b) as bv32 }

  function Mix(x: bv32, y: bv32): bv32 { x ^ y }

  function StepByte(crc: bv32, b: byte): bv32 { Steps(Mix(crc, Data(b)), 8) }

  function Register(crc: bv32, d: seq<byte>): bv32
    decreases |d|
  {
    if d == [] then crc else Register(StepByte(crc, d[0]), d[1..])
  }

  function Crc32(d: seq<byte>): bv32 { !Register(0xFFFFFFFF, d) }

  method EightRounds(register: bv32) returns (crc: bv32)
    ensures crc == Steps(register, 8)
  {
    hide StepBit;
    crc := register;
    for bit := 0 to 8
      invariant Steps(crc, 8 - bit) == Steps(register, 8)
    {
      MaskedStep(crc);
      var mask: bv32 := 0 - (crc & 1);
      crc := (crc >> 1) ^ (0xEDB88320 & mask);
    }
  }

  method Crc32Range(data: seq<byte>) returns (r: bv32)
    ensures r == Crc32(data)
  {
    hide Steps, StepBit, Data, Mix;
    var crc: bv32 := 0xFFFFFFFF;
    for i := 0 to |data|
      invariant Register(crc, data[i..]) == Register(0xFFFFFFFF, data)
    {
      assert data[i..][1..] == data[i + 1..];
      crc := EightRounds(Mix(crc, Data(data[i])));
    }
    return !crc;
  }

  // The step is linear over exclusive-or and has no kernel. Vector operations are named
  // so that proofs over many steps need not look inside them.

  lemma HalfLinear(x: bv32, y: bv32)
    ensures Half(Mix(x, y)) == Mix(Half(x), Half(y))
  {
  }

  lemma LowBit(x: bv32)
    ensures x & 1 == 0 || x & 1 == 1
  {
  }

  lemma LowBitLinear(x: bv32, y: bv32)
    ensures Mix(x, y) & 1 == (x & 1) ^ (y & 1)
  {
  }

  lemma FeedbackLinear(x: bv32, y: bv32)
    ensures Feedback(Mix(x, y)) == Mix(Feedback(x), Feedback(y))
  {
    LowBit(x);
    LowBit(y);
    LowBitLinear(x, y);
  }

  lemma StepBitLinear(x: bv32, y: bv32)
    ensures StepBit(Mix(x, y)) == Mix(StepBit(x), StepBit(y))
  {
    HalfLinear(x, y);
    FeedbackLinear(x, y);
    MixSwap(Half(x), Half(y), Feedback(x), Feedback(y));
    hide Mix, Half, Feedback;
  }

  lemma StepBitInjective(x: bv32)
    requires StepBit(x) == 0
    ensures x == 0
  {
  }

  lemma {:induction false} StepsLinear(x: bv32, y: bv32, n: nat)
    ensures Steps(Mix(x, y), n) == Mix(Steps(x, n), Steps(y, n))
    decreases n
  {
    hide StepBit, Mix;
    if n > 0 {
      StepBitLinear(x, y);
      StepsLinear(StepBit(x), StepBit(y), n - 1);
    }
  }

  lemma {:induction false} StepsInjective(x: bv32, n: nat)
    requires Steps(x, n) == 0
    ensures x == 0
    decreases n
  {
    hide StepBit;
    if n > 0 {
      StepsInjective(StepBit(x), n - 1);
      StepBitInjective(x);
    }
  }

  lemma XorTwice(x: bv32, y: bv32)
    ensures (x ^ y) ^ y == x
  {
  }

  lemma XorZero(x: bv32, y: bv32)
    ensures x ^ x == 0
    ensures x ^ y == 0 ==> x == y
  {
    if x ^ y == 0 { assert x == (x ^ y) ^ y; }
  }

  lemma MixFacts(x: bv32, y: bv32)
    ensures Mix(x, y) == 0 <==> x == y
    ensures Mix(Mix(x, y), y) == x
  {
    XorTwice(x, y);
    XorZero(x, y);
  }

  lemma ByteStepInjective(x: bv32, y: bv32)
    requires Steps(x, 8) == Steps(y, 8)
    ensures x == y
  {
    hide StepBit, Steps, Mix;
    StepsLinear(x, y, 8);
    MixFacts(Steps(x, 8), Steps(y, 8));
    StepsInjective(Mix(x, y), 8);
    MixFacts(x, y);
  }

  function Double(x: bv32): bv32 { x << 1 }

  /** The value shifted up k bits, one bit at a time. */
  function Shifted(x: bv32, k: nat): bv32 { if k == 0 then x else Double(Shifted(x, k - 1)) }

  predicate TopClear(x: bv32) { x & 0x80000000 == 0 }

  /** The value fits in m bytes. */
  predicate Below(x: bv32, m: nat)
  {
    match m
    case 0 => x == 0
    case 1 => x & 0xFFFFFF00 == 0
    case 2 => x & 0xFFFF0000 == 0
    case 3 => x & 0xFF000000 == 0
    case _ => true
  }

  lemma EightDoublings(x: bv32)
    ensures x << 8 == Double(Double(Double(Double(Double(Double(Double(Double(x))))))))
  {
  }

  lemma Doublings(x: bv32)
    requires x & 0xFF000000 == 0
    ensures TopClear(x) && TopClear(Double(x)) && TopClear(Double(Double(x))) && TopClear(Double(Double(Double(x))))
    ensures TopClear(Double(Double(Double(Double(x))))) && TopClear(Double(Double(Double(Double(Double(x))))))
    ensures TopClear(Double(Double(Double(Double(Double(Double(x)))))))
    ensures TopClear(Double(Double(Double(Double(Double(Double(Double(x))))))))
  {
  }

  lemma ShiftedUnrolled(x: bv32)
    ensures Shifted(x, 0) == x && Shifted(x, 1) == Double(x) && Shifted(x, 2) == Double(Double(x))
    ensures Shifted(x, 3) == Double(Double(Double(x))) && Shifted(x, 4) == Double(Double(Double(Double(x))))
    ensures Shifted(x, 5) == Double(Double(Double(Double(Double(x)))))
    ensures Shifted(x, 6) == Double(Double(Double(Double(Double(Double(x))))))
    ensures Shifted(x, 7) == Double(Double(Double(Double(Double(Double(Double(x)))))))
    ensures Shifted(x, 8) == Double(Double(Double(Double(Double(Double(Double(Double(x))))))))
  {
    hide Double;
    assert Shifted(x, 1) == Double(x);
    assert Shifted(x, 2) == Double(Shifted(x, 1));
    assert Shifted(x, 3) == Double(Shifted(x, 2));
    assert Shifted(x, 4) == Double(Shifted(x, 3));
    assert Shifted(x, 5) == Double(Shifted(x, 4));
    assert Shifted(x, 6) == Double(Shifted(x, 5));
    assert Shifted(x, 7) == Double(Shifted(x, 6));
  }

  lemma ShiftedTop(x: bv32, k: nat)
    requires Below(x, 3) && k < 8
    ensures TopClear(Shifted(x, k))
  {
    hide TopClear, Double, Shifted;
    Doublings(x);
    ShiftedUnrolled(x);
    hide Below;
    if k == 0 { } else if k == 1 { } else if k == 2 { } else if k == 3 { }
    else if k == 4 { } else if k == 5 { } else if k == 6 { } else { }
  }

  lemma ShiftedByte(x: bv32)
    ensures Shifted(x, 8) == x << 8
  {
    hide Double, Shifted;
    EightDoublings(x);
    ShiftedUnrolled(x);
  }

  lemma ShiftBack(x: bv32)
    requires TopClear(x)
    ensures Double(x) & 1 == 0 && Double(x) >> 1 == x
  {
  }

  lemma StepOfEven(y: bv32, half: bv32)
    requires y & 1 == 0 && y >> 1 == half
    ensures StepBit(y) == half
  {
  }

  lemma StepOfDouble(x: bv32, n: nat)
    requires TopClear(x) && n > 0
    ensures Steps(Double(x), n) == Steps(x, n - 1)
  {
    ShiftBack(x);
    StepOfEven(Double(x), x);
    hide StepBit, Double, TopClear;
  }

  /** Steps over clear low bits only shift: eight of them bring a shifted three-byte value back down. */
  lemma {:induction false} StepsShift(x: bv32, k: nat)
    requires Below(x, 3) && k <= 8
    ensures Steps(Shifted(x, k), k) == x
    decreases k
  {
    hide StepBit, Double, TopClear, Below;
    if k > 0 {
      ShiftedTop(x, k - 1);
      StepOfDouble(Shifted(x, k - 1), k);
      StepsShift(x, k - 1);
    }
  }

  /** Undoing one byte step whose result fits in m <= 3 bytes. */
  lemma StepBackward(before: bv32, e: bv32, after: bv32, m: nat)
    requires after == Steps(Mix(before, e), 8) && m <= 3 && Below(after, m) && Below(e, 1)
    ensures Below(before, m + 1)
    ensures before == 0 ==> e == 0 && after == 0
  {
    BelowGrows(after, m);
    hide Steps, Mix, Below, Above, Shifted;
    StepsShift(after, 8);
    ByteStepInjective(Mix(before, e), Shifted(after, 8));
    ShiftedByte(after);
    PeelXor(before, e, after);
    AboveFits(after, e, m);
    if before == 0 { AboveZero(after, e); }
  }

  lemma BelowGrows(x: bv32, m: nat)
    requires m <= 3 && Below(x, m)
    ensures Below(x, 3)
  {
    match m case 0 => case 1 => case 2 => case 3 =>
  }

  /** A register whose low byte is `e` above the bytes of `after`. */
  function Above(after: bv32, e: bv32): bv32 { (after << 8) ^ e }

  lemma PeelXor(before: bv32, e: bv32, after: bv32)
    requires Mix(before, e) == after << 8
    ensures before == Above(after, e)
  {
    assert before == (before ^ e) ^ e;
  }

  lemma AboveFits(after: bv32, e: bv32, m: nat)
    requires m <= 3 && Below(after, m) && Below(e, 1)
    ensures Below(Above(after, e), m + 1)
  {
    if m == 0 { } else if m == 1 { } else if m == 2 { } else { }
  }

  lemma AboveZero(after: bv32, e: bv32)
    requires Below(e, 1) && Below(after, 3) && Above(after, e) == 0
    ensures e == 0 && after == 0
  {
    var shifted := after << 8;
    XorZero(shifted, e);
    assert shifted & 0xFF == 0;
    assert shifted >> 8 == after;
  }

  lemma DataFits(a: byte, b: byte)
    ensures Below(Mix(Data(a), Data(b)), 1)
    ensures Mix(Data(a), Data(b)) == 0 ==> a == b
  {
    var x, y := ToBits(a), ToBits(b);
    assert (x as bv32) & 0xFFFFFF00 == 0 && (y as bv32) & 0xFFFFFF00 == 0;
    FromToBits(a);
    FromToBits(b);
    hide ToBits, FromBits;
    if x != y { assert (x as bv32) != (y as bv32); }
  }

  lemma StepDifference(s: bv32, t: bv32, a: byte, b: byte)
    ensures Mix(StepByte(s, a), StepByte(t, b)) == Steps(Mix(Mix(s, t), Mix(Data(a), Data(b))), 8)
  {
    MixSwap(s, t, Data(a), Data(b));
    hide Steps, StepBit, Mix, Data;
    StepsLinear(Mix(s, Data(a)), Mix(t, Data(b)), 8);
  }

  lemma MixCommutes(x: bv32, y: bv32)
    ensures Mix(x, y) == Mix(y, x)
  {
  }

  lemma MixAssociates(x: bv32, y: bv32, z: bv32)
    ensures Mix(Mix(x, y), z) == Mix(x, Mix(y, z))
  {
  }

  lemma MixSwap(a: bv32, b: bv32, c: bv32, d: bv32)
    ensures Mix(Mix(a, c), Mix(b, d)) == Mix(Mix(a, b), Mix(c, d))
  {
    hide Mix;
    MixAssociates(a, c, Mix(b, d));
    MixAssociates(c, b, d);
    MixCommutes(c, b);
    MixAssociates(b, c, d);
    MixAssociates(a, b, Mix(c, d));
  }

  /**
   * Registers that agree after m <= 4 bytes differed before them by at most m bytes; if they agreed, so did the bytes.
   */
  lemma {:induction false} Backward(s: bv32, t: bv32, u: seq<byte>, v: seq<byte>)
    requires |u| == |v| <= 4 && Register(s, u) == Register(t, v)
    ensures Below(Mix(s, t), |u|)
    ensures s == t ==> u == v
    decreases |u|
  {
    hide Steps, StepBit, Data, Mix, Below, StepByte;
    MixFacts(s, t);
    if u == [] {
      BelowZero();
    } else {
      var s1, t1 := StepByte(s, u[0]), StepByte(t, v[0]);
      Backward(s1, t1, u[1..], v[1..]);
      StepDifference(s, t, u[0], v[0]);
      DataFits(u[0], v[0]);
      StepBackward(Mix(s, t), Mix(Data(u[0]), Data(v[0])), Mix(s1, t1), |u| - 1);
      MixFacts(s1, t1);
      assert u == [u[0]] + u[1..] && v == [v[0]] + v[1..];
    }
  }

  lemma BelowZero()
    ensures Below(0, 0)
  {
  }

  /** Equal bytes never bring different registers together. */
  lemma {:induction false} DifferenceSurvives(s: bv32, t: bv32, d: seq<byte>)
    requires s != t
    ensures Register(s, d) != Register(t, d)
    decreases |d|
  {
    hide Steps, StepBit, Data, Mix;
    if d != [] {
      if StepByte(s, d[0]) == StepByte(t, d[0]) {
        ByteStepInjective(Mix(s, Data(d[0])), Mix(t, Data(d[0])));
        MixFacts(s, Data(d[0]));
        MixFacts(t, Data(d[0]));
      }
      DifferenceSurvives(StepByte(s, d[0]), StepByte(t, d[0]), d[1..]);
    }
  }

  lemma {:induction false} RegisterOfConcat(s: bv32, a: seq<byte>, b: seq<byte>)
    ensures Register(s, a + b) == Register(Register(s, a), b)
    decreases |a|
  {
    hide StepByte;
    if a == [] {
      assert a + b == b;
    } else {
      RegisterOfConcat(StepByte(s, a[0]), a[1..], b);
      assert (a + b)[1..] == a[1..] + b;
    }
  }

  predicate SameOutside(a: seq<byte>, b: seq<byte>, k: nat, width: nat)
  {
    |a| == |b| && forall i :: 0 <= i < |a| && !(k <= i < k + width) ==> a[i] == b[i]
  }

  /** Burst detection: messages that differ, and only inside four consecutive bytes, have different CRCs. */
  lemma BurstDetected(a: seq<byte>, b: seq<byte>, k: nat)
    requires SameOutside(a, b, k, 4) && a != b
    ensures Crc32(a) != Crc32(b)
  {
    var lo := if k <= |a| then k else |a|;
    var hi := if k + 4 <= |a| then k + 4 else |a|;
    var u, v, post := a[lo..hi], b[lo..hi], a[hi..];
    assert a == a[..lo] + u + post && b == a[..lo] + v + post;
    hide Register, StepByte;
    var s := Register(0xFFFFFFFF, a[..lo]);
    RegisterOfConcat(0xFFFFFFFF, a[..lo] + u, post);
    RegisterOfConcat(0xFFFFFFFF, a[..lo], u);
    RegisterOfConcat(0xFFFFFFFF, a[..lo] + v, post);
    RegisterOfConcat(0xFFFFFFFF, a[..lo], v);
    if Register(s, u) == Register(s, v) { Backward(s, s, u, v); }
    DifferenceSurvives(Register(s, u), Register(s, v), post);
    if Crc32(a) == Crc32(b) { NotInjective(Register(0xFFFFFFFF, a), Register(0xFFFFFFFF, b)); }
  }

  lemma NotInjective(x: bv32, y: bv32)
    requires !x == !y
    ensures x == y
  {
    assert !(!x) == x && !(!y) == y;
  }

  // The envelope: marker, CRC of the packet (little-endian), packet.

  const ENVELOPE: byte := 0xF9

  function CrcBytes(c: bv32): (d: seq<byte>)
    ensures |d| == 4
  {
    [FromBits((c & 0xFF) as bv8), FromBits(((c >> 8) & 0xFF) as bv8),
     FromBits(((c >> 16) & 0xFF) as bv8), FromBits(((c >> 24) & 0xFF) as bv8)]
  }

  function CrcOfBytes(d: seq<byte>): bv32
    requires |d| == 4
  {
    Data(d[0]) | (Data(d[1]) << 8) | (Data(d[2]) << 16) | (Data(d[3]) << 24)
  }

  function Wrap(p: seq<byte>): seq<byte> { [ENVELOPE] + CrcBytes(Crc32(p)) + p }

  datatype Unwrapped = TooSmall | Mismatch | Packet(packet: seq<byte>)

  function Unwrap(q: seq<byte>): Unwrapped
  {
    if |q| < 5 then TooSmall
    else if CrcOfBytes(q[1..5]) != Crc32(q[5..]) then Mismatch
    else Packet(q[5..])
  }

  lemma EnvelopeParts(crc: seq<byte>, p: seq<byte>)
    requires |crc| == 4
    ensures var q := [ENVELOPE] + crc + p; q[1..5] == crc && q[5..] == p
  {
  }

  lemma JoinBytes(c: bv32)
    ensures (((c & 0xFF) as bv8) as bv32) | ((((c >> 8) & 0xFF) as bv8 as bv32) << 8)
      | ((((c >> 16) & 0xFF) as bv8 as bv32) << 16) | ((((c >> 24) & 0xFF) as bv8 as bv32) << 24) == c
  {
  }

  lemma CrcBytesRoundTrip(c: bv32)
    ensures CrcOfBytes(CrcBytes(c)) == c
  {
    JoinBytes(c);
    ToFromBits((c & 0xFF) as bv8); ToFromBits(((c >> 8) & 0xFF) as bv8);
    ToFromBits(((c >> 16) & 0xFF) as bv8); ToFromBits(((c >> 24) & 0xFF) as bv8);
    hide ToBits, FromBits;
  }

  lemma UnwrapOfWrap(p: seq<byte>)
    ensures Unwrap(Wrap(p)) == Packet(p)
  {
    hide Crc32, CrcBytes, CrcOfBytes;
    CrcBytesRoundTrip(Crc32(p));
    EnvelopeParts(CrcBytes(Crc32(p)), p);
  }

  /** An envelope whose packet was damaged inside four consecutive bytes is refused. */
  lemma DamagedPacketRefused(p: seq<byte>, damaged: seq<byte>, k: nat)
    requires SameOutside(p, damaged, k, 4) && p != damaged
    ensures Unwrap([ENVELOPE] + CrcBytes(Crc32(p)) + damaged) == Mismatch
  {
    BurstDetected(p, damaged, k);
    CrcBytesRoundTrip(Crc32(p));
    hide Crc32, CrcBytes, CrcOfBytes;
    EnvelopeParts(CrcBytes(Crc32(p)), damaged);
  }
}
