/** Single bits of a byte, packed bitmaps, and the passage between bytes and 8-bit vectors. */
module Bits {
  import opened Wire

  /** `b & (1 << j)` is non-zero. */
  predicate BitOf(b: nat, j: nat)
    decreases j
  {
    if j == 0 then b % 2 == 1 else BitOf(b / 2, j - 1)
  }

  /** `b | (1 << j)`. */
  function SetBit(b: nat, j: nat): nat
    decreases j
  {
    if j == 0 then (if b % 2 == 1 then b else b + 1) else 2 * SetBit(b / 2, j - 1) + b % 2
  }

  lemma {:induction false} SetBitMeaning(b: nat, j: nat, k: nat)
    ensures BitOf(SetBit(b, j), k) == (k == j || BitOf(b, k))
    decreases j
  {
    if j > 0 && k > 0 {
      SetBitMeaning(b / 2, j - 1, k - 1);
      assert SetBit(b, j) / 2 == SetBit(b / 2, j - 1);
    } else if j == 0 && k > 0 {
      assert SetBit(b, j) / 2 == b / 2;
    }
  }

  function Pow2(k: nat): nat { if k == 0 then 1 else 2 * Pow2(k - 1) }

  lemma SetBitStep(b: nat, j: nat)
    ensures SetBit(b, j) == if j > 0 then 2 * SetBit(b / 2, j - 1) + b % 2 else if b % 2 == 1 then b else b + 1
  {
  }

  lemma Pow2Step(k: nat)
    requires k > 0
    ensures Pow2(k) == 2 * Pow2(k - 1)
  {
  }

  lemma {:induction false} SetBitFits(b: nat, j: nat, width: nat)
    requires b < Pow2(width) && j < width
    ensures SetBit(b, j) < Pow2(width)
    decreases j
  {
    hide SetBit, Pow2;
    SetBitStep(b, j);
    Pow2Step(width);
    if j > 0 { SetBitFits(b / 2, j - 1, width - 1); }
  }

  function ByteWithBit(b: byte, j: nat): byte
    requires j < 8
  {
    EightBits();
    SetBitFits(b, j, 8);
    SetBit(b, j)
  }

  // Bitmaps: flag i lives in bit i % 8 of byte i / 8.

  predicate BitAt(bitmap: seq<byte>, i: nat)
  {
    i / 8 < |bitmap| && BitOf(bitmap[i / 8], i % 8)
  }

  function WithBit(bitmap: seq<byte>, i: nat): (r: seq<byte>)
    requires i / 8 < |bitmap|
    ensures |r| == |bitmap|
  {
    bitmap[i / 8 := ByteWithBit(bitmap[i / 8], i % 8)]
  }

  lemma WithBitMeaning(bitmap: seq<byte>, i: nat, k: nat)
    requires i / 8 < |bitmap|
    ensures BitAt(WithBit(bitmap, i), k) == (k == i || BitAt(bitmap, k))
  {
    if k / 8 == i / 8 { SetBitMeaning(bitmap[i / 8], i % 8, k % 8); }
  }

  function BitmapSize(n: nat): nat { (n + 7) / 8 }

  function Zeros(n: nat): (z: seq<byte>)
    ensures |z| == n
  {
    seq(n, _ => 0)
  }

  lemma ZeroBits(n: nat, k: nat)
    ensures !BitAt(Zeros(n), k)
  {
    ZeroBit(k % 8);
  }

  lemma ZeroBit(j: nat)
    ensures !BitOf(0, j)
  {
  }

  /** Sets, in order, the bit of every true flag from index `i` on. */
  function PackFrom(flags: seq<bool>, i: nat, bitmap: seq<byte>): (r: seq<byte>)
    requires i <= |flags| && |bitmap| == BitmapSize(|flags|)
    ensures |r| == |bitmap|
    decreases |flags| - i
  {
    if i == |flags| then bitmap
    else PackFrom(flags, i + 1, if flags[i] then WithBit(bitmap, i) else bitmap)
  }

  lemma PackStep(flags: seq<bool>, i: nat, bitmap: seq<byte>)
    requires i < |flags| && |bitmap| == BitmapSize(|flags|)
    ensures PackFrom(flags, i, bitmap) == PackFrom(flags, i + 1, if flags[i] then WithBit(bitmap, i) else bitmap)
  {
  }

  function Pack(flags: seq<bool>): (r: seq<byte>)
    ensures |r| == BitmapSize(|flags|)
  {
    PackFrom(flags, 0, Zeros(BitmapSize(|flags|)))
  }

  lemma {:induction false} PackFromMeaning(flags: seq<bool>, i: nat, bitmap: seq<byte>, k: nat)
    requires i <= |flags| && |bitmap| == BitmapSize(|flags|)
    ensures BitAt(PackFrom(flags, i, bitmap), k) == (BitAt(bitmap, k) || (i <= k < |flags| && flags[k]))
    decreases |flags| - i
  {
    if i < |flags| {
      WithBitMeaning(bitmap, i, k);
      PackFromMeaning(flags, i + 1, if flags[i] then WithBit(bitmap, i) else bitmap, k);
    }
  }

  /** Reading a packed bitmap gives the flags back, and every padding bit is zero. */
  lemma PackMeaning(flags: seq<bool>, k: nat)
    ensures BitAt(Pack(flags), k) == (k < |flags| && flags[k])
  {
    ZeroBits(BitmapSize(|flags|), k);
    PackFromMeaning(flags, 0, Zeros(BitmapSize(|flags|)), k);
  }

  // The same in arithmetic, apart from how bits are read and set: bit j of a byte has the weight Pow2(j).

  lemma HalfThenDivide(b: nat, m: nat)
    requires m > 0
    ensures b / (2 * m) == b / 2 / m
  {
    var half := b / 2;
    assert half == half / m * m + half % m;
    assert half / m * (2 * m) == 2 * (half / m * m);
    QuotientIs(b, 2 * m, half / m, 2 * (half % m) + b % 2);
  }

  /** Reading bit j divides by its weight. */
  lemma {:induction false} BitValue(b: nat, j: nat)
    ensures Pow2(j) > 0
    ensures BitOf(b, j) <==> b / Pow2(j) % 2 == 1
    decreases j
  {
    if j > 0 {
      BitValue(b / 2, j - 1);
      HalfThenDivide(b, Pow2(j - 1));
    }
  }

  /** Setting bit j adds its weight, unless it was set. */
  lemma {:induction false} SetBitValue(b: nat, j: nat)
    ensures Pow2(j) > 0
    ensures SetBit(b, j) == if b / Pow2(j) % 2 == 1 then b else b + Pow2(j)
    decreases j
  {
    if j > 0 {
      SetBitValue(b / 2, j - 1);
      HalfThenDivide(b, Pow2(j - 1));
    }
  }

  /** The sum of the weights of the true flags. */
  function Weight(flags: seq<bool>): nat
  {
    if flags == [] then 0
    else
      var last := |flags| - 1;
      Weight(flags[..last]) + if flags[last] then Pow2(last) else 0
  }

  /** The at most eight flags of byte i. */
  function FlagsOfByte(flags: seq<bool>, i: nat): seq<bool>
    requires 8 * i <= |flags|
  {
    if |flags| < 8 * i + 8 then flags[8 * i..] else flags[8 * i..8 * i + 8]
  }

  lemma {:induction false} Base2Snoc(bits: seq<bool>, bit: bool)
    ensures Base2(bits + [bit]) == Base2(bits) + if bit then Pow2(|bits|) else 0
    decreases |bits|
  {
    if bits != [] {
      Base2Snoc(bits[1..], bit);
      assert (bits + [bit])[1..] == bits[1..] + [bit];
    }
  }

  lemma {:induction false} WeightIsBase2(flags: seq<bool>)
    ensures Weight(flags) == Base2(flags)
    decreases |flags|
  {
    if flags != [] {
      var last := |flags| - 1;
      WeightIsBase2(flags[..last]);
      Base2Snoc(flags[..last], flags[last]);
      assert flags == flags[..last] + [flags[last]];
    }
  }

  /** Clear bits above the flags add nothing. */
  lemma {:induction false} WeightPadded(flags: seq<bool>, more: nat)
    ensures Weight(flags + seq(more, _ => false)) == Weight(flags)
    decreases more
  {
    if more == 0 {
      assert flags + seq(more, _ => false) == flags;
    } else {
      var longer := flags + seq(more, _ => false);
      WeightPadded(flags, more - 1);
      assert longer[..|longer| - 1] == flags + seq(more - 1, _ => false);
    }
  }

  /**
   * Flag k of a packed bitmap is the bit of weight Pow2(k % 8) of byte k / 8, and every byte is the sum of the weights
   * of its own true flags.
   */
  lemma PackValue(flags: seq<bool>, k: nat)
    requires k < |flags|
    ensures Pow2(k % 8) > 0 && k / 8 < |Pack(flags)|
    ensures Pack(flags)[k / 8] / Pow2(k % 8) % 2 == 1 <==> flags[k]
    ensures 8 * (k / 8) <= |flags| && Pack(flags)[k / 8] == Weight(FlagsOfByte(flags, k / 8))
  {
    hide Pack, BitOf, Pow2, Weight;
    PackMeaning(flags, k);
    BitValue(Pack(flags)[k / 8], k % 8);
    PackedByte(flags, k / 8);
  }

  lemma PackedByte(flags: seq<bool>, i: nat)
    requires 8 * i < |flags|
    ensures i < |Pack(flags)| && Pack(flags)[i] == Weight(FlagsOfByte(flags, i))
  {
    hide *;
    SizeOfPack(flags, i);
    var b, own := Pack(flags)[i], FlagsOfByte(flags, i);
    var bits := BitList(b, 8);
    forall j | 0 <= j < 8 ensures bits[j] == (j < |own| && own[j]) {
      OwnFlag(flags, i, j);
      BitListAt(b, j);
      PackMeaning(flags, 8 * i + j);
      BitAtParts(Pack(flags), i, j);
    }
    OwnFlag(flags, i, 0);
    assert bits == own + seq(8 - |own|, _ => false);
    EightBits();
    Base2OfBits(b, 8);
    WeightIsBase2(bits);
    WeightPadded(own, 8 - |own|);
  }

  lemma SizeOfPack(flags: seq<bool>, i: nat)
    requires 8 * i < |flags|
    ensures i < |Pack(flags)|
  {
    hide Pack;
  }

  lemma OwnFlag(flags: seq<bool>, i: nat, j: nat)
    requires 8 * i < |flags| && j < 8
    ensures var own := FlagsOfByte(flags, i);
      |own| <= 8 && (j < |own| && own[j] <==> 8 * i + j < |flags| && flags[8 * i + j])
  {
  }

  lemma BitListAt(b: nat, j: nat)
    requires j < 8
    ensures |BitList(b, 8)| == 8 && BitList(b, 8)[j] == BitOf(b, j)
  {
    hide BitOf;
  }

  lemma BitAtParts(bitmap: seq<byte>, i: nat, j: nat)
    requires i < |bitmap| && j < 8
    ensures BitAt(bitmap, 8 * i + j) == BitOf(bitmap[i], j)
  {
    hide BitOf;
  }

  function Flags(bitmap: seq<byte>, n: nat): (flags: seq<bool>)
    ensures |flags| == n
  {
    seq(n, i requires 0 <= i < n => BitAt(bitmap, i))
  }

  /** Reading divides: flag k is the bit of weight Pow2(k % 8) of byte k / 8, and clear past the end. */
  lemma FlagsValue(bitmap: seq<byte>, n: nat, k: nat)
    requires k < n
    ensures Pow2(k % 8) > 0
    ensures Flags(bitmap, n)[k] <==> k / 8 < |bitmap| && bitmap[k / 8] / Pow2(k % 8) % 2 == 1
  {
    if k / 8 < |bitmap| { BitValue(bitmap[k / 8], k % 8); } else { BitValue(0, k % 8); }
    hide BitOf, Pow2;
  }

  lemma FlagsOfPack(flags: seq<bool>)
    ensures Flags(Pack(flags), |flags|) == flags
  {
    forall k | 0 <= k < |flags| ensures Flags(Pack(flags), |flags|)[k] == flags[k] {
      PackMeaning(flags, k);
    }
  }

  // Bytes as 8-bit vectors. The eight truth values stand between the two number systems.

  function Base2(bits: seq<bool>): (n: nat)
    ensures n < Pow2(|bits|)
  {
    if bits == [] then 0 else (if bits[0] then 1 else 0) + 2 * Base2(bits[1..])
  }

  function BitList(b: nat, width: nat): (bits: seq<bool>)
    ensures |bits| == width
  {
    seq(width, j requires 0 <= j < width => BitOf(b, j))
  }

  lemma {:induction false} BitsOfBase2(bits: seq<bool>, j: nat)
    requires j < |bits|
    ensures BitOf(Base2(bits), j) == bits[j]
    decreases j
  {
    hide *;
    Base2Halves(bits);
    BitOfHalf(Base2(bits), j);
    if j > 0 { BitsOfBase2(bits[1..], j - 1); }
  }

  lemma Base2Halves(bits: seq<bool>)
    requires bits != []
    ensures Base2(bits) / 2 == Base2(bits[1..]) && Base2(bits) % 2 == if bits[0] then 1 else 0
  {
  }

  lemma BitOfHalf(b: nat, j: nat)
    ensures BitOf(b, j) == if j == 0 then b % 2 == 1 else BitOf(b / 2, j - 1)
  {
  }

  lemma {:induction false} Base2OfBits(b: nat, width: nat)
    requires b < Pow2(width)
    ensures Base2(BitList(b, width)) == b
    decreases width
  {
    if width > 0 {
      assert BitList(b, width)[1..] == BitList(b / 2, width - 1);
      Base2OfBits(b / 2, width - 1);
    }
  }

  lemma EightBits()
    ensures Pow2(8) == 256
  {
    assert Pow2(4) == 16;
  }

  function Join(b0: bool, b1: bool, b2: bool, b3: bool, b4: bool, b5: bool, b6: bool, b7: bool): byte
  {
    EightBits();
    Base2([b0, b1, b2, b3, b4, b5, b6, b7])
  }

  function Vector(b0: bool, b1: bool, b2: bool, b3: bool, b4: bool, b5: bool, b6: bool, b7: bool): bv8
  {
    (if b0 then 1 else 0) | (if b1 then 2 else 0) | (if b2 then 4 else 0) | (if b3 then 8 else 0)
    | (if b4 then 16 else 0) | (if b5 then 32 else 0) | (if b6 then 64 else 0) | (if b7 then 128 else 0)
  }

  function ToBits(b: byte): bv8
  {
    Vector(BitOf(b, 0), BitOf(b, 1), BitOf(b, 2), BitOf(b, 3), BitOf(b, 4), BitOf(b, 5), BitOf(b, 6), BitOf(b, 7))
  }

  function FromBits(v: bv8): byte
  {
    Join(v & 1 != 0, v & 2 != 0, v & 4 != 0, v & 8 != 0, v & 16 != 0, v & 32 != 0, v & 64 != 0, v & 128 != 0)
  }

  lemma VectorBits(b0: bool, b1: bool, b2: bool, b3: bool, b4: bool, b5: bool, b6: bool, b7: bool)
    ensures var v := Vector(b0, b1, b2, b3, b4, b5, b6, b7);
      && (v & 1 != 0) == b0 && (v & 2 != 0) == b1 && (v & 4 != 0) == b2 && (v & 8 != 0) == b3
      && (v & 16 != 0) == b4 && (v & 32 != 0) == b5 && (v & 64 != 0) == b6 && (v & 128 != 0) == b7
  {
  }

  lemma BitsVector(v: bv8)
    ensures Vector(v & 1 != 0, v & 2 != 0, v & 4 != 0, v & 8 != 0, v & 16 != 0, v & 32 != 0, v & 64 != 0, v & 128 != 0)
      == v
  {
  }

  lemma EightListed(b: byte)
    ensures BitList(b, 8)
      == [BitOf(b, 0), BitOf(b, 1), BitOf(b, 2), BitOf(b, 3), BitOf(b, 4), BitOf(b, 5), BitOf(b, 6), BitOf(b, 7)]
  {
    hide BitOf;
  }

  lemma JoinOfBits(b: byte)
    ensures Join(BitOf(b, 0), BitOf(b, 1), BitOf(b, 2), BitOf(b, 3), BitOf(b, 4), BitOf(b, 5), BitOf(b, 6), BitOf(b, 7))
      == b
  {
    hide BitOf, Base2, Pow2, BitList;
    EightListed(b);
    EightBits();
    Base2OfBits(b, 8);
  }

  lemma FromToBits(b: byte)
    ensures FromBits(ToBits(b)) == b
  {
    JoinOfBits(b);
    hide Vector, Join, BitOf;
    VectorBits(BitOf(b, 0), BitOf(b, 1), BitOf(b, 2), BitOf(b, 3), BitOf(b, 4), BitOf(b, 5), BitOf(b, 6), BitOf(b, 7));
  }

  lemma ToFromBits(v: bv8)
    ensures ToBits(FromBits(v)) == v
  {
    BitsVector(v);
    BitsOfJoin(v & 1 != 0, v & 2 != 0, v & 4 != 0, v & 8 != 0, v & 16 != 0, v & 32 != 0, v & 64 != 0, v & 128 != 0);
  }

  lemma BitsOfJoin(b0: bool, b1: bool, b2: bool, b3: bool, b4: bool, b5: bool, b6: bool, b7: bool)
    ensures var b := Join(b0, b1, b2, b3, b4, b5, b6, b7);
      && BitOf(b, 0) == b0 && BitOf(b, 1) == b1 && BitOf(b, 2) == b2 && BitOf(b, 3) == b3
      && BitOf(b, 4) == b4 && BitOf(b, 5) == b5 && BitOf(b, 6) == b6 && BitOf(b, 7) == b7
  {
    var bits := [b0, b1, b2, b3, b4, b5, b6, b7];
    BitsOfBase2(bits, 0); BitsOfBase2(bits, 1); BitsOfBase2(bits, 2); BitsOfBase2(bits, 3);
    BitsOfBase2(bits, 4); BitsOfBase2(bits, 5); BitsOfBase2(bits, 6); BitsOfBase2(bits, 7);
  }

  /** The vector with the bits of the byte, counted by division. */
  predicate IsVector(b: byte, v: bv8)
  {
    v == Vector(b % 2 == 1, b / 2 % 2 == 1, b / 4 % 2 == 1, b / 8 % 2 == 1,
                b / 16 % 2 == 1, b / 32 % 2 == 1, b / 64 % 2 == 1, b / 128 % 2 == 1)
  }

  lemma SmallPowers()
    ensures Pow2(0) == 1 && Pow2(1) == 2 && Pow2(2) == 4 && Pow2(3) == 8
    ensures Pow2(4) == 16 && Pow2(5) == 32 && Pow2(6) == 64 && Pow2(7) == 128
  {
  }

  /** A byte whose bits are those of a vector is that vector. */
  lemma VectorIs(b: byte, v: bv8)
    requires IsVector(b, v)
    ensures ToBits(b) == v && FromBits(v) == b
  {
    SmallPowers();
    BitValue(b, 0); BitValue(b, 1); BitValue(b, 2); BitValue(b, 3);
    BitValue(b, 4); BitValue(b, 5); BitValue(b, 6); BitValue(b, 7);
    FromToBits(b);
    hide BitOf, Vector, Pow2, FromBits;
  }
}
