/** The bytes of WebSocket frames by position, and the example frames of section 5.7 of RFC 6455. */
module WebSocketFrames {
  import opened Wire
  import opened Bits
  import opened WebSocket

  // Exclusive or.

  /** Bit j of a vector. */
  predicate VectorBit(v: bv8, j: nat)
    requires j < 8
  {
    match j
    case 0 => v & 1 != 0
    case 1 => v & 2 != 0
    case 2 => v & 4 != 0
    case 3 => v & 8 != 0
    case 4 => v & 16 != 0
    case 5 => v & 32 != 0
    case 6 => v & 64 != 0
    case _ => v & 128 != 0
  }

  lemma XorOfVector(x: bv8, y: bv8)
    ensures var z := XorBits(x, y);
      && (z & 1 != 0) == ((x & 1 != 0) != (y & 1 != 0)) && (z & 2 != 0) == ((x & 2 != 0) != (y & 2 != 0))
      && (z & 4 != 0) == ((x & 4 != 0) != (y & 4 != 0)) && (z & 8 != 0) == ((x & 8 != 0) != (y & 8 != 0))
      && (z & 16 != 0) == ((x & 16 != 0) != (y & 16 != 0)) && (z & 32 != 0) == ((x & 32 != 0) != (y & 32 != 0))
      && (z & 64 != 0) == ((x & 64 != 0) != (y & 64 != 0)) && (z & 128 != 0) == ((x & 128 != 0) != (y & 128 != 0))
  {
  }

  lemma XorOfVectors(x: bv8, y: bv8, j: nat)
    requires j < 8
    ensures VectorBit(XorBits(x, y), j) == (VectorBit(x, j) != VectorBit(y, j))
  {
    XorOfVector(x, y);
    VectorBits8(x);
    VectorBits8(y);
    VectorBits8(XorBits(x, y));
    hide XorBits, VectorBit;
    if j == 0 { } else if j == 1 { } else if j == 2 { } else if j == 3 { }
    else if j == 4 { } else if j == 5 { } else if j == 6 { } else { assert j == 7; }
  }

  lemma VectorBits8(v: bv8)
    ensures VectorBit(v, 0) == (v & 1 != 0) && VectorBit(v, 1) == (v & 2 != 0) && VectorBit(v, 2) == (v & 4 != 0)
    ensures VectorBit(v, 3) == (v & 8 != 0) && VectorBit(v, 4) == (v & 16 != 0) && VectorBit(v, 5) == (v & 32 != 0)
    ensures VectorBit(v, 6) == (v & 64 != 0) && VectorBit(v, 7) == (v & 128 != 0)
  {
  }

  lemma BitOfVector(v: bv8, j: nat)
    requires j < 8
    ensures BitOf(FromBits(v), j) == VectorBit(v, j)
  {
    BitsOfJoin(v & 1 != 0, v & 2 != 0, v & 4 != 0, v & 8 != 0, v & 16 != 0, v & 32 != 0, v & 64 != 0, v & 128 != 0);
    hide BitOf, Join;
  }

  lemma XorBit(a: byte, b: byte, j: nat)
    requires j < 8
    ensures BitOf(Xor(a, b), j) == (BitOf(a, j) != BitOf(b, j))
  {
    FromToBits(a);
    FromToBits(b);
    BitOfVector(ToBits(a), j);
    BitOfVector(ToBits(b), j);
    BitOfVector(XorBits(ToBits(a), ToBits(b)), j);
    XorOfVectors(ToBits(a), ToBits(b), j);
    hide ToBits, FromBits, BitOf, XorBits, VectorBit;
  }

  /** Bit j of the exclusive or, in arithmetic: set exactly if the bits of weight Pow2(j) differ. */
  lemma XorValue(a: byte, b: byte, j: nat)
    requires j < 8
    ensures Pow2(j) > 0
    ensures Xor(a, b) / Pow2(j) % 2 == 1 <==> a / Pow2(j) % 2 != b / Pow2(j) % 2
  {
    XorBit(a, b, j);
    BitValue(a, j);
    BitValue(b, j);
    BitValue(Xor(a, b), j);
    hide Xor, BitOf, Pow2;
  }

  // Frames.

  /** Byte i of a number in network byte order. */
  lemma {:induction false} BEValue(n: nat, size: nat, i: nat)
    requires i < size
    ensures BE(n, size)[i] == n / Pow256(size - 1 - i) % 256
    decreases size
  {
    if i < size - 1 {
      BEValue(n / 256, size - 1, i);
      FloorTwice(n, Pow256(size - 2 - i));
    }
  }

  /** The bytes at a position are a number in network byte order. */
  predicate BigEndianAt(d: seq<byte>, at: nat, n: nat, size: nat)
  {
    at + size <= |d| && forall e: nat :: e < size ==> d[at + (size - 1 - e)] == n / Pow256(e) % 256
  }

  lemma BEAt(d: seq<byte>, at: nat, n: nat, size: nat)
    requires at + size <= |d| && d[at..at + size] == BE(n, size)
    ensures BigEndianAt(d, at, n, size)
  {
    hide BE, Pow256;
    forall e: nat | e < size ensures d[at + (size - 1 - e)] == n / Pow256(e) % 256 {
      BEValue(n, size, size - 1 - e);
      assert d[at..at + size][size - 1 - e] == d[at + (size - 1 - e)];
    }
  }

  /** The bytes that carry the length where the length field escapes. */
  function LengthBytes(width: Width): nat { match width case Seven => 0 case Two => 2 case Eight => 8 }

  /**
   * A frame by position: the flag and the opcode; the mask bit and the length field; the length in network byte order
   * where the field escapes to two or eight bytes; the key of a masked frame; and the payload, byte i of it combined
   * with byte i % 4 of the key when there is one.
   */
  lemma FrameForm(fin: bool, opcode: nat, key: Option<seq<byte>>, width: Width, payload: seq<byte>)
    requires opcode < 16 && width.Fits(|payload|) && (key.Some? ==> |key.value| == 4)
    ensures var d, n, ext := EncodeFrame(fin, opcode, key, width, payload), |payload|, LengthBytes(width);
      && |d| == 2 + ext + (if key.Some? then 4 else 0) + n
      && d[0] == (if fin then 128 else 0) + opcode
      && d[1] == (if key.Some? then 128 else 0) + (match width case Seven => n case Two => 126 case Eight => 127)
      && BigEndianAt(d, 2, n, ext)
      && (key.None? ==> d[2 + ext..] == payload)
      && (key.Some? ==>
            && d[2 + ext..6 + ext] == key.value
            && forall i :: 0 <= i < n ==> d[6 + ext..][i] == Xor(payload[i], key.value[i % 4]))
  {
    var d, n, ext := EncodeFrame(fin, opcode, key, width, payload), |payload|, LengthBytes(width);
    FrameSplit(fin, opcode, key, width, payload);
    hide *;
    BEAt(d, 2, n, ext);
    if key.Some? { MaskAt(payload, key.value); }
  }

  lemma FrameSplit(fin: bool, opcode: nat, key: Option<seq<byte>>, width: Width, payload: seq<byte>)
    requires opcode < 16 && width.Fits(|payload|) && (key.Some? ==> |key.value| == 4)
    ensures var d, n, ext := EncodeFrame(fin, opcode, key, width, payload), |payload|, LengthBytes(width);
      && |d| == 2 + ext + (if key.Some? then 4 else 0) + n
      && d[0] == (if fin then 128 else 0) + opcode
      && d[1] == (if key.Some? then 128 else 0) + (match width case Seven => n case Two => 126 case Eight => 127)
      && d[2..2 + ext] == BE(n, ext)
      && (key.None? ==> d[2 + ext..] == payload)
      && (key.Some? ==> d[2 + ext..6 + ext] == key.value && d[6 + ext..] == Mask(payload, key.value))
  {
    hide BE, Mask;
    var d, n := EncodeFrame(fin, opcode, key, width, payload), |payload|;
    FrameParts(d, Head(fin, opcode, key.Some?, width.Field(n)), BE(n, width.Extra()), MaskBytes(key),
      Masked(key, payload));
  }

  lemma MaskAt(payload: seq<byte>, key: seq<byte>)
    requires |key| == 4
    ensures |Mask(payload, key)| == |payload|
    ensures forall i :: 0 <= i < |payload| ==> Mask(payload, key)[i] == Xor(payload[i], key[i % 4])
  {
    hide Xor;
  }

  // The example frames of section 5.7 of RFC 6455.

  const HELLO: seq<byte> := [0x48, 0x65, 0x6C, 0x6C, 0x6F]
  const KEY: seq<byte> := [0x37, 0xFA, 0x21, 0x3D]

  lemma XorIs(a: byte, b: byte, c: byte, x: bv8, y: bv8)
    requires IsVector(a, x) && IsVector(b, y) && IsVector(c, XorBits(x, y))
    ensures Xor(a, b) == c
  {
    VectorIs(a, x);
    VectorIs(b, y);
    VectorIs(c, XorBits(x, y));
    hide ToBits, FromBits, XorBits;
  }

  predicate AreVectors(d: seq<byte>, x: seq<bv8>)
  {
    |d| == |x| && forall i :: 0 <= i < |d| ==> IsVector(d[i], x[i])
  }

  const HELLO_BITS: seq<bv8> := [0x48, 0x65, 0x6C, 0x6C, 0x6F]
  const KEY_BITS: seq<bv8> := [0x37, 0xFA, 0x21, 0x3D]
  const HIDDEN: seq<byte> := [0x7F, 0x9F, 0x4D, 0x51, 0x58]
  const HIDDEN_BITS: seq<bv8> := [0x7F, 0x9F, 0x4D, 0x51, 0x58]

  lemma HelloBytes()
    ensures IsVector(0x48, 0x48) && IsVector(0x65, 0x65) && IsVector(0x6C, 0x6C) && IsVector(0x6F, 0x6F)
  {
  }

  lemma KeyBytes()
    ensures IsVector(0x37, 0x37) && IsVector(0xFA, 0xFA) && IsVector(0x21, 0x21) && IsVector(0x3D, 0x3D)
  {
  }

  lemma HiddenBytes()
    ensures IsVector(0x7F, 0x7F) && IsVector(0x9F, 0x9F) && IsVector(0x4D, 0x4D) && IsVector(0x51, 0x51)
    ensures IsVector(0x58, 0x58)
  {
  }

  lemma HelloVectors()
    ensures AreVectors(HELLO, HELLO_BITS) && AreVectors(KEY, KEY_BITS)
  {
    HelloBytes();
    KeyBytes();
    hide IsVector;
  }

  lemma HiddenVectors()
    ensures AreVectors(HIDDEN, HIDDEN_BITS)
  {
    HiddenBytes();
    hide IsVector;
  }

  lemma HiddenIsXor()
    ensures |HIDDEN_BITS| == |HELLO_BITS| == 5 && |KEY_BITS| == 4
    ensures forall i :: 0 <= i < 5 ==> HIDDEN_BITS[i] == XorBits(HELLO_BITS[i], KEY_BITS[i % 4])
  {
  }

  /** Bytes with these vectors mask to bytes with the vectors combined. */
  lemma MaskIs(payload: seq<byte>, key: seq<byte>, masked: seq<byte>, x: seq<bv8>, y: seq<bv8>, z: seq<bv8>)
    requires |payload| == |masked| && |key| == 4
    requires AreVectors(payload, x) && AreVectors(key, y) && AreVectors(masked, z)
    requires forall i :: 0 <= i < |payload| ==> z[i] == XorBits(x[i], y[i % 4])
    ensures Mask(payload, key) == masked
  {
    MaskAt(payload, key);
    hide Mask, Xor, IsVector, XorBits;
    forall i | 0 <= i < |payload| ensures Mask(payload, key)[i] == masked[i] {
      XorIs(payload[i], key[i % 4], masked[i], x[i], y[i % 4]);
    }
  }

  lemma MaskedHello()
    ensures Mask(HELLO, KEY) == HIDDEN
  {
    hide AreVectors, XorBits, Mask;
    HelloVectors();
    HiddenVectors();
    HiddenIsXor();
    MaskIs(HELLO, KEY, HIDDEN, HELLO_BITS, KEY_BITS, HIDDEN_BITS);
  }

  /** The text frames: unmasked, masked, and in two fragments. */
  lemma TextExamples()
    ensures EncodeFrame(true, TEXT, None, Seven, HELLO) == [0x81, 0x05] + HELLO
    ensures EncodeFrame(true, TEXT, Some(KEY), Seven, HELLO)
      == [0x81, 0x85, 0x37, 0xFA, 0x21, 0x3D, 0x7F, 0x9F, 0x4D, 0x51, 0x58]
    ensures EncodeFrame(false, TEXT, None, Seven, HELLO[..3]) == [0x01, 0x03] + HELLO[..3]
    ensures EncodeFrame(true, CONTINUATION, None, Seven, HELLO[3..]) == [0x80, 0x02] + HELLO[3..]
  {
    MaskedHello();
    hide Mask;
  }

  /** The ping, the pong that answers it, and the two long binary frames. */
  lemma OtherExamples(short: seq<byte>, long: seq<byte>)
    requires |short| == 256 && |long| == 65536
    ensures Eight.Fits(|long|) && Two.Fits(|short|)
    ensures EncodeFrame(true, PING, None, Seven, HELLO) == [0x89, 0x05] + HELLO
    ensures EncodeFrame(true, PONG, Some(KEY), Seven, HELLO)
      == [0x8A, 0x85, 0x37, 0xFA, 0x21, 0x3D, 0x7F, 0x9F, 0x4D, 0x51, 0x58]
    ensures EncodeFrame(true, BINARY, None, Two, short) == [0x82, 0x7E, 0x01, 0x00] + short
    ensures EncodeFrame(true, BINARY, None, Eight, long) == [0x82, 0x7F, 0, 0, 0, 0, 0, 1, 0, 0] + long
  {
    MaskedHello();
    Pow256Values();
    hide Mask;
  }

  // What a frame does to a receiver, by its opcode.

  /** `Deliver` of one frame and whatever follows it. */
  lemma FrameEffect(client: bool, limit: nat, a: Assembly, fin: bool, opcode: nat, key: Option<seq<byte>>, width: Width,
                    payload: seq<byte>, rest: seq<byte>)
    requires opcode < 16 && width.Fits(|payload|) && (key.Some? ==> |key.value| == 4) && |payload| <= limit
    ensures var d, onward := Deliver(client, limit, a, EncodeFrame(fin, opcode, key, width, payload) + rest),
                             Deliver(client, limit, a, rest);
      var whole := a.message + payload;
      if !client && key.None? then d == Delivery(ProtocolError, a, rest, [])
      else if opcode == 0x8 then d == Delivery(ClosedByPeer, a, rest, [Reply(0x8, payload)])
      else if opcode == 0x9 then d == onward.(replies := [Reply(0xA, payload)] + onward.replies)
      else if opcode == 0xA then d == onward
      else if opcode == 0x1 || opcode == 0x2 then
        if fin then d == Delivery(Packet(payload), a, rest, [])
        else d == Deliver(client, limit, Assembly(true, payload), rest)
      else if opcode == 0x0 && a.fragmented && |whole| <= limit then
        if fin then d == Delivery(Packet(whole), Assembly(false, []), rest, [])
        else d == Deliver(client, limit, Assembly(true, whole), rest)
      else d == Delivery(ProtocolError, a, rest, [])
  {
    FrameReadsBack(fin, opcode, key, width, payload, limit, rest);
    hide *;
    EffectOf(client, limit, a, EncodeFrame(fin, opcode, key, width, payload) + rest,
      Frame(fin, opcode, key.Some?, payload), rest);
  }

  lemma EffectOf(client: bool, limit: nat, a: Assembly, w: seq<byte>, f: Frame, rest: seq<byte>)
    requires ParseFrame(w, limit) == Some((f, rest))
    ensures var d, onward := Deliver(client, limit, a, w), Deliver(client, limit, a, rest);
      var whole := a.message + f.payload;
      if !client && !f.masked then d == Delivery(ProtocolError, a, rest, [])
      else if f.opcode == 0x8 then d == Delivery(ClosedByPeer, a, rest, [Reply(0x8, f.payload)])
      else if f.opcode == 0x9 then d == onward.(replies := [Reply(0xA, f.payload)] + onward.replies)
      else if f.opcode == 0xA then d == onward
      else if f.opcode == 0x1 || f.opcode == 0x2 then
        if f.fin then d == Delivery(Packet(f.payload), a, rest, [])
        else d == Deliver(client, limit, Assembly(true, f.payload), rest)
      else if f.opcode == 0x0 && a.fragmented && |whole| <= limit then
        if f.fin then d == Delivery(Packet(whole), Assembly(false, []), rest, [])
        else d == Deliver(client, limit, Assembly(true, whole), rest)
      else d == Delivery(ProtocolError, a, rest, [])
  {
    hide *;
    ParsedLonger(w, limit);
    ParsedEffect(client, limit, a, w, f, rest);
    StepCases(client, limit, a, f);
    var step := HandleFrame(client, limit, a, f);
    if step.outcome.Some? {
      Answered(step.reply, Delivery(step.outcome.value, step.assembly, rest, []));
    } else {
      Answered(step.reply, Deliver(client, limit, step.assembly, rest));
    }
  }

  lemma ParsedLonger(w: seq<byte>, limit: nat)
    requires ParseFrame(w, limit).Some?
    ensures |ParseFrame(w, limit).value.1| < |w|
  {
  }

  /** What a frame does, by its opcode. */
  lemma StepCases(client: bool, limit: nat, a: Assembly, f: Frame)
    ensures var whole := a.message + f.payload;
      HandleFrame(client, limit, a, f)
        == if !client && !f.masked then Step(Some(ProtocolError), a, None)
           else if f.opcode == 0x8 then Step(Some(ClosedByPeer), a, Some(Reply(0x8, f.payload)))
           else if f.opcode == 0x9 then Step(None, a, Some(Reply(0xA, f.payload)))
           else if f.opcode == 0xA then Step(None, a, None)
           else if f.opcode == 0x1 || f.opcode == 0x2 then
             if f.fin then Step(Some(Packet(f.payload)), a, None) else Step(None, Assembly(true, f.payload), None)
           else if f.opcode == 0x0 && a.fragmented && |whole| <= limit then
             if f.fin then Step(Some(Packet(whole)), Assembly(false, []), None)
             else Step(None, Assembly(true, whole), None)
           else Step(Some(ProtocolError), a, None)
  {
  }

  /** A reply goes before what is answered later. */
  lemma Answered(reply: Option<Reply>, d: Delivery)
    ensures reply.None? ==> Answering(reply, d) == d
    ensures reply.Some? ==> Answering(reply, d) == d.(replies := [reply.value] + d.replies)
    ensures reply.Some? && d.replies == [] ==> Answering(reply, d) == d.(replies := [reply.value])
  {
    if reply.Some? { assert [reply.value] + [] == [reply.value]; }
  }

  lemma ParsedEffect(client: bool, limit: nat, a: Assembly, w: seq<byte>, f: Frame, rest: seq<byte>)
    requires ParseFrame(w, limit) == Some((f, rest)) && |rest| < |w|
    ensures var step := HandleFrame(client, limit, a, f);
      Deliver(client, limit, a, w)
      == Answering(step.reply,
           if step.outcome.Some? then Delivery(step.outcome.value, step.assembly, rest, [])
           else Deliver(client, limit, step.assembly, rest))
  {
    hide ParseFrame, HandleFrame, Answering;
  }

  /** A frame that announces more than the limit is not read: receiving fails with nothing assembled or answered. */
  lemma OverLimitFails(client: bool, limit: nat, a: Assembly, fin: bool, opcode: nat, key: Option<seq<byte>>,
                       width: Width, payload: seq<byte>, rest: seq<byte>)
    requires opcode < 16 && width.Fits(|payload|) && (key.Some? ==> |key.value| == 4) && |payload| > limit
    ensures Deliver(client, limit, a, EncodeFrame(fin, opcode, key, width, payload) + rest)
      == Delivery(ReadFailed, a, [], [])
  {
    hide *;
    var w, n := EncodeFrame(fin, opcode, key, width, payload) + rest, |payload|;
    LengthReadsBack(width, n);
    HeadReadsBack(fin, opcode, key.Some?, width.Field(n));
    EncodeByParts(fin, opcode, key, width, payload, rest);
    var head, ext := Head(fin, opcode, key.Some?, width.Field(n)), BE(n, width.Extra());
    FrameParts(w, head, ext, MaskBytes(key), Masked(key, payload) + rest);
    HeaderTurnedAway(w, limit);
    NothingDelivered(client, limit, a, w);
  }

  lemma NothingDelivered(client: bool, limit: nat, a: Assembly, w: seq<byte>)
    requires ParseFrame(w, limit) == None
    ensures Deliver(client, limit, a, w) == Delivery(ReadFailed, a, [], [])
  {
    hide ParseFrame;
  }

  lemma HeaderTurnedAway(w: seq<byte>, limit: nat)
    requires |w| >= 2
    requires var extra := if w[1] % 128 == 126 then 2 else if w[1] % 128 == 127 then 8 else 0;
      |w| >= 2 + extra && (if extra == 0 then w[1] % 128 else FromBE(w[2..2 + extra])) > limit
    ensures ParseHeader(w, limit) == None && ParseFrame(w, limit) == None
  {
    hide FromBE;
  }

  // The masking keys.

  /** A client masks with the next state of its generator, low byte first, and keeps it; a server never masks. */
  lemma KeysOfClient(client: bool, seed: nat)
    ensures var next := (seed * 1664525 + 1013904223) % 4294967296;
      && SeedAfter(client, seed) == (if client then next else seed)
      && (!client ==> KeyOf(client, seed) == None)
      && (client ==> KeyOf(client, seed).Some? && |KeyOf(client, seed).value| == 4
                     && forall i: nat :: i < 4 ==> KeyOf(client, seed).value[i] == next / Pow256(i) % 256)
  {
    hide Pow256, LE;
    var next := NextSeed(seed);
    forall i: nat | i < 4 ensures LE(next, 4)[i] == next / Pow256(i) % 256 { LEValue(next, 4, i); }
  }

  /** What is sent takes the shortest length encoding that can hold it. */
  lemma ShortestWidth(n: nat, width: Width)
    requires n < Pow256(8)
    ensures WidthOf(n).Fits(n)
    ensures width.Fits(n) ==> LengthBytes(WidthOf(n)) <= LengthBytes(width)
  {
    Pow256Values();
  }

  // What is not looked at.

  /** The three reserved bits of the first byte make no difference. */
  lemma ReservedBits(fin: bool, reserved: nat, opcode: nat, rest: seq<byte>, limit: nat)
    requires reserved < 8 && opcode < 16
    ensures var flag := if fin then 128 else 0;
      ParseFrame([flag + 16 * reserved + opcode] + rest, limit) == ParseFrame([flag + opcode] + rest, limit)
  {
    var flag := if fin then 128 else 0;
    var v, w: seq<byte> := [flag + 16 * reserved + opcode] + rest, [flag + opcode] + rest;
    assert v[1..] == w[1..] == rest;
    ParseTail(v, w, limit);
  }

  lemma ParseTail(v: seq<byte>, w: seq<byte>, limit: nat)
    requires |v| == |w| >= 1 && v[1..] == w[1..] && v[0] / 128 == w[0] / 128 && v[0] % 16 == w[0] % 16
    ensures ParseFrame(v, limit) == ParseFrame(w, limit)
  {
    SameSlices(v, w);
    HeaderTail(v, w, limit);
    hide FromBE, Mask, ParseHeader;
  }

  lemma HeaderTail(v: seq<byte>, w: seq<byte>, limit: nat)
    requires |v| == |w| >= 1 && v[1..] == w[1..] && v[0] / 128 == w[0] / 128 && v[0] % 16 == w[0] % 16
    ensures ParseHeader(v, limit) == ParseHeader(w, limit)
  {
    hide FromBE;
    SameSlices(v, w);
  }

  lemma SameSlices(v: seq<byte>, w: seq<byte>)
    requires |v| == |w| >= 1 && v[1..] == w[1..]
    ensures forall i :: 1 <= i < |v| ==> v[i] == w[i]
    ensures forall i, j :: 1 <= i <= j <= |v| ==> v[i..j] == w[i..j]
    ensures forall i :: 1 <= i <= |v| ==> v[i..] == w[i..]
  {
    forall i | 1 <= i < |v| ensures v[i] == w[i] { assert v[1..][i - 1] == w[1..][i - 1]; }
  }
}
