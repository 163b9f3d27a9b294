/** What zero omission leaves out, and when it pays: stated on the values a packet carries. */
module Omission {
  import opened Wire
  import opened Bits
  import opened Schema
  import opened Dictionary
  import opened Codec
  import opened RuntimeOptimizer

  /** The number zero; of the two float zeros only the positive one has no bit set. */
  predicate IsZero(v: FieldValue) { v.Number? && v.n == 0 }

  function ZeroFlags(values: seq<FieldValue>): (flags: seq<bool>)
    ensures |flags| == |values|
  {
    seq(|values|, k requires 0 <= k < |values| => IsZero(values[k]))
  }

  /** The bytes that the zeros of the packet take. */
  function ZeroBytes(values: seq<FieldValue>): nat
  {
    if values == [] then 0
    else (if IsZero(values[0]) then values[0].ntype.Size() else 0) + ZeroBytes(values[1..])
  }

  function NonZero(values: seq<FieldValue>): seq<FieldValue>
  {
    if values == [] then [] else (if IsZero(values[0]) then [] else [values[0]]) + NonZero(values[1..])
  }

  /** A number in range has no byte set if and only if it is zero. */
  lemma {:induction false} ZeroOnWire(n: int, size: nat)
    requires -(Pow256(size) as int) < n < Pow256(size)
    ensures AllZero(LE(n, size)) <==> n == 0
    decreases size
  {
    if n == 0 { AllZeroOfZero(size); }
    if AllZero(LE(n, size)) {
      LERoundTrip(n, size);
      OmittedIsZeros(LE(n, size));
      LEOfZero(size);
      LERoundTrip(0, size);
      hide LE, FromLE, Pow256;
      assert LE(n, size) == LE(0, size);
    }
  }

  lemma {:induction false} LEOfZero(size: nat)
    ensures LE(0, size) == Zeros(size)
    decreases size
  {
    if size > 0 { LEOfZero(size - 1); }
  }

  lemma AllZeroOfZero(size: nat)
    ensures AllZero(LE(0, size))
  {
    LEOfZero(size);
    hide LE;
  }

  lemma CarriedZero(f: FieldDef, v: FieldValue)
    requires Carried(f, v) && v.Number?
    ensures AllZero(LE(v.n, v.ntype.Size())) <==> v.n == 0
    ensures v.ntype == f.ftype && !f.ftype.Variable()
  {
    Pow256Values();
    assert Pow256(v.ntype.Size()) == v.ntype.Modulus();
    ZeroOnWire(v.n, v.ntype.Size());
    hide LE, Pow256, AllZero;
  }

  /** The first value of a body: where it ends, and whether it is left out. */
  lemma FirstOmitted(f: FieldDef, dict: Dict, v: FieldValue, rest: seq<byte>)
    requires Carried(f, v)
    ensures var wire := EncodeValue(dict, v).0;
      && FieldSpan(f, false, wire + rest) == Some(|wire|)
      && (Omits(f, wire + rest) <==> IsZero(v))
      && (wire + rest)[..|wire|] == wire && (wire + rest)[|wire|..] == rest
  {
    var wire := EncodeValue(dict, v).0;
    EncodedSpan(f.(hasMax := false), dict, v, rest);
    SplitAt(wire + rest, wire, rest);
    hide LE;
    if v.Number? { CarriedZero(f, v); }
    hide AllZero;
  }

  lemma OmittedStep(fields: seq<FieldDef>, d: seq<byte>, n: nat)
    requires fields != [] && FieldSpan(fields[0], false, d) == Some(n)
    ensures Omitted(fields, d) == [Omits(fields[0], d)] + Omitted(fields[1..], d[n..])
    ensures Kept(fields, d) == (if Omits(fields[0], d) then [] else d[..n]) + Kept(fields[1..], d[n..])
  {
    hide FieldSpan, Omits;
  }

  lemma EmptyBody(fields: seq<FieldDef>, dict: Dict, values: seq<FieldValue>)
    requires fields == [] && values == []
    ensures EncodeValues(dict, values).0 == [] && EncodeValues(dict, NonZero(values)).0 == []
    ensures Omitted(fields, []) == [] == ZeroFlags(values) && Kept(fields, []) == []
    ensures Span(fields, false, []) == Some(0) && ZeroBytes(values) == 0
  {
  }

  lemma ValuesStep(values: seq<FieldValue>)
    requires values != []
    ensures ZeroFlags(values) == [IsZero(values[0])] + ZeroFlags(values[1..])
    ensures NonZero(values) == (if IsZero(values[0]) then [] else [values[0]]) + NonZero(values[1..])
    ensures ZeroBytes(values) == (if IsZero(values[0]) then values[0].ntype.Size() else 0) + ZeroBytes(values[1..])
  {
  }

  /** A number takes the bytes of its type and leaves the dictionary alone. */
  lemma NumberWire(f: FieldDef, dict: Dict, v: FieldValue)
    requires Carried(f, v) && v.Number?
    ensures EncodeValue(dict, v).1 == dict && |EncodeValue(dict, v).0| == v.ntype.Size()
  {
  }

  lemma NonZeroStep(dict: Dict, v: FieldValue, rest: seq<FieldValue>)
    requires IsZero(v) ==> EncodeValue(dict, v).1 == dict
    ensures var mid := EncodeValue(dict, v).1;
      EncodeValues(dict, (if IsZero(v) then [] else [v]) + rest).0
        == (if IsZero(v) then [] else EncodeValue(dict, v).0) + EncodeValues(mid, rest).0
  {
    hide EncodeValue;
    if IsZero(v) {
      assert [] + rest == rest && [] + EncodeValues(dict, rest).0 == EncodeValues(dict, rest).0;
    } else {
      EncodeUnfolds(dict, [v] + rest);
      assert ([v] + rest)[1..] == rest;
    }
  }

  /** The walk of the optimizer over an encoded body, value by value. */
  lemma {:induction false} WalkOfValues(fields: seq<FieldDef>, dict: Dict, values: seq<FieldValue>)
    requires AllCarried(fields, values)
    ensures var d := EncodeValues(dict, values).0;
      && Span(fields, false, d) == Some(|d|) && Omitted(fields, d) == ZeroFlags(values)
      && Kept(fields, d) == EncodeValues(dict, NonZero(values)).0
      && |Kept(fields, d)| + ZeroBytes(values) == |d|
    decreases |fields|
  {
    hide *;
    CarriedLength(fields, values);
    if fields == [] {
      EmptyBody(fields, dict, values);
    } else {
      CarriedFirst(fields, values);
      var v := values[0];
      var (wire, mid) := EncodeValue(dict, v);
      var rest := EncodeValues(mid, values[1..]).0;
      EncodeUnfolds(dict, values);
      WalkOfValues(fields[1..], mid, values[1..]);
      FirstOmitted(fields[0], dict, v, rest);
      OmittedStep(fields, wire + rest, |wire|);
      SpanUnfolds(fields, false, wire + rest, |wire|);
      ValuesStep(values);
      ZeroIsNumber(v);
      if v.Number? { NumberWire(fields[0], dict, v); }
      NonZeroStep(dict, v, NonZero(values[1..]));
    }
  }

  lemma ZeroIsNumber(v: FieldValue)
    ensures IsZero(v) ==> v.Number?
  {
  }

  /** The packet that zero omission would make. */
  lemma CompressedSize(schema: SchemaDef, dict: Dict, values: seq<FieldValue>)
    requires AllCarried(schema.fields, values) && |schema.fields| <= 2040
    ensures var p := LE(schema.messageId, 2) + EncodeValues(dict, values).0; var n := |schema.fields|;
      && |p| >= 2 && Span(schema.fields, false, p[2..]) == Some(|p| - 2)
      && |Compressed(schema.fields, p)| == 4 + BitmapSize(n) + (|p| - 2) - ZeroBytes(values)
      && Compressed(schema.fields, p)
         == p[..2] + [0xFD, BitmapSize(n)] + Pack(ZeroFlags(values)) + EncodeValues(dict, NonZero(values)).0
  {
    hide *;
    var d := EncodeValues(dict, values).0;
    var p := LE(schema.messageId, 2) + d;
    WalkOfValues(schema.fields, dict, values);
    SplitAt(p, LE(schema.messageId, 2), d);
    CompressedIs(schema.fields, p);
    MarkerIs();
  }

  lemma MarkerIs()
    ensures MARKER == 0xFD
  {
  }

  /**
   * Zero omission of a packet of any carried values, encoded with any dictionary. It is always accepted. It is applied
   * exactly when the zeros take more bytes than marker, size and bitmap add, and then the packet has exactly the
   * resulting size: id, marker, bitmap size, a bitmap whose bit k is set exactly if value k is the number zero, and the
   * encoding of the other values. Otherwise the packet stays as it is.
   */
  lemma OmissionExactly(schema: SchemaDef, dict: Dict, values: seq<FieldValue>)
    requires AllCarried(schema.fields, values) && |schema.fields| <= 2040
    ensures var n, z := |schema.fields|, ZeroBytes(values);
      var p := LE(schema.messageId, 2) + EncodeValues(dict, values).0;
      var r := Optimize(schema.fields, p);
      var size := 4 + BitmapSize(n) + (|p| - 2) - z;
      && r.ok && (r.applied <==> size < |p|) && (!r.applied ==> r.packet == p && r.saved == 0)
      && (r.applied ==>
            && |r.packet| == size && r.saved == (|p| - size) % 0x1_0000_0000_0000_0000
            && r.packet[..2] == p[..2] && r.packet[2] == 0xFD && r.packet[3] == BitmapSize(n)
            && r.packet[4 + BitmapSize(n)..] == EncodeValues(dict, NonZero(values)).0)
  {
    hide *;
    var n := |schema.fields|;
    var p := LE(schema.messageId, 2) + EncodeValues(dict, values).0;
    CompressedSize(schema, dict, values);
    OptimizeCases(schema.fields, p);
    CompressedIs(schema.fields, p);
    CarriedLength(schema.fields, values);
    FourParts(p[..2], [0xFD, BitmapSize(n)], Pack(ZeroFlags(values)), EncodeValues(dict, NonZero(values)).0);
    PackLength(ZeroFlags(values));
    ResultParts(p, Compressed(schema.fields, p));
  }

  lemma PackLength(flags: seq<bool>)
    ensures |Pack(flags)| == BitmapSize(|flags|)
  {
    hide Pack;
  }

  lemma ResultParts(p: seq<byte>, q: seq<byte>)
    ensures Unapplied(true, p) == Result(true, false, p, 0)
    ensures Applied(p, q) == Result(true, true, q, (|p| - |q|) % 0x1_0000_0000_0000_0000)
  {
  }

  /** Which fields an applied result omits, bit by bit. */
  lemma OmittedBits(schema: SchemaDef, dict: Dict, values: seq<FieldValue>, k: nat)
    requires AllCarried(schema.fields, values) && |schema.fields| <= 2040 && k < |values|
    requires Optimize(schema.fields, LE(schema.messageId, 2) + EncodeValues(dict, values).0).applied
    ensures var q := Optimize(schema.fields, LE(schema.messageId, 2) + EncodeValues(dict, values).0).packet;
      && 4 + k / 8 < |q| && Pow2(k % 8) > 0
      && (q[4 + k / 8] / Pow2(k % 8) % 2 == 1 <==> values[k].Number? && values[k].n == 0)
  {
    hide *;
    var p := LE(schema.messageId, 2) + EncodeValues(dict, values).0;
    var flags, kept := ZeroFlags(values), EncodeValues(dict, NonZero(values)).0;
    CompressedSize(schema, dict, values);
    OptimizeCases(schema.fields, p);
    CompressedIs(schema.fields, p);
    ResultParts(p, Compressed(schema.fields, p));
    FourParts(p[..2], [0xFD, BitmapSize(|schema.fields|)], Pack(flags), kept);
    FlagIs(values, k);
    PackValue(flags, k);
    var q := Compressed(schema.fields, p);
    assert q[4 + k / 8] == q[4..4 + |Pack(flags)|][k / 8];
  }

  lemma FlagIs(values: seq<FieldValue>, k: nat)
    requires k < |values|
    ensures |ZeroFlags(values)| == |values| && (ZeroFlags(values)[k] <==> values[k].Number? && values[k].n == 0)
  {
  }
}
