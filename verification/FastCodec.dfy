/** The schema-specialized codec: direct encoding, and decoding into views that borrow from the packet. */
module FastCodec {
  import opened Wire
  import opened Bits
  import opened Schema
  import opened Dictionary
  import opened Core
  import opened Codec
  import opened GeneralCodec
  import opened RuntimeOptimizer
  import opened Synchronizer
  import opened Recovery

  datatype Code = Good | WrongCount | WrongType | PacketTooSmall | IdMismatch | UnsupportedEnvelope
    | DecodeTruncated | ReferenceMiss | InsufficientStorage

  /** A decoded field: a number, a view into the packet, or a string owned because a reference was resolved. */
  datatype FastField =
    Numeric(t: FieldType, n: int) | View(t: FieldType, start: nat, size: nat) | Owned(text: seq<byte>)

  /** The value a field stands for while its packet is alive. */
  function Meaning(packet: seq<byte>, field: FastField): FieldValue
  {
    match field
    case Numeric(t, n) => Number(t, n)
    case Owned(text) => Text(text)
    case View(t, start, size) =>
      var body := if start + size <= |packet| then packet[start..start + size] else [];
      if t.String? then Text(body) else Blob(body)
  }

  /** The dictionary as the fast path uses it: it looks references up and stores nothing. */
  function Frozen(dict: Dict): Dict { dict.(config := dict.config.(enabled := false)) }

  datatype Outcome = Done(values: seq<FieldValue>) | Failed(code: Code)

  function Before(v: FieldValue, rest: Outcome): Outcome
  {
    match rest case Failed(code) => Failed(code) case Done(values) => Done([v] + values)
  }

  /** The fast decode of a body whose flagged fixed fields are omitted; trailing bytes are an error. */
  function FastValues(fields: seq<FieldDef>, flags: seq<bool>, dict: Dict, d: seq<byte>): (r: Outcome)
    requires |flags| == |fields|
    ensures r.Done? ==> |r.values| == |fields|
  {
    if fields == [] then if d == [] then Done([]) else Failed(DecodeTruncated)
    else if !fields[0].ftype.Variable() && flags[0] then
      Before(Number(fields[0].ftype, 0), FastValues(fields[1..], flags[1..], dict, d))
    else
      match DecodeField(fields[0], Frozen(dict), d)
      case Truncated => Failed(DecodeTruncated)
      case Missing => Failed(ReferenceMiss)
      case Read(v, used, _) => Before(v, FastValues(fields[1..], flags[1..], dict, d[used..]))
  }

  function PlainValuesOf(schema: SchemaDef, dict: Dict, p: seq<byte>): Outcome
  {
    if |p| < 2 then Failed(DecodeTruncated)
    else FastValues(schema.fields, NoneOmitted(|schema.fields|), dict, p[2..])
  }

  function OptimizedValuesOf(schema: SchemaDef, dict: Dict, p: seq<byte>): Outcome
  {
    if |p| < 4 || p[3] != BitmapSize(|schema.fields|) || |p| < 4 + p[3] as int then Failed(DecodeTruncated)
    else FastValues(schema.fields, Flags(p[4..], |schema.fields|), dict, p[4 + p[3] as int..])
  }

  // Omission and decoding commute.

  lemma FastOmitted(fields: seq<FieldDef>, flags: seq<bool>, dict: Dict, d: seq<byte>)
    requires fields != [] && |flags| == |fields| && !fields[0].ftype.Variable() && flags[0]
    ensures FastValues(fields, flags, dict, d)
      == Before(Number(fields[0].ftype, 0), FastValues(fields[1..], flags[1..], dict, d))
  {
  }

  lemma FastKept(fields: seq<FieldDef>, flags: seq<bool>, dict: Dict, wire: seq<byte>, tail: seq<byte>, v: FieldValue)
    requires fields != [] && |flags| == |fields| && (fields[0].ftype.Variable() || !flags[0])
    requires DecodeField(fields[0], Frozen(dict), wire + tail) == Read(v, |wire|, Frozen(dict))
    ensures FastValues(fields, flags, dict, wire + tail) == Before(v, FastValues(fields[1..], flags[1..], dict, tail))
  {
    hide DecodeField;
    SplitAt(wire + tail, wire, tail);
  }

  lemma FastStops(fields: seq<FieldDef>, flags: seq<bool>, dict: Dict, d: seq<byte>)
    requires fields != [] && |flags| == |fields| && (fields[0].ftype.Variable() || !flags[0])
    requires !DecodeField(fields[0], Frozen(dict), d).Read?
    ensures FastValues(fields, flags, dict, d).Failed?
  {
    hide DecodeField;
  }

  /** Decoding one field without storing: truncated exactly when it has no span, and blind to what follows the span. */
  lemma FieldReadSpan(f: FieldDef, dict: Dict, d: seq<byte>)
    ensures DecodeField(f, Frozen(dict), d).Truncated? <==> FieldSpan(f, false, d).None?
    ensures DecodeField(f, Frozen(dict), d).Read? ==>
      && DecodeField(f, Frozen(dict), d).used == FieldSpan(f, false, d).value
      && DecodeField(f, Frozen(dict), d).dict == Frozen(dict)
  {
    hide FromLE, FieldType.Cast;
  }

  lemma FieldReadLocal(f: FieldDef, dict: Dict, wire: seq<byte>, tail: seq<byte>, other: seq<byte>)
    requires FieldSpan(f, false, wire + tail) == Some(|wire|)
    ensures DecodeField(f, Frozen(dict), wire + other) == DecodeField(f, Frozen(dict), wire + tail)
  {
    hide FromLE, FieldType.Cast;
    if !f.ftype.Variable() {
      SplitAt(wire + tail, wire, tail);
      SplitAt(wire + other, wire, other);
    } else {
      var a, b := wire + tail, wire + other;
      assert Word(a) == Word(b);
      if f.ftype.String? && Word(a) == REFERENCE {
        assert Word(a[2..]) == Word(b[2..]);
      } else {
        assert a[2..2 + Word(a)] == wire[2..] == b[2..2 + Word(a)];
      }
    }
  }

  lemma {:induction false} ZerosAreZero(n: nat)
    ensures FromLE(Zeros(n)) == 0
  {
    if n > 0 {
      ZerosAreZero(n - 1);
      assert Zeros(n)[1..] == Zeros(n - 1);
    }
  }

  lemma ZeroFieldReads(f: FieldDef, dict: Dict, rest: seq<byte>)
    requires !f.ftype.Variable()
    ensures DecodeField(f, Frozen(dict), Zeros(f.ftype.Size()) + rest)
      == Read(Number(f.ftype, 0), |Zeros(f.ftype.Size())|, Frozen(dict))
  {
    var z := Zeros(f.ftype.Size());
    SplitAt(z + rest, z, rest);
    ZerosAreZero(f.ftype.Size());
    assert f.ftype.Holds(0);
  }

  /** Restoring the body first and decoding the plain result. */
  function SlowValues(fields: seq<FieldDef>, flags: seq<bool>, dict: Dict, d: seq<byte>): Outcome
    requires |flags| == |fields|
  {
    match Restore(fields, flags, d)
    case None => Failed(DecodeTruncated)
    case Some((body, rest)) =>
      if rest != [] then Failed(DecodeTruncated) else FastValues(fields, NoneOmitted(|fields|), dict, body)
  }

  lemma NoneOmittedTail(n: nat)
    requires n > 0
    ensures NoneOmitted(n)[1..] == NoneOmitted(n - 1)
  {
  }

  lemma SlowOmitted(fields: seq<FieldDef>, flags: seq<bool>, dict: Dict, d: seq<byte>)
    requires fields != [] && |flags| == |fields| && !fields[0].ftype.Variable() && flags[0]
    ensures SlowValues(fields, flags, dict, d)
      == Before(Number(fields[0].ftype, 0), SlowValues(fields[1..], flags[1..], dict, d))
  {
    hide FastValues, DecodeField, Restore;
    RestoreOmitted(fields, flags, d);
    NoneOmittedTail(|fields|);
    var rest := Restore(fields[1..], flags[1..], d);
    if rest.Some? {
      ZeroFieldReads(fields[0], dict, rest.value.0);
      FastKept(fields, NoneOmitted(|fields|), dict, Zeros(fields[0].ftype.Size()), rest.value.0,
        Number(fields[0].ftype, 0));
    }
  }

  lemma SlowKept(fields: seq<FieldDef>, flags: seq<bool>, dict: Dict, wire: seq<byte>, tail: seq<byte>, v: FieldValue)
    requires fields != [] && |flags| == |fields| && (fields[0].ftype.Variable() || !flags[0])
    requires FieldSpan(fields[0], false, wire + tail) == Some(|wire|)
    requires DecodeField(fields[0], Frozen(dict), wire + tail) == Read(v, |wire|, Frozen(dict))
    ensures SlowValues(fields, flags, dict, wire + tail) == Before(v, SlowValues(fields[1..], flags[1..], dict, tail))
  {
    hide FastValues, DecodeField, Restore, FieldSpan;
    RestoreKept(fields, flags, wire, tail);
    NoneOmittedTail(|fields|);
    var rest := Restore(fields[1..], flags[1..], tail);
    if rest.Some? {
      FieldReadLocal(fields[0], dict, wire, tail, rest.value.0);
      FastKept(fields, NoneOmitted(|fields|), dict, wire, rest.value.0, v);
    }
  }

  lemma SlowStops(fields: seq<FieldDef>, flags: seq<bool>, dict: Dict, d: seq<byte>)
    requires fields != [] && |flags| == |fields| && (fields[0].ftype.Variable() || !flags[0])
    requires !DecodeField(fields[0], Frozen(dict), d).Read?
    ensures SlowValues(fields, flags, dict, d).Failed?
  {
    FieldReadSpan(fields[0], dict, d);
    if FieldSpan(fields[0], false, d).Some? {
      var k := FieldSpan(fields[0], false, d).value;
      JoinAt(d, k);
      hide DecodeField, FieldSpan, FastValues;
      RestoreKept(fields, flags, d[..k], d[k..]);
      var rest := Restore(fields[1..], flags[1..], d[k..]);
      hide Restore;
      if rest.Some? {
        FieldReadLocal(fields[0], dict, d[..k], d[k..], rest.value.0);
        FastStops(fields, NoneOmitted(|fields|), dict, d[..k] + rest.value.0);
      }
    }
  }

  /** Both succeed with the same values, or both fail. */
  predicate Agree(a: Outcome, b: Outcome) { (a.Done? <==> b.Done?) && (a.Done? ==> a == b) }

  lemma {:induction false} FastIsSlow(fields: seq<FieldDef>, flags: seq<bool>, dict: Dict, d: seq<byte>)
    requires |flags| == |fields|
    ensures Agree(FastValues(fields, flags, dict, d), SlowValues(fields, flags, dict, d))
    decreases |fields|
  {
    if fields != [] {
      hide FastValues, SlowValues, DecodeField, FieldSpan;
      if !fields[0].ftype.Variable() && flags[0] {
        FastOmitted(fields, flags, dict, d);
        SlowOmitted(fields, flags, dict, d);
        FastIsSlow(fields[1..], flags[1..], dict, d);
      } else {
        match DecodeField(fields[0], Frozen(dict), d)
        case Truncated => FastStops(fields, flags, dict, d); SlowStops(fields, flags, dict, d);
        case Missing => FastStops(fields, flags, dict, d); SlowStops(fields, flags, dict, d);
        case Read(v, used, _) =>
          FieldReadSpan(fields[0], dict, d);
          ReadFits(fields[0], dict, d);
          var wire, tail := d[..used], d[used..];
          JoinAt(d, used);
          FastKept(fields, flags, dict, wire, tail, v);
          SlowKept(fields, flags, dict, wire, tail, v);
          FastIsSlow(fields[1..], flags[1..], dict, tail);
      }
    }
  }

  lemma ReadFits(f: FieldDef, dict: Dict, d: seq<byte>)
    requires DecodeField(f, Frozen(dict), d).Read?
    ensures DecodeField(f, Frozen(dict), d).used <= |d|
  {
  }

  /**
   * The fast path refines the slow one: decoding an optimized packet in place succeeds exactly when restoring it and
   * decoding the plain result does, and gives the same values, resolved references included.
   */
  lemma OptimizedDecodeRefines(schema: SchemaDef, dict: Dict, p: seq<byte>)
    requires IsOptimized(p)
    ensures var restored := Deoptimize(schema.fields, p);
      Agree(OptimizedValuesOf(schema, dict, p),
            if restored.ok then PlainValuesOf(schema, dict, restored.packet) else Failed(DecodeTruncated))
  {
    if |p| >= 4 && p[3] == BitmapSize(|schema.fields|) && |p| >= 4 + p[3] as int {
      var bitmap, d := MakeFrame(schema, p);
      var flags := Flags(bitmap, |schema.fields|);
      MeasureFramed(schema, p, bitmap, d);
      FramedParts(schema, p, bitmap, d);
      hide Framed, FastValues, Restore, Flags, Deoptimize, MeasureOptimized;
      FastIsSlow(schema.fields, flags, dict, d);
      match Restore(schema.fields, flags, d)
      case None =>
      case Some((body, rest)) => assert (p[..2] + body)[2..] == body;
    }
  }

  // Against the general decoder.

  lemma {:induction false} PlainIsGeneral(fields: seq<FieldDef>, dict: Dict, d: seq<byte>)
    ensures var r := DecodeValues(fields, Frozen(dict), d);
      var fast := FastValues(fields, NoneOmitted(|fields|), dict, d);
      fast == if r.ending.UnknownReference? then Failed(ReferenceMiss)
              else if r.ending.Complete? && r.rest == [] then Done(r.values) else Failed(DecodeTruncated)
    decreases |fields|
  {
    if fields != [] {
      NoneOmittedTail(|fields|);
      var one := DecodeField(fields[0], Frozen(dict), d);
      FieldReadSpan(fields[0], dict, d);
      hide DecodeField, FieldSpan;
      if one.Read? { PlainIsGeneral(fields[1..], dict, d[one.used..]); }
    }
  }

  /**
   * Encoding: whenever both accept, the fast encoder writes what the general one writes with dictionary and zero
   * omission off; and the general one accepts exactly the values the fast one accepts that keep the length limits.
   */
  lemma FastEncodeIsGeneral(schema: SchemaDef, dict: Dict, values: seq<FieldValue>)
    requires !dict.config.Active()
    ensures LE(schema.messageId, 2) + EncodeValues(dict, values).0 == PlainPacket(schema, values)
    ensures Validated(schema.fields, values) <==>
      Typed(schema.fields, values) && forall i :: 0 <= i < |values| ==> WithinLimit(schema.fields[i], values[i])
  {
    EncodeInactive(dict, values);
  }

  /** What the fast encoder accepts. */
  predicate Typed(fields: seq<FieldDef>, values: seq<FieldValue>)
  {
    |values| == |fields| && forall i :: 0 <= i < |fields| ==> values[i].Type() == fields[i].ftype
  }

  /**
   * Where the paths part: the fast path stores no strings, so a packet that names a string and refers back to it
   * decodes on the general path and misses on the fast one.
   */
  lemma BackReferenceMisses(text: seq<byte>)
    requires |text| <= 65534
    ensures var fields := [FieldDef("a", String, false, 0), FieldDef("b", String, false, 0)];
      var dict := Empty(Config(true, true, 256));
      var wire := EncodeValues(dict, [Text(text), Text(text)]).0;
      && DecodeValues(fields, dict, wire).ending.Complete?
      && FastValues(fields, NoneOmitted(2), dict, wire) == Failed(ReferenceMiss)
  {
    var fields := [FieldDef("a", String, false, 0), FieldDef("b", String, false, 0)];
    var dict := Empty(Config(true, true, 256));
    var values := [Text(text), Text(text)];
    var wire := EncodeValues(dict, values).0;
    assert dict.Inv();
    Lockstep(fields, dict, values, []);
    assert wire + [] == wire;
    BackReferenceWire(dict, text);
    var first, second := LE(|text|, 2) + text, LE(REFERENCE, 2) + LE(1, 2);
    ReadsBack(fields[0], Frozen(dict), Text(text), second);
    hide DecodeField, EncodeValues, DecodeValues;
    NoneOmittedTail(2);
    FastKept(fields, NoneOmitted(2), dict, first, second, Text(text));
    SecondMisses(fields[1], dict);
    assert fields[1..] == [fields[1]];
  }

  lemma BackReferenceWire(dict: Dict, text: seq<byte>)
    requires dict == Empty(Config(true, true, 256))
    ensures EncodeValues(dict, [Text(text), Text(text)]).0 == LE(|text|, 2) + text + (LE(REFERENCE, 2) + LE(1, 2))
  {
    var values := [Text(text), Text(text)];
    assert values[1..] == [Text(text)] && values[1..][1..] == [];
    var mid := EncodeValue(dict, values[0]).1;
    assert mid.idOf[text] == 1;
    assert EncodeValues(mid, values[1..]).0 == LE(REFERENCE, 2) + LE(1, 2) + [];
  }

  lemma SecondMisses(f: FieldDef, dict: Dict)
    requires f.ftype.String? && dict.valueOf == map[]
    ensures DecodeField(f, Frozen(dict), LE(REFERENCE, 2) + LE(1, 2)) == Missing
  {
    WordRoundTrip(REFERENCE, LE(1, 2));
  }

  /** Every reference the encoder writes names a string `start` already holds under that id. */
  predicate OnlyOldReferences(start: Dict, dict: Dict, values: seq<FieldValue>)
    decreases |values|
  {
    values == [] ||
    ((GoesByReference(dict, values[0]) ==> start.LookupValue(dict.idOf[values[0].text]) == Some(values[0].text))
     && OnlyOldReferences(start, EncodeValue(dict, values[0]).1, values[1..]))
  }

  /** One encoded value on the fast path. */
  lemma FastOnOne(f: FieldDef, start: Dict, dict: Dict, v: FieldValue, suffix: seq<byte>)
    requires Carried(f, v) && dict.Inv()
    ensures var (wire, next) := EncodeValue(dict, v);
      next.Inv() &&
      DecodeField(f, Frozen(start), wire + suffix)
      == if GoesByReference(dict, v) then
           (match start.LookupValue(dict.idOf[v.text])
            case None => Missing
            case Some(t) => Read(Text(t), 4, Frozen(start)))
         else Read(v, |wire|, Frozen(start))
  {
    EncodedReadsBack(f, dict, v, suffix);
    if GoesByReference(dict, v) {
      ReferenceReads(f, Frozen(start), dict.idOf[v.text], suffix);
    } else {
      ReadsBack(f, Frozen(start), v, suffix);
    }
  }

  /**
   * A sender's packet decodes on the fast path to what was sent exactly when the receiver's dictionary held every
   * referenced string before the packet arrived.
   */
  lemma {:induction false} FastOnSent(fields: seq<FieldDef>, start: Dict, dict: Dict, values: seq<FieldValue>)
    requires AllCarried(fields, values) && dict.Inv()
    ensures FastValues(fields, NoneOmitted(|fields|), start, EncodeValues(dict, values).0) == Done(values)
      <==> OnlyOldReferences(start, dict, values)
    decreases |fields|
  {
    if fields == [] {
      assert EncodeValues(dict, values).0 == [];
    } else {
      var (wire, mid) := EncodeValue(dict, values[0]);
      var rest := EncodeValues(mid, values[1..]).0;
      assert EncodeValues(dict, values).0 == wire + rest;
      FastOnOne(fields[0], start, dict, values[0], rest);
      ReferenceWire(dict, values[0]);
      assert AllCarried(fields[1..], values[1..]);
      NoneOmittedTail(|fields|);
      hide FastValues, DecodeField, EncodeValue, EncodeValues, Dict.Inv, AllCarried;
      FastOnSent(fields[1..], start, mid, values[1..]);
      FirstDone(fields, start, wire, rest, values);
    }
  }

  /** What the fast path makes of a packet, optimized or not. */
  function DecodedValues(schema: SchemaDef, dict: Dict, p: seq<byte>): Outcome
  {
    if IsOptimized(p) then OptimizedValuesOf(schema, dict, p) else PlainValuesOf(schema, dict, p)
  }

  /** The same for the packet a sender emits, zero omission included. */
  lemma FastOnSentPacket(schema: SchemaDef, start: Dict, dict: Dict, values: seq<FieldValue>)
    requires AllCarried(schema.fields, values) && Validated(schema.fields, values) && dict.Inv()
    requires |schema.fields| <= 2040
    requires var wire := EncodeValues(dict, values).0; wire == [] || wire[0] != MARKER
    ensures var packet := LE(schema.messageId, 2) + EncodeValues(dict, values).0;
      var sent := Optimize(schema.fields, packet).packet;
      && (DecodedValues(schema, start, packet) == Done(values) <==> OnlyOldReferences(start, dict, values))
      && (DecodedValues(schema, start, sent) == Done(values) <==> OnlyOldReferences(start, dict, values))
  {
    hide *;
    var wire := EncodeValues(dict, values).0;
    var packet := LE(schema.messageId, 2) + wire;
    EncodedSpans(schema.fields, dict, values);
    SpanUnlimited(schema.fields, wire);
    FastOnSent(schema.fields, start, dict, values);
    ClearBody(schema, wire);
    PlainDecoded(schema, start, packet);
    ZeroOmissionRestores(schema.fields, packet);
    var q := Optimize(schema.fields, packet);
    if q.applied {
      OptimizedDecodeRefines(schema, start, q.packet);
      OptimizedDecoded(schema, start, q.packet);
      RestoredParts(schema, q.packet, packet);
      AgreeOnDone(OptimizedValuesOf(schema, start, q.packet), PlainValuesOf(schema, start, packet));
    }
  }

  lemma ClearBody(schema: SchemaDef, wire: seq<byte>)
    requires wire == [] || wire[0] != MARKER
    ensures var packet := LE(schema.messageId, 2) + wire;
      |packet| == 2 + |wire| && packet[2..] == wire && !IsOptimized(packet)
  {
  }

  lemma PlainDecoded(schema: SchemaDef, start: Dict, p: seq<byte>)
    requires |p| >= 2 && !IsOptimized(p)
    ensures DecodedValues(schema, start, p) == PlainValuesOf(schema, start, p)
    ensures PlainValuesOf(schema, start, p) == FastValues(schema.fields, NoneOmitted(|schema.fields|), start, p[2..])
  {
  }

  lemma OptimizedDecoded(schema: SchemaDef, start: Dict, p: seq<byte>)
    requires IsOptimized(p)
    ensures DecodedValues(schema, start, p) == OptimizedValuesOf(schema, start, p)
  {
  }

  lemma RestoredParts(schema: SchemaDef, p: seq<byte>, packet: seq<byte>)
    requires Deoptimize(schema.fields, p) == Applied(p, packet)
    ensures Deoptimize(schema.fields, p).ok && Deoptimize(schema.fields, p).packet == packet
  {
    hide Deoptimize;
  }

  lemma AgreeOnDone(a: Outcome, b: Outcome)
    requires Agree(a, b)
    ensures forall values :: a == Done(values) <==> b == Done(values)
  {
  }

  lemma ReferenceWire(dict: Dict, v: FieldValue)
    ensures GoesByReference(dict, v) ==> |EncodeValue(dict, v).0| == 4
  {
  }

  lemma FirstDone(fields: seq<FieldDef>, start: Dict, wire: seq<byte>, rest: seq<byte>, values: seq<FieldValue>)
    requires fields != [] && |values| == |fields|
    requires var one := DecodeField(fields[0], Frozen(start), wire + rest);
      one.Missing? || (one.Read? && one.used == |wire| && one.dict == Frozen(start))
    ensures var one := DecodeField(fields[0], Frozen(start), wire + rest);
      FastValues(fields, NoneOmitted(|fields|), start, wire + rest) == Done(values)
      <==> one.Read? && one.value == values[0]
           && FastValues(fields[1..], NoneOmitted(|fields[1..]|), start, rest) == Done(values[1..])
  {
    NoneOmittedTail(|fields|);
    var one := DecodeField(fields[0], Frozen(start), wire + rest);
    hide DecodeField;
    if one.Read? {
      FastKept(fields, NoneOmitted(|fields|), start, wire, rest, one.value);
      hide FastValues;
      var later := FastValues(fields[1..], NoneOmitted(|fields[1..]|), start, rest);
      assert later.Done? ==> ([one.value] + later.values)[1..] == later.values;
      assert values == [values[0]] + values[1..];
    } else {
      FastStops(fields, NoneOmitted(|fields|), start, wire + rest);
    }
  }

  // The methods.

  method Encode(schema: SchemaDef, values: seq<FieldValue>) returns (code: Code, out: seq<byte>)
    ensures code == Good <==> Typed(schema.fields, values)
    ensures code == WrongCount <==> |values| != |schema.fields|
    ensures code == Good ==> out == PlainPacket(schema, values)
  {
    out := [];
    if |values| != |schema.fields| { return WrongCount, out; }
    for i := 0 to |values|
      invariant forall k :: 0 <= k < i ==> values[k].Type() == schema.fields[k].ftype
    {
      if values[i].Type() != schema.fields[i].ftype { return WrongType, out; }
    }
    var encoder := new Encoder();
    encoder.WriteInt(schema.messageId, 2);
    assert values[0..] == values;
    assert encoder.buffer == LE(schema.messageId, 2);
    for i := 0 to |values|
      invariant encoder.buffer + PlainValues(values[i..]) == PlainPacket(schema, values)
    {
      assert values[i..][1..] == values[i + 1..];
      Assoc(encoder.buffer, PlainValue(values[i]), PlainValues(values[i + 1..]));
      hide *;
      WriteFullField(encoder, values[i]);
    }
    assert encoder.buffer + [] == encoder.buffer;
    return Good, encoder.buffer;
  }

  /** Reads one field into a slot. Strings and blobs are borrowed: only their position is kept. */
  method ReadFast(reader: PacketReader, f: FieldDef, dictionary: AdaptiveDictionary)
    returns (code: Code, slot: FastField)
    requires reader.Valid()
    modifies reader
    ensures reader.Valid()
    ensures match DecodeField(f, Frozen(dictionary.State()), old(reader.Rest()))
      case Truncated => code == DecodeTruncated
      case Missing => code == ReferenceMiss
      case Read(v, used, _) =>
        code == Good && Meaning(reader.buffer, slot) == v && reader.Rest() == old(reader.Rest())[used..]
  {
    slot := Owned([]);
    ghost var d, at := reader.Rest(), reader.cursor;
    if !f.ftype.Variable() {
      var raw := reader.ReadUnsigned(f.ftype.Size());
      if raw.None? { return DecodeTruncated, slot; }
      return Good, Numeric(f.ftype, f.ftype.Cast(raw.value));
    }
    var size := reader.ReadWord();
    if size.None? { return DecodeTruncated, slot; }
    if f.ftype.String? && size.value == REFERENCE {
      var id := reader.ReadWord();
      if id.None? { return DecodeTruncated, slot; }
      assert reader.Rest() == d[4..];
      var looked := dictionary.LookupValue(id.value);
      if looked.None? { return ReferenceMiss, slot; }
      return Good, Owned(looked.value);
    }
    var start := reader.cursor;
    assert start == at + 2;
    var ok := reader.Skip(size.value);
    if !ok { return DecodeTruncated, slot; }
    assert reader.Rest() == d[2 + Word(d)..];
    hide Word;
    SliceAfterDrop(reader.buffer, at, 2, 2 + Word(d));
    return Good, View(f.ftype, start, size.value);
  }

  function Onto(done: seq<FieldValue>, rest: Outcome): Outcome
  {
    match rest case Failed(code) => Failed(code) case Done(values) => Done(done + values)
  }

  /** What is still to decode, after the values already in the slots. */
  ghost predicate Filling(fields: seq<FieldDef>, flags: seq<bool>, dict: Dict, whole: Outcome, i: nat,
                          done: seq<FieldValue>, rest: seq<byte>)
    requires |flags| == |fields| && i <= |fields|
  {
    |done| == i && whole == Onto(done, FastValues(fields[i..], flags[i..], dict, rest))
  }

  lemma FillingStep(fields: seq<FieldDef>, flags: seq<bool>, dict: Dict, whole: Outcome, i: nat,
                    done: seq<FieldValue>, d: seq<byte>)
    requires |flags| == |fields| && i < |fields| && Filling(fields, flags, dict, whole, i, done, d)
    ensures !fields[i].ftype.Variable() && flags[i] ==>
      Filling(fields, flags, dict, whole, i + 1, done + [Number(fields[i].ftype, 0)], d)
    ensures fields[i].ftype.Variable() || !flags[i] ==>
      match DecodeField(fields[i], Frozen(dict), d)
      case Truncated => whole == Failed(DecodeTruncated)
      case Missing => whole == Failed(ReferenceMiss)
      case Read(v, used, _) => Filling(fields, flags, dict, whole, i + 1, done + [v], d[used..])
  {
    assert fields[i..][1..] == fields[i + 1..] && flags[i..][1..] == flags[i + 1..];
    var one := DecodeField(fields[i], Frozen(dict), d);
    hide DecodeField;
    if !fields[i].ftype.Variable() && flags[i] {
      OntoBefore(done, Number(fields[i].ftype, 0), FastValues(fields[i + 1..], flags[i + 1..], dict, d));
    } else if one.Read? {
      OntoBefore(done, one.value, FastValues(fields[i + 1..], flags[i + 1..], dict, d[one.used..]));
    }
  }

  lemma OntoBefore(done: seq<FieldValue>, v: FieldValue, rest: Outcome)
    ensures Onto(done, Before(v, rest)) == Onto(done + [v], rest)
  {
    if rest.Done? { assert done + ([v] + rest.values) == done + [v] + rest.values; }
  }

  lemma FillingEnds(fields: seq<FieldDef>, flags: seq<bool>, dict: Dict, whole: Outcome, done: seq<FieldValue>,
                    rest: seq<byte>)
    requires |flags| == |fields|
    ensures Filling(fields, flags, dict, FastValues(fields, flags, dict, rest), 0, [], rest)
    ensures Filling(fields, flags, dict, whole, |fields|, done, rest) ==>
      whole == if rest == [] then Done(done) else Failed(DecodeTruncated)
  {
    assert fields[0..] == fields && flags[0..] == flags;
    var r := FastValues(fields, flags, dict, rest);
    if r.Done? { assert [] + r.values == r.values; }
    assert done + [] == done;
  }

  /** The first slots hold these values, and the others are as they were. */
  ghost predicate Filled(before: seq<FastField>, after: seq<FastField>, packet: seq<byte>, values: seq<FieldValue>)
  {
    && |values| <= |before| == |after| && after[|values|..] == before[|values|..]
    && forall k :: 0 <= k < |values| ==> Meaning(packet, after[k]) == values[k]
  }

  lemma FilledStep(before: seq<FastField>, after: seq<FastField>, packet: seq<byte>, values: seq<FieldValue>,
                   slot: FastField)
    requires Filled(before, after, packet, values) && |values| < |after|
    ensures Filled(before, after[|values| := slot], packet, values + [Meaning(packet, slot)])
  {
    hide Meaning;
  }

  /** The loop over the fields, filling the caller's slots. */
  method FillSlots(schema: SchemaDef, flags: seq<bool>, reader: PacketReader, dictionary: AdaptiveDictionary,
                   slots: array<FastField>)
    returns (code: Code)
    requires reader.Valid() && |flags| == |schema.fields| <= slots.Length
    modifies reader, slots
    ensures match FastValues(schema.fields, flags, old(dictionary.State()), old(reader.Rest()))
      case Failed(c) => code == c
      case Done(values) => code == Good && Filled(old(slots[..]), slots[..], reader.buffer, values)
  {
    var fields := schema.fields;
    ghost var dict, values: seq<FieldValue> := dictionary.State(), [];
    ghost var whole := FastValues(fields, flags, dict, reader.Rest());
    FillingEnds(fields, flags, dict, whole, [], reader.Rest());
    for i := 0 to |fields|
      invariant reader.Valid() && dictionary.State() == dict && |values| == i
      invariant Filled(old(slots[..]), slots[..], reader.buffer, values)
      invariant Filling(fields, flags, dict, whole, i, values, reader.Rest())
    {
      FillingStep(fields, flags, dict, whole, i, values, reader.Rest());
      hide Filling, FastValues, DecodeField, Meaning, Filled;
      var one, slot := Good, Numeric(fields[i].ftype, 0);
      if !fields[i].ftype.Variable() && flags[i] {
        ZeroMeans(reader.buffer, fields[i].ftype);
        values := values + [Number(fields[i].ftype, 0)];
      } else {
        one, slot := ReadFast(reader, fields[i], dictionary);
        if one != Good { return one; }
        values := values + [Meaning(reader.buffer, slot)];
      }
      FilledStep(old(slots[..]), slots[..], reader.buffer, values[..i], slot);
      assert values == values[..i] + [Meaning(reader.buffer, slot)];
      slots[i] := slot;
    }
    FillingEnds(fields, flags, dict, whole, values, reader.Rest());
    hide Filling, FastValues, Meaning;
    var empty := reader.AtEnd();
    return if empty then Good else DecodeTruncated;
  }

  lemma ZeroMeans(packet: seq<byte>, t: FieldType)
    ensures Meaning(packet, Numeric(t, 0)) == Number(t, 0)
  {
  }

  method DecodePlain(schema: SchemaDef, packet: seq<byte>, slots: array<FastField>, dictionary: AdaptiveDictionary)
    returns (code: Code)
    requires |schema.fields| <= slots.Length
    modifies slots
    ensures match PlainValuesOf(schema, old(dictionary.State()), packet)
      case Failed(c) => code == c
      case Done(values) => code == Good && Filled(old(slots[..]), slots[..], packet, values)
  {
    var reader := new PacketReader(packet);
    var ok := reader.Skip(2);
    if !ok { return DecodeTruncated; }
    PlainBody(schema, dictionary.State(), packet);
    hide PlainValuesOf, FastValues, Meaning, Filled, NoneOmitted;
    code := FillSlots(schema, NoneOmitted(|schema.fields|), reader, dictionary, slots);
  }

  lemma PlainBody(schema: SchemaDef, dict: Dict, p: seq<byte>)
    requires |p| >= 2
    ensures PlainValuesOf(schema, dict, p) == FastValues(schema.fields, NoneOmitted(|schema.fields|), dict, p[2..])
  {
  }

  lemma OptimizedBody(schema: SchemaDef, dict: Dict, p: seq<byte>, size: nat)
    requires |p| >= 4 && p[3] == BitmapSize(|schema.fields|) == size && |p| >= 4 + size
    ensures OptimizedValuesOf(schema, dict, p)
      == FastValues(schema.fields, Flags(p[4..], |schema.fields|), dict, p[4 + size..])
  {
  }

  method DecodeOptimized(schema: SchemaDef, packet: seq<byte>, slots: array<FastField>, dictionary: AdaptiveDictionary)
    returns (code: Code)
    requires |schema.fields| <= slots.Length
    modifies slots
    ensures match OptimizedValuesOf(schema, old(dictionary.State()), packet)
      case Failed(c) => code == c
      case Done(values) => code == Good && Filled(old(slots[..]), slots[..], packet, values)
  {
    hide FastValues, Meaning, Filled, Flags;
    if |packet| < 4 { return DecodeTruncated; }
    var size := packet[3] as int;
    if size != BitmapSize(|schema.fields|) || |packet| < 4 + size { return DecodeTruncated; }
    OptimizedBody(schema, dictionary.State(), packet, size);
    hide OptimizedValuesOf, BitmapSize;
    var reader := new PacketReader(packet);
    var _ := reader.Skip(2);
    var _ := reader.Skip(1);
    var _ := reader.Skip(1);
    var _ := reader.Skip(size);
    FourSkips(packet, size);
    code := FillSlots(schema, Flags(packet[4..], |schema.fields|), reader, dictionary, slots);
  }

  lemma FourSkips(p: seq<byte>, size: nat)
    requires |p| >= 4 + size
    ensures p[2..][1..][1..][size..] == p[4 + size..]
  {
  }

  /** The dispatch: batches and foreign ids are turned away, optimized packets are decoded in place. */
  method Decode(schema: SchemaDef, packet: seq<byte>, slots: array<FastField>, dictionary: AdaptiveDictionary)
    returns (code: Code, count: nat)
    modifies slots
    ensures slots.Length < |schema.fields| ==> code == InsufficientStorage
    ensures slots.Length >= |schema.fields| && |packet| < 2 ==> code == PacketTooSmall
    ensures slots.Length >= |schema.fields| && |packet| >= 2 ==>
      code == if packet[0] == 0xFC then UnsupportedEnvelope
              else if Word(packet) != schema.messageId then IdMismatch
              else match DecodedValues(schema, old(dictionary.State()), packet)
                   case Failed(c) => c
                   case Done(_) => Good
    ensures code == Good <==>
      && slots.Length >= |schema.fields| && |packet| >= 2 && packet[0] != 0xFC && Word(packet) == schema.messageId
      && DecodedValues(schema, old(dictionary.State()), packet).Done?
    ensures code == Good ==> count == |schema.fields|
    ensures code == Good ==>
      Filled(old(slots[..]), slots[..], packet, DecodedValues(schema, old(dictionary.State()), packet).values)
    ensures code != Good ==> count == 0
  {
    hide FastValues, Meaning, Flags;
    count := 0;
    if slots.Length < |schema.fields| { return InsufficientStorage, 0; }
    if |packet| < 2 { return PacketTooSmall, 0; }
    if packet[0] == 0xFC { return UnsupportedEnvelope, 0; }
    if packet[0] as int + 256 * packet[1] as int != schema.messageId { return IdMismatch, 0; }
    NeverGood(schema, dictionary.State(), packet);
    hide PlainValuesOf, OptimizedValuesOf;
    if |packet| >= 3 && packet[2] == MARKER {
      code := DecodeOptimized(schema, packet, slots, dictionary);
    } else {
      code := DecodePlain(schema, packet, slots, dictionary);
    }
    if code == Good { count := |schema.fields|; }
  }

  lemma {:induction false} FailuresAreErrors(fields: seq<FieldDef>, flags: seq<bool>, dict: Dict, d: seq<byte>)
    requires |flags| == |fields|
    ensures FastValues(fields, flags, dict, d) != Failed(Good)
    decreases |fields|
  {
    if fields != [] {
      if !fields[0].ftype.Variable() && flags[0] {
        FailuresAreErrors(fields[1..], flags[1..], dict, d);
      } else {
        var one := DecodeField(fields[0], Frozen(dict), d);
        hide DecodeField;
        if one.Read? { FailuresAreErrors(fields[1..], flags[1..], dict, d[one.used..]); }
      }
    }
  }

  lemma NeverGood(schema: SchemaDef, dict: Dict, p: seq<byte>)
    ensures DecodedValues(schema, dict, p) != Failed(Good)
  {
    hide FastValues;
    if |p| >= 2 { FailuresAreErrors(schema.fields, NoneOmitted(|schema.fields|), dict, p[2..]); }
    if |p| >= 4 && p[3] == BitmapSize(|schema.fields|) && |p| >= 4 + p[3] as int {
      FailuresAreErrors(schema.fields, Flags(p[4..], |schema.fields|), dict, p[4 + p[3] as int..]);
    }
  }
}
