/** Which form a record leaves in, and what it costs: the laws of the emission decision. */
module Emissions {
  import opened Wire
  import opened Bits
  import opened Schema
  import opened Codec
  import opened Delta
  import opened StreamOptimizer
  import opened DeltaCodec

  /** The payload equals the last one of its schema, and repeats are looked for. */
  predicate Repeats(s: Stream, name: string, payload: Payload)
  {
    name in s.lastPayload && s.config.reuse && PayloadEquals(s.lastPayload[name], payload)
  }

  /** The schema has no last payload, or as many records since its keyframe as the interval allows. */
  predicate Due(s: Stream, name: string)
  {
    name !in s.lastPayload || Get(s.records, name, 0) >= s.config.keyframeInterval
  }

  /** Enough records of the schema have gone out, and this one changes little. */
  predicate Sparing(s: Stream, name: string, lowChange: bool)
  {
    s.config.deltaUpdates && Get(s.samples, name, 0) >= s.config.aggressiveAfter && lowChange
  }

  /** The delta against the last payload, with the current sequence number. */
  function DeltaOf(s: Stream, schema: SchemaDef, payload: Payload): Option<Packet>
    requires schema.name in s.lastPayload
  {
    BuildDelta(schema, s.lastPayload[schema.name], payload, Get(s.deltaSeq, schema.name, 0))
  }

  /** The sequence number after a delta. */
  function Following(s: Stream, name: string): u16
  {
    var number: int := Get(s.deltaSeq, name, 0);
    (number + 1) % 65536
  }

  /**
   * Delta mode, a payload that is no repeat: the record leaves as its delta exactly when the schema is not due, the
   * record is sparing and its delta is strictly shorter than the encoded packet; otherwise it leaves in full, as a
   * keyframe exactly when the schema is due. The sequence number goes up by one modulo 65536 after a delta and restarts
   * after a full packet, and the record count restarts with a keyframe.
   */
  lemma DeltaModeForm(s: Stream, schema: SchemaDef, payload: Payload, encoded: Packet, lowChange: bool)
    requires s.config.DeltaMode() && !Repeats(s, schema.name, payload)
    ensures var name := schema.name;
      var (t, e) := s.Outgoing(schema, payload, encoded, lowChange);
      var small := !Due(s, name) && Sparing(s, name, lowChange) && DeltaOf(s, schema, payload).Some?
                   && |DeltaOf(s, schema, payload).value| < |encoded|;
      && e.emitNow && !e.reused && !e.queued
      && (e.delta <==> small) && (e.keyframe <==> Due(s, name))
      && e.packet == (if small then DeltaOf(s, schema, payload).value else encoded)
      && t.deltaSeq == s.deltaSeq[name := if small then Following(s, name) else 0]
      && t.records == s.records[name := if Due(s, name) then 1 else Get(s.records, name, 0) + 1]
      && t.queue == s.queue
  {
    hide BuildDelta, PayloadEquals;
  }

  /**
   * Delta mode, a repeat: it leaves as a delta, whatever its length, unless none can be built; then it leaves in full.
   */
  lemma DeltaModeRepeat(s: Stream, schema: SchemaDef, payload: Payload, encoded: Packet, lowChange: bool)
    requires s.config.DeltaMode() && Repeats(s, schema.name, payload)
    ensures var name := schema.name;
      var (t, e) := s.Outgoing(schema, payload, encoded, lowChange);
      var built := DeltaOf(s, schema, payload);
      && e.emitNow && !e.reused && !e.queued && !e.keyframe
      && (e.delta <==> built.Some?) && e.packet == (if built.Some? then built.value else encoded)
      && t.deltaSeq == s.deltaSeq[name := if built.Some? then Following(s, name) else 0]
      && t.records == s.records[name := Get(s.records, name, 0) + 1] && t.queue == s.queue
  {
    hide BuildDelta, PayloadEquals;
  }

  /**
   * Without delta packets: a repeat leaves as the packet kept from the last record; any other record is held back for
   * a batch exactly when its schema is known, batching is on and the record is sparing, and the batch, all that was
   * held back and this record last, leaves as soon as it has the configured number of packets. Everything else leaves
   * at once in full. Neither sequence numbers nor record counts move.
   */
  lemma PlainModeForm(s: Stream, schema: SchemaDef, payload: Payload, encoded: Packet, lowChange: bool)
    requires s.config.enabled && !s.config.deltaPackets
    ensures var name := schema.name;
      var (t, e) := s.Outgoing(schema, payload, encoded, lowChange);
      var repeat := Repeats(s, name, payload);
      var held := !repeat && name in s.lastPayload && s.config.batching && Sparing(s, name, lowChange);
      var full := held && |s.queue| + 1 >= s.config.maxBatch;
      && !e.delta && !e.keyframe
      && (e.reused <==> repeat) && (e.queued <==> held && !full) && (e.emitNow <==> !e.queued)
      && (repeat ==> e.packet == Get(s.lastPacket, name, []))
      && (full ==> e.packet == BuildBatch(s.queue + [encoded]))
      && (!repeat && !held ==> e.packet == encoded)
      && t.queue == (if full then [] else if held then s.queue + [encoded] else s.queue)
      && t.deltaSeq == s.deltaSeq && t.records == s.records
  {
    hide BuildBatch, PayloadEquals;
  }

  /** A flush empties the queue into one batch that splits into the queue again, in order; an empty one stays put. */
  lemma FlushInOrder(s: Stream)
    requires |s.queue| <= 255 && forall i :: 0 <= i < |s.queue| ==> |s.queue[i]| <= 65535
    ensures var (t, p) := s.Flush();
      && t == s.(queue := []) && (p.Some? <==> s.queue != [])
      && (p.Some? ==> ExpandIncoming(p.value) == Some(s.queue))
  {
    BatchRoundTrip(s.queue);
    hide BuildBatch, ExpandIncoming;
  }

  /** A configuration asks for at least one packet a batch and one record an interval, and is kept otherwise. */
  lemma NormalForm(c: StreamConfig)
    ensures var n := c.Normal();
      && n.maxBatch == Longest(1, c.maxBatch) && n.keyframeInterval == Longest(1, c.keyframeInterval)
      && n.(maxBatch := c.maxBatch, keyframeInterval := c.keyframeInterval) == c
  {
  }

  /** A disabled optimizer lets every record through, and every record is counted and kept in any mode. */
  lemma AnyModeForm(s: Stream, schema: SchemaDef, payload: Payload, encoded: Packet, lowChange: bool)
    ensures var name := schema.name;
      var (t, e) := s.Outgoing(schema, payload, encoded, lowChange);
      && (!s.config.enabled ==>
            && e == Emission(true, false, false, e.aggressive, false, false, encoded)
            && t.queue == s.queue && t.deltaSeq == s.deltaSeq && t.records == s.records)
      && (e.aggressive <==> Get(s.samples, name, 0) >= s.config.aggressiveAfter)
      && t.samples == s.samples[name := Get(s.samples, name, 0) + 1]
      && t.lastPayload == s.lastPayload[name := payload]
      && t.lastPacket == s.lastPacket[name := if e.delta then e.packet else encoded]
      && t.lastDecoded == s.lastDecoded && t.expected == s.expected && t.config == s.config
  {
    AggressiveAfter(s, schema, payload, encoded, lowChange);
    hide Stream.Repeated, Stream.Smaller, Stream.Queued, PayloadEquals;
  }

  lemma AggressiveAfter(s: Stream, schema: SchemaDef, payload: Payload, encoded: Packet, lowChange: bool)
    ensures s.Outgoing(schema, payload, encoded, lowChange).1.aggressive
      <==> Get(s.samples, schema.name, 0) >= s.config.aggressiveAfter
  {
    hide Stream.NextDelta, BuildBatch, PayloadEquals;
  }

  /** Outside repeats a record in delta mode never takes more bytes than its encoded packet. */
  lemma NeverLonger(s: Stream, schema: SchemaDef, payload: Payload, encoded: Packet, lowChange: bool)
    requires s.config.DeltaMode() && !Repeats(s, schema.name, payload)
    ensures |s.Outgoing(schema, payload, encoded, lowChange).1.packet| <= |encoded|
  {
    DeltaModeForm(s, schema, payload, encoded, lowChange);
    hide Stream.Outgoing, Repeats, Due, Sparing, DeltaOf;
  }

  lemma {:induction false} NothingToSend(fields: seq<FieldDef>, previous: Payload, current: Payload)
    requires PayloadEquals(previous, current) && DeltaBody(fields, previous, current).Some?
    ensures DeltaBody(fields, previous, current) == Some([])
    decreases |fields|
  {
    if fields != [] {
      hide PayloadEquals, DeltaField;
      NotChanged(previous, current, fields[0].name);
      NothingToSend(fields[1..], previous, current);
    }
  }

  /** In equal payloads a field is unchanged, unless it is absent from both. */
  lemma NotChanged(previous: Payload, current: Payload, name: string)
    requires PayloadEquals(previous, current)
    ensures Changed(previous, current, name) ==> name !in previous
  {
    hide ValueEq;
  }

  /** The delta of a repeat is six bytes and its bitmap. */
  lemma RepeatSize(schema: SchemaDef, previous: Payload, current: Payload, sequence: u16)
    requires PayloadEquals(previous, current)
    ensures var d := BuildDelta(schema, previous, current, sequence);
      d.Some? ==> |d.value| == 6 + BitmapSize(|schema.fields|)
  {
    hide PayloadEquals, Pack;
    if DeltaBody(schema.fields, previous, current).Some? {
      NothingToSend(schema.fields, previous, current);
    }
  }

  // What counts as a change.

  /** A float by its sign, exponent and fraction fields, as IEEE 754 lays them out. */
  datatype FloatFields = FloatFields(negative: bool, exponent: nat, fraction: nat) {
    predicate Single() { exponent < 256 && fraction < 8388608 }

    predicate Double() { exponent < 2048 && fraction < 4503599627370496 }

    predicate Zero() { exponent == 0 && fraction == 0 }

    function SingleBits(): nat { (if negative then 2147483648 else 0) + exponent * 8388608 + fraction }

    function DoubleBits(): nat
    {
      (if negative then 9223372036854775808 else 0) + exponent * 4503599627370496 + fraction
    }
  }

  /** Single floats compare equal when neither is a NaN and they are identical or two zeros. */
  lemma EqualSingles(a: FloatFields, b: FloatFields)
    requires a.Single() && b.Single()
    ensures ValueEq(Number(F32, a.SingleBits()), Number(F32, b.SingleBits()))
      <==> && !(a.exponent == 255 && a.fraction != 0) && !(b.exponent == 255 && b.fraction != 0)
           && (a == b || (a.Zero() && b.Zero()))
  {
  }

  /** So do double floats. */
  lemma EqualDoubles(a: FloatFields, b: FloatFields)
    requires a.Double() && b.Double()
    ensures ValueEq(Number(F64, a.DoubleBits()), Number(F64, b.DoubleBits()))
      <==> && !(a.exponent == 2047 && a.fraction != 0) && !(b.exponent == 2047 && b.fraction != 0)
           && (a == b || (a.Zero() && b.Zero()))
  {
  }

  /** Everything but a float changes exactly when it is not the same value of the same type. */
  lemma EqualOthers(a: FieldValue, b: FieldValue)
    requires !a.Type().Float() || !b.Type().Float() || a.Type() != b.Type()
    ensures ValueEq(a, b) <==> a == b
  {
  }

  /** A payload with a NaN in it is never a repeat, not even of itself. */
  lemma NaNNeverRepeats(s: Stream, name: string, payload: Payload, field: string)
    requires field in payload && payload[field].Number? && NotANumber(payload[field].ntype, payload[field].n)
    ensures !Repeats(s, name, payload)
  {
    hide NotANumber;
    NaNTypes(payload[field].ntype, payload[field].n);
    if name in s.lastPayload {
      var last := s.lastPayload[name];
      if |last| == |payload| && field !in last {
        SameSizeMissing(last, payload, field);
      } else if field in last {
        assert Changed(last, payload, field);
      }
    }
  }

  lemma NaNTypes(t: FieldType, bits: int)
    ensures NotANumber(t, bits) ==> t.Float()
  {
  }

  /** Of two maps of one size, the one without a key of the other has a key the other has not. */
  lemma SameSizeMissing(a: Payload, b: Payload, key: string)
    requires |a| == |b| && key in b && key !in a
    ensures exists other :: other in a && other !in b
  {
    assert |a.Keys| == |a| && |b.Keys| == |b|;
    if forall other :: other in a ==> other in b { Smaller(a.Keys, b.Keys, key); }
  }

  lemma Smaller(a: set<string>, b: set<string>, key: string)
    requires a <= b && key in b && key !in a
    ensures |a| < |b|
  {
    assert a <= b - {key};
    SubsetSize(a, b - {key});
  }

  lemma {:induction false} SubsetSize(a: set<string>, b: set<string>)
    requires a <= b
    ensures |a| <= |b|
    decreases |b|
  {
    if a != {} {
      var x :| x in a;
      SubsetSize(a - {x}, b - {x});
    }
  }

  function CountTrue(flags: seq<bool>): nat
  {
    if flags == [] then 0
    else CountTrue(flags[..|flags| - 1]) + if flags[|flags| - 1] then 1 else 0
  }

  /** The names of the first fields that differ. */
  function ChangedAmong(fields: seq<FieldDef>, previous: Payload, current: Payload): set<string>
  {
    set i | 0 <= i < |fields| && Changed(previous, current, fields[i].name) :: fields[i].name
  }

  lemma LastChanged(fields: seq<FieldDef>, previous: Payload, current: Payload)
    requires Distinct(fields) && fields != []
    ensures var front, last := fields[..|fields| - 1], fields[|fields| - 1].name;
      && Distinct(front) && last !in ChangedAmong(front, previous, current)
      && ChangedAmong(fields, previous, current)
         == ChangedAmong(front, previous, current) + if Changed(previous, current, last) then {last} else {}
  {
    hide Changed;
    var front, last := fields[..|fields| - 1], fields[|fields| - 1];
    assert fields == front + [last];
  }

  lemma LastFlag(fields: seq<FieldDef>, previous: Payload, current: Payload)
    requires fields != []
    ensures var front, last := fields[..|fields| - 1], fields[|fields| - 1].name;
      CountTrue(ChangedFlags(fields, previous, current))
      == CountTrue(ChangedFlags(front, previous, current)) + if Changed(previous, current, last) then 1 else 0
  {
    hide Changed;
    var flags := ChangedFlags(fields, previous, current);
    assert ChangedFlags(fields[..|fields| - 1], previous, current) == flags[..|flags| - 1];
  }

  lemma {:induction false} CountChanged(fields: seq<FieldDef>, previous: Payload, current: Payload)
    requires Distinct(fields)
    ensures |ChangedAmong(fields, previous, current)| == CountTrue(ChangedFlags(fields, previous, current))
    decreases |fields|
  {
    if fields == [] {
      assert ChangedAmong(fields, previous, current) == {};
    } else {
      hide *;
      LastChanged(fields, previous, current);
      LastFlag(fields, previous, current);
      CountChanged(fields[..|fields| - 1], previous, current);
    }
  }

  /** The share of changed fields is the share of set bits in the bitmap of the delta. */
  lemma RatioIsBitmap(fields: seq<FieldDef>, previous: Payload, current: Payload)
    requires Distinct(fields) && Fits(fields, current)
    ensures |ChangedNames(previous, current)| == CountTrue(ChangedFlags(fields, previous, current))
    ensures |current| == |fields|
  {
    hide Changed;
    CountChanged(fields, previous, current);
    NamesCount(fields);
    assert |current.Keys| == |current|;
    assert ChangedNames(previous, current) == ChangedAmong(fields, previous, current);
  }

  lemma {:induction false} NamesCount(fields: seq<FieldDef>)
    requires Distinct(fields)
    ensures |Names(fields)| == |fields|
    decreases |fields|
  {
    if fields != [] {
      var front, last := fields[..|fields| - 1], fields[|fields| - 1];
      NamesCount(front);
      assert Names(fields) == Names(front) + {last.name} by { assert fields == front + [last]; }
      assert last.name !in Names(front);
    }
  }

  // What a run costs.

  function Longest(a: nat, b: nat): nat { if a < b then b else a }

  /** What a record may cost in delta mode: its encoded packet, or an empty delta where that is longer. */
  function Allowance(r: Record): nat { Longest(|r.encoded|, 6 + BitmapSize(|r.schema.fields|)) }

  function TotalAllowance(records: seq<Record>): nat
  {
    if records == [] then 0 else Allowance(records[0]) + TotalAllowance(records[1..])
  }

  /** The bytes a run of records emits. */
  function BytesSent(s: Stream, records: seq<Record>): nat
    decreases |records|
  {
    if records == [] then 0
    else
      var r := records[0];
      var (t, e) := s.Outgoing(r.schema, r.payload, r.encoded, r.lowChange);
      (if e.emitNow then |e.packet| else 0) + BytesSent(t, records[1..])
  }

  lemma OneAllowed(s: Stream, r: Record)
    requires s.config.DeltaMode()
    ensures |s.Outgoing(r.schema, r.payload, r.encoded, r.lowChange).1.packet| <= Allowance(r)
    ensures s.Outgoing(r.schema, r.payload, r.encoded, r.lowChange).0.config == s.config
  {
    AnyModeForm(s, r.schema, r.payload, r.encoded, r.lowChange);
    if Repeats(s, r.schema.name, r.payload) {
      DeltaModeRepeat(s, r.schema, r.payload, r.encoded, r.lowChange);
      RepeatSize(r.schema, s.lastPayload[r.schema.name], r.payload, Get(s.deltaSeq, r.schema.name, 0));
    } else {
      NeverLonger(s, r.schema, r.payload, r.encoded, r.lowChange);
    }
    hide Stream.Outgoing, BuildDelta, PayloadEquals;
  }

  /**
   * Over every run in delta mode no record costs more than its encoded packet, except a repeat shorter than an empty
   * delta, which costs an empty delta.
   */
  lemma {:induction false} RunCost(s: Stream, records: seq<Record>)
    requires s.config.DeltaMode()
    ensures BytesSent(s, records) <= TotalAllowance(records)
    decreases |records|
  {
    if records != [] {
      var r := records[0];
      OneAllowed(s, r);
      hide Stream.Outgoing, Allowance;
      RunCost(s.Outgoing(r.schema, r.payload, r.encoded, r.lowChange).0, records[1..]);
    }
  }
}
