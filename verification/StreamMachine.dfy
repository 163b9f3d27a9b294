/** The stream optimizer as the object it is: per-schema maps, counters and a queue that its methods update. */
module StreamMachine {
  import opened Wire
  import opened Schema
  import opened Core
  import opened Delta
  import opened DeltaCodec
  import opened StreamOptimizer

  // Batches.

  lemma PartsStep(packets: seq<Packet>, i: nat, done: seq<byte>)
    requires i < |packets|
    ensures done + Parts(packets[i..]) == done + (LE(|packets[i]|, 2) + packets[i]) + Parts(packets[i + 1..])
  {
    assert packets[i..][1..] == packets[i + 1..];
    hide LE;
    Assoc(done, LE(|packets[i]|, 2) + packets[i], Parts(packets[i + 1..]));
  }

  method BuildBatchPacket(packets: seq<Packet>) returns (p: Packet)
    ensures p == BuildBatch(packets)
  {
    var encoder := new Encoder();
    encoder.WriteBytes([BATCH]);
    encoder.WriteBytes([|packets| % 256]);
    assert encoder.buffer == [BATCH, |packets| % 256] && packets[0..] == packets;
    for i := 0 to |packets|
      invariant encoder.buffer + Parts(packets[i..]) == BuildBatch(packets)
    {
      PartsStep(packets, i, encoder.buffer);
      hide *;
      encoder.WriteCounted(packets[i]);
    }
    assert encoder.buffer + [] == encoder.buffer;
    return encoder.buffer;
  }

  function Joined(done: seq<Packet>, rest: Option<seq<Packet>>): Option<seq<Packet>>
  {
    match rest case None => None case Some(packets) => Some(done + packets)
  }

  lemma SplitStep(count: nat, d: seq<byte>, cursor: nat, done: seq<Packet>)
    requires count > 0 && cursor <= |d|
    ensures var whole := Joined(done, SplitParts(count, d[cursor..]));
      if cursor + 2 > |d| || cursor + 2 + Word(d[cursor..]) > |d| then whole == None
      else
        var next := cursor + 2 + Word(d[cursor..]);
        whole == Joined(done + [d[cursor + 2..next]], SplitParts(count - 1, d[next..]))
  {
    var rest := d[cursor..];
    if cursor + 2 <= |d| && cursor + 2 + Word(rest) <= |d| {
      var n := Word(rest);
      hide Word;
      assert rest[2..2 + n] == d[cursor + 2..cursor + 2 + n] && rest[2 + n..] == d[cursor + 2 + n..];
      var later := SplitParts(count - 1, rest[2 + n..]);
      if later.Some? { assert done + ([rest[2..2 + n]] + later.value) == done + [rest[2..2 + n]] + later.value; }
    }
  }

  /** The loop over the entries of a batch. */
  method SplitBatch(data: Packet, count: nat) returns (r: Option<seq<Packet>>)
    requires |data| >= 2
    ensures r == SplitParts(count, data[2..])
  {
    var cursor: nat := 2;
    var packets: seq<Packet> := [];
    ghost var whole := SplitParts(count, data[2..]);
    JoinedEnds(whole, packets, []);
    for i := 0 to count
      invariant cursor <= |data|
      invariant whole == Joined(packets, SplitParts(count - i, data[cursor..]))
    {
      SplitStep(count - i, data, cursor, packets);
      hide SplitParts, Joined;
      if cursor + 2 > |data| { return None; }
      var size := data[cursor] as int + 256 * data[cursor + 1] as int;
      assert size == Word(data[cursor..]);
      hide Word;
      cursor := cursor + 2;
      if cursor + size > |data| { return None; }
      packets := packets + [data[cursor..cursor + size]];
      cursor := cursor + size;
    }
    JoinedEnds(whole, packets, data[cursor..]);
    hide SplitParts, Joined;
    if cursor != |data| { return None; }
    return Some(packets);
  }

  lemma JoinedEnds(whole: Option<seq<Packet>>, packets: seq<Packet>, rest: seq<byte>)
    ensures Joined([], whole) == whole
    ensures Joined(packets, SplitParts(0, rest)) == if rest == [] then Some(packets) else None
  {
    if whole.Some? { assert [] + whole.value == whole.value; }
    assert packets + [] == packets;
  }

  method ExpandPackets(data: Packet) returns (r: Option<seq<Packet>>)
    ensures r == ExpandIncoming(data)
  {
    if |data| < 1 { return None; }
    if data[0] != BATCH { return Some([data]); }
    if |data| < 2 { return None; }
    r := SplitBatch(data, data[1]);
  }

  // The object.

  class Optimizer {
    var config: StreamConfig
    var lastPayload: map<string, Payload>
    var lastPacket: map<string, Packet>
    var samples: map<string, nat>
    var queue: seq<Packet>
    var deltaSeq: map<string, u16>
    var records: map<string, nat>
    var lastDecoded: map<string, Payload>
    var expected: map<string, u16>

    function State(): Stream
      reads this
    {
      Stream(config, lastPayload, lastPacket, samples, queue, deltaSeq, records, lastDecoded, expected)
    }

    constructor ()
      ensures State() == Fresh(StreamConfig(false, true, true, true, false, 100, 8, 4))
    {
      config := StreamConfig(false, true, true, true, false, 100, 8, 4);
      lastPayload, lastPacket, samples, queue := map[], map[], map[], [];
      deltaSeq, records, lastDecoded, expected := map[], map[], map[], map[];
    }

    method Configure(c: StreamConfig)
      modifies this
      ensures State() == old(State()).(config := c.Normal())
    {
      config := c;
      if config.maxBatch == 0 { config := config.(maxBatch := 1); }
      if config.keyframeInterval == 0 { config := config.(keyframeInterval := 1); }
    }

    method Reset()
      modifies this
      ensures State() == old(State()).Reset()
    {
      lastPayload, lastPacket, samples, queue := map[], map[], map[], [];
      deltaSeq, records, lastDecoded, expected := map[], map[], map[], map[];
    }

    method ResetDeltaState()
      modifies this
      ensures State() == old(State()).ResetDeltaState()
    {
      lastPayload, deltaSeq, records, lastDecoded, expected := map[], map[], map[], map[], map[];
    }

    /** Takes the next delta of the schema, if one can be built. */
    method BuildNextDelta(schema: SchemaDef, payload: Payload) returns (d: Option<Packet>)
      requires schema.name in lastPayload
      ensures d == State().NextDelta(schema, payload)
    {
      d := BuildDeltaPacket(schema, lastPayload[schema.name], payload, Get(deltaSeq, schema.name, 0));
    }

    method Repeat(schema: SchemaDef, payload: Payload, full: Emission) returns (out: Emission)
      requires schema.name in lastPayload
      ensures out == State().Repeated(schema, payload, full)
    {
      hide Stream.NextDelta;
      if !config.deltaPackets { return full.(reused := true, packet := Get(lastPacket, schema.name, [])); }
      var d := BuildNextDelta(schema, payload);
      return if d.Some? then full.(delta := true, packet := d.value) else full;
    }

    method PreferDelta(schema: SchemaDef, payload: Payload, encoded: Packet, full: Emission) returns (out: Emission)
      requires schema.name in lastPayload
      ensures out == State().Smaller(schema, payload, encoded, full)
    {
      hide Stream.NextDelta;
      var d := BuildNextDelta(schema, payload);
      return if d.Some? && |d.value| < |encoded| then full.(delta := true, packet := d.value) else full;
    }

    method Enqueue(encoded: Packet, full: Emission) returns (out: Emission)
      modifies `queue
      ensures (out, queue) == old(State()).Queued(encoded, full)
    {
      queue := queue + [encoded];
      if |queue| < config.maxBatch { return full.(emitNow := false, queued := true); }
      var batch := BuildBatchPacket(queue);
      queue := [];
      return full.(packet := batch);
    }

    method IsRepeated(name: string, payload: Payload) returns (same: bool)
      ensures same == State().Identical(name, payload)
    {
      if name !in lastPayload || !config.reuse { return false; }
      same := ComparePayloads(lastPayload[name], payload);
    }

    /** The branch taken for a record, and its effect on the queue. */
    method Choose(schema: SchemaDef, payload: Payload, encoded: Packet, lowChange: bool) returns (out: Emission)
      modifies `queue
      ensures (out, queue) == old(State()).Decide(schema, payload, encoded, lowChange)
    {
      ghost var s := State();
      hide Stream.Repeated, Stream.Smaller, Stream.Queued, Stream.Identical;
      var name := schema.name;
      var aggressive := Get(samples, name, 0) >= config.aggressiveAfter;
      out := Emission(true, false, false, aggressive, false, false, encoded);
      assert out == s.Full(name, encoded);
      if !config.enabled { return; }
      var deltaMode, known := config.deltaPackets, name in lastPayload;
      RepeatedIsKnown(s, name, payload);
      var same := IsRepeated(name, payload);
      if same {
        out := Repeat(schema, payload, out);
      } else if deltaMode && (!known || Get(records, name, 0) >= config.keyframeInterval) {
        out := out.(keyframe := true);
      } else if deltaMode && known && config.deltaUpdates && aggressive {
        if lowChange { out := PreferDelta(schema, payload, encoded, out); }
      } else if !deltaMode && known && config.deltaUpdates && config.batching && aggressive {
        if lowChange { out := Enqueue(encoded, out); }
      }
    }

    /** The sequence number and record count of the schema, after an emission of this kind. */
    method AdvanceCounters(name: string, delta: bool, keyframe: bool)
      modifies `deltaSeq, `records
      ensures State() == old(State()).(
        deltaSeq := old(deltaSeq)[name := if delta then NextSeq(Get(old(deltaSeq), name, 0)) else 0],
        records := old(records)[name := (if keyframe then 0 else Get(old(records), name, 0)) + 1])
    {
      hide NextSeq;
      UpdateTwice(records, name, 0, Get(if keyframe then records[name := 0] else records, name, 0) + 1);
      if keyframe { records := records[name := 0]; }
      deltaSeq := deltaSeq[name := if delta then NextSeq(Get(deltaSeq, name, 0)) else 0];
      records := records[name := Get(records, name, 0) + 1];
    }

    method Remember(name: string, payload: Payload, packet: Packet, count: nat)
      modifies `lastPayload, `lastPacket, `samples
      ensures State() == old(State()).(lastPayload := old(lastPayload)[name := payload],
        lastPacket := old(lastPacket)[name := packet], samples := old(samples)[name := count])
    {
      lastPayload := lastPayload[name := payload];
      lastPacket := lastPacket[name := packet];
      samples := samples[name := count];
    }

    method OptimizeOutgoing(schema: SchemaDef, payload: Payload, encoded: Packet, lowChange: bool)
      returns (out: Emission)
      modifies this
      ensures (State(), out) == old(State()).Outgoing(schema, payload, encoded, lowChange)
    {
      hide Stream.Decide, Stream.Outgoing, NextSeq;
      OutgoingFields(State(), schema, payload, encoded, lowChange);
      var name := schema.name;
      var count := Get(samples, name, 0);
      out := Choose(schema, payload, encoded, lowChange);
      Remember(name, payload, if out.delta then out.packet else encoded, count + 1);
      if config.enabled && config.deltaPackets { AdvanceCounters(name, out.delta, out.keyframe); }
    }

    method FlushBatched() returns (r: Option<Packet>)
      modifies this
      ensures (State(), r) == old(State()).Flush()
    {
      if queue == [] { return None; }
      var batch := BuildBatchPacket(queue);
      queue := [];
      return Some(batch);
    }

    method RecordDecoded(name: string, payload: Payload)
      modifies this
      ensures State() == old(State()).RecordDecoded(name, payload)
    {
      lastDecoded := lastDecoded[name := payload];
      expected := expected[name := 0];
    }

    method RecordDecodedDelta(name: string, payload: Payload)
      modifies this
      ensures State() == old(State()).RecordDecodedDelta(name, payload)
    {
      lastDecoded := lastDecoded[name := payload];
      expected := expected[name := NextSeq(Get(expected, name, 0))];
    }

    method Expand(schema: SchemaDef, packet: Packet) returns (r: Expansion)
      ensures r == State().Expand(schema, packet)
    {
      var name := schema.name;
      r := ExpandDeltaPacket(schema, packet, if name in lastDecoded then Some(lastDecoded[name]) else None,
        Get(expected, name, 0));
    }
  }

  /** The new state field by field. */
  lemma UpdateTwice<K, V>(m: map<K, V>, k: K, a: V, b: V)
    ensures m[k := a][k := b] == m[k := b] && k in m[k := a] && m[k := a][k] == a
  {
  }

  lemma OutgoingFields(s: Stream, schema: SchemaDef, payload: Payload, encoded: Packet, lowChange: bool)
    ensures var name := schema.name;
      var (e, left) := s.Decide(schema, payload, encoded, lowChange);
      s.Outgoing(schema, payload, encoded, lowChange)
      == (Stream(s.config, s.lastPayload[name := payload], s.lastPacket[name := if e.delta then e.packet else encoded],
                 s.samples[name := Get(s.samples, name, 0) + 1], left,
                 if s.config.DeltaMode() then
                   s.deltaSeq[name := if e.delta then NextSeq(Get(s.deltaSeq, name, 0)) else 0]
                 else s.deltaSeq,
                 if s.config.DeltaMode() then
                   s.records[name := (if e.keyframe then 0 else Get(s.records, name, 0)) + 1]
                 else s.records,
                 s.lastDecoded, s.expected), e)
  {
    hide Stream.Decide;
  }

  lemma RepeatedIsKnown(s: Stream, name: string, payload: Payload)
    ensures s.Identical(name, payload) ==> name in s.lastPayload
  {
  }
}
