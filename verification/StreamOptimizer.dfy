/** Sender and receiver state of the stream, the emission decision, and batching. */
module StreamOptimizer {
  import opened Wire
  import opened Schema
  import opened Codec
  import opened Delta

  type Packet = seq<byte>

  const BATCH: byte := 0xFC

  datatype StreamConfig = StreamConfig(enabled: bool, reuse: bool, deltaUpdates: bool, batching: bool,
    deltaPackets: bool, keyframeInterval: nat, aggressiveAfter: nat, maxBatch: nat)
  {
    function Normal(): StreamConfig
    {
      var c := if maxBatch == 0 then this.(maxBatch := 1) else this;
      if keyframeInterval == 0 then c.(keyframeInterval := 1) else c
    }

    predicate DeltaMode() { enabled && deltaPackets }

    /** A payload equal to the last one is answered with the packet kept from it. */
    predicate Resends() { enabled && !deltaPackets && reuse }

    /** Every record is emitted at once: nothing waits for a batch. */
    predicate Immediate() { !enabled || deltaPackets || !(deltaUpdates && batching) }
  }

  datatype Emission = Emission(emitNow: bool, reused: bool, queued: bool, aggressive: bool, delta: bool,
    keyframe: bool, packet: Packet)

  /** `map[key]` with the default an absent key would be given. */
  function Get<T>(m: map<string, T>, key: string, default: T): T { if key in m then m[key] else default }

  function NextSeq(s: u16): u16 { if s == 65535 then 0 else s + 1 }

  // Batches: 0xFC, count, then every packet with its 16-bit length.

  function Parts(packets: seq<Packet>): seq<byte>
  {
    if packets == [] then [] else LE(|packets[0]|, 2) + packets[0] + Parts(packets[1..])
  }

  function BuildBatch(packets: seq<Packet>): Packet { [BATCH, |packets| % 256] + Parts(packets) }

  function SplitParts(count: nat, d: seq<byte>): Option<seq<Packet>>
  {
    if count == 0 then if d == [] then Some([]) else None
    else if |d| < 2 || |d| < 2 + Word(d) then None
    else
      match SplitParts(count - 1, d[2 + Word(d)..])
      case None => None
      case Some(rest) => Some([d[2..2 + Word(d)]] + rest)
  }

  function ExpandIncoming(p: Packet): Option<seq<Packet>>
  {
    if p == [] then None
    else if p[0] != BATCH then Some([p])
    else if |p| < 2 then None
    else SplitParts(p[1], p[2..])
  }

  lemma {:induction false} SplitOfParts(packets: seq<Packet>)
    requires forall i :: 0 <= i < |packets| ==> |packets[i]| <= 65535
    ensures SplitParts(|packets|, Parts(packets)) == Some(packets)
    decreases |packets|
  {
    if packets != [] {
      var p, rest := packets[0], Parts(packets[1..]);
      SplitOfParts(packets[1..]);
      CountedReadsBack(p, rest);
      assert (LE(|p|, 2) + p + rest)[2 + |p|..] == rest;
      assert [p] + packets[1..] == packets;
    }
  }

  /** A batch of at most 255 packets, each below 64 KiB, expands to those packets in order. */
  lemma BatchRoundTrip(packets: seq<Packet>)
    requires |packets| <= 255 && forall i :: 0 <= i < |packets| ==> |packets[i]| <= 65535
    ensures ExpandIncoming(BuildBatch(packets)) == Some(packets)
  {
    hide *;
    SplitOfParts(packets);
    ExpandedBatch(packets);
  }

  lemma ExpandedBatch(packets: seq<Packet>)
    requires |packets| <= 255
    ensures ExpandIncoming(BuildBatch(packets)) == SplitParts(|packets|, Parts(packets))
  {
    hide Parts, SplitParts;
    SmallMod(|packets|, 256);
    var head: seq<byte> := [BATCH, |packets|];
    SplitAt(head + Parts(packets), head, Parts(packets));
    BatchExpands(head, Parts(packets));
  }

  lemma BatchExpands(head: seq<byte>, parts: seq<byte>)
    requires |head| == 2 && head[0] == BATCH && (head + parts)[2..] == parts
    ensures ExpandIncoming(head + parts) == SplitParts(head[1], parts)
  {
    hide SplitParts;
  }

  datatype Stream = Stream(config: StreamConfig, lastPayload: map<string, Payload>, lastPacket: map<string, Packet>,
    samples: map<string, nat>, queue: seq<Packet>, deltaSeq: map<string, u16>, records: map<string, nat>,
    lastDecoded: map<string, Payload>, expected: map<string, u16>)
  {
    predicate Identical(name: string, payload: Payload)
    {
      name in lastPayload && config.reuse && PayloadEquals(lastPayload[name], payload)
    }

    function Full(name: string, encoded: Packet): Emission
    {
      Emission(true, false, false, Get(samples, name, 0) >= config.aggressiveAfter, false, false, encoded)
    }

    /** The delta of the payload against the last one, for the current sequence number. */
    function NextDelta(schema: SchemaDef, payload: Payload): Option<Packet>
      requires schema.name in lastPayload
    {
      BuildDelta(schema, lastPayload[schema.name], payload, Get(deltaSeq, schema.name, 0))
    }

    /** A payload equal to the last one: an empty delta in delta mode, otherwise the last packet again. */
    function Repeated(schema: SchemaDef, payload: Payload, full: Emission): Emission
      requires schema.name in lastPayload
    {
      if config.deltaPackets then
        match NextDelta(schema, payload)
        case None => full
        case Some(d) => full.(delta := true, packet := d)
      else full.(reused := true, packet := Get(lastPacket, schema.name, []))
    }

    /** The delta when it is smaller than the full packet. */
    function Smaller(schema: SchemaDef, payload: Payload, encoded: Packet, full: Emission): Emission
      requires schema.name in lastPayload
    {
      match NextDelta(schema, payload)
      case None => full
      case Some(d) => if |d| < |encoded| then full.(delta := true, packet := d) else full
    }

    /** The packet joins the queue, which is emitted when it is long enough. */
    function Queued(encoded: Packet, full: Emission): (Emission, seq<Packet>)
    {
      var longer := queue + [encoded];
      if |longer| >= config.maxBatch then (full.(packet := BuildBatch(longer)), [])
      else (full.(emitNow := false, queued := true), longer)
    }

    /** The decision of `optimize_outgoing` and the queue it leaves; `lowChange` is the change-ratio test. */
    function Decide(schema: SchemaDef, payload: Payload, encoded: Packet, lowChange: bool): (Emission, seq<Packet>)
    {
      var name := schema.name;
      var full := Full(name, encoded);
      if !config.enabled then (full, queue)
      else if Identical(name, payload) then (Repeated(schema, payload, full), queue)
      else if config.deltaPackets && (name !in lastPayload || Get(records, name, 0) >= config.keyframeInterval) then
        (full.(keyframe := true), queue)
      else if config.deltaPackets && name in lastPayload && config.deltaUpdates && full.aggressive then
        (if lowChange then Smaller(schema, payload, encoded, full) else full, queue)
      else if !config.deltaPackets && name in lastPayload && config.deltaUpdates && config.batching
              && full.aggressive then
        if lowChange then Queued(encoded, full) else (full, queue)
      else (full, queue)
    }

    function Outgoing(schema: SchemaDef, payload: Payload, encoded: Packet, lowChange: bool): (Stream, Emission)
    {
      var name := schema.name;
      var (e, left) := Decide(schema, payload, encoded, lowChange);
      var sent := this.(lastPayload := lastPayload[name := payload],
                        lastPacket := lastPacket[name := if e.delta then e.packet else encoded],
                        samples := samples[name := Get(samples, name, 0) + 1],
                        queue := left);
      if !config.DeltaMode() then (sent, e)
      else
        (sent.(deltaSeq := deltaSeq[name := if e.delta then NextSeq(Get(deltaSeq, name, 0)) else 0],
               records := records[name := (if e.keyframe then 0 else Get(records, name, 0)) + 1]), e)
    }

    function Flush(): (Stream, Option<Packet>)
    {
      if queue == [] then (this, None) else (this.(queue := []), Some(BuildBatch(queue)))
    }

    function RecordDecoded(name: string, payload: Payload): Stream
    {
      this.(lastDecoded := lastDecoded[name := payload], expected := expected[name := 0])
    }

    function RecordDecodedDelta(name: string, payload: Payload): Stream
    {
      this.(lastDecoded := lastDecoded[name := payload], expected := expected[name := NextSeq(Get(expected, name, 0))])
    }

    function Expand(schema: SchemaDef, packet: Packet): Expansion
    {
      ExpandDelta(schema, packet, if schema.name in lastDecoded then Some(lastDecoded[schema.name]) else None,
        Get(expected, schema.name, 0))
    }

    function ResetDeltaState(): Stream
    {
      this.(lastPayload := map[], deltaSeq := map[], records := map[], lastDecoded := map[], expected := map[])
    }

    function Reset(): Stream { Fresh(config) }
  }

  function Fresh(config: StreamConfig): Stream
  {
    Stream(config, map[], map[], map[], [], map[], map[], map[], map[])
  }

  lemma RepeatedParts(s: Stream, schema: SchemaDef, payload: Payload, encoded: Packet)
    requires schema.name in s.lastPayload && s.config.enabled && s.Identical(schema.name, payload)
    ensures var e := s.Repeated(schema, payload, s.Full(schema.name, encoded));
      && e.emitNow && !e.keyframe
      && (e.delta ==> s.config.deltaPackets && s.NextDelta(schema, payload) == Some(e.packet) && !e.reused)
      && (e.reused ==> s.config.Resends() && e.packet == Get(s.lastPacket, schema.name, []))
      && (!e.delta && !e.reused ==> e.packet == encoded)
  {
    hide Stream.NextDelta, PayloadEquals;
  }

  lemma SmallerParts(s: Stream, schema: SchemaDef, payload: Payload, encoded: Packet)
    requires schema.name in s.lastPayload
    ensures var e := s.Smaller(schema, payload, encoded, s.Full(schema.name, encoded));
      && e.emitNow && !e.reused && !e.keyframe
      && (e.delta ==> s.NextDelta(schema, payload) == Some(e.packet))
      && (!e.delta ==> e.packet == encoded)
  {
    hide Stream.NextDelta;
  }

  /** Without batching a record leaves at once, as the next delta, as the packet kept for it, or as it was encoded. */
  lemma ImmediateDecision(s: Stream, schema: SchemaDef, payload: Payload, encoded: Packet, lowChange: bool)
    requires s.config.Immediate()
    ensures var (e, left) := s.Decide(schema, payload, encoded, lowChange);
      && e.emitNow && left == s.queue
      && (e.delta ==> s.config.DeltaMode() && schema.name in s.lastPayload && !e.reused && !e.keyframe)
      && (e.delta ==> s.NextDelta(schema, payload) == Some(e.packet))
      && (e.reused ==> s.config.Resends() && s.Identical(schema.name, payload))
      && (e.reused ==> e.packet == Get(s.lastPacket, schema.name, []))
      && (!e.delta && !e.reused ==> e.packet == encoded)
  {
    hide Stream.NextDelta, Stream.Repeated, Stream.Smaller, Stream.Queued;
    if s.config.enabled && s.Identical(schema.name, payload) {
      RepeatedParts(s, schema, payload, encoded);
    } else if schema.name in s.lastPayload {
      SmallerParts(s, schema, payload, encoded);
    }
    hide PayloadEquals;
  }

  /** What any record leaves behind, whatever the decision was. */
  lemma OutgoingParts(s: Stream, schema: SchemaDef, payload: Payload, encoded: Packet, lowChange: bool)
    ensures var (e, left) := s.Decide(schema, payload, encoded, lowChange);
      var (t, sent) := s.Outgoing(schema, payload, encoded, lowChange);
      && sent == e && t.queue == left && t.config == s.config
      && t.lastPayload == s.lastPayload[schema.name := payload]
      && t.lastDecoded == s.lastDecoded && t.expected == s.expected
      && t.lastPacket == s.lastPacket[schema.name := if e.delta then e.packet else encoded]
      && (s.config.DeltaMode() ==>
            t.deltaSeq == s.deltaSeq[schema.name := if e.delta then NextSeq(Get(s.deltaSeq, schema.name, 0)) else 0])
  {
    hide Stream.Decide, NextSeq;
  }

  /** What an immediate record leaves behind: the last payload and packet, and the sequence number. */
  lemma ImmediateEmission(s: Stream, schema: SchemaDef, payload: Payload, encoded: Packet, lowChange: bool)
    requires s.config.Immediate()
    ensures var (t, e) := s.Outgoing(schema, payload, encoded, lowChange);
      && e == s.Decide(schema, payload, encoded, lowChange).0
      && t.queue == s.queue && t.config == s.config
      && t.lastPayload == s.lastPayload[schema.name := payload]
      && t.lastDecoded == s.lastDecoded && t.expected == s.expected
      && (!e.delta ==> t.lastPacket == s.lastPacket[schema.name := encoded])
      && (e.delta ==> t.deltaSeq == s.deltaSeq[schema.name := NextSeq(Get(s.deltaSeq, schema.name, 0))])
      && (!e.delta && s.config.DeltaMode() ==> t.deltaSeq == s.deltaSeq[schema.name := 0])
  {
    hide *;
    ImmediateDecision(s, schema, payload, encoded, lowChange);
    OutgoingParts(s, schema, payload, encoded, lowChange);
  }

  // Keyframes.

  datatype Record = Record(schema: SchemaDef, payload: Payload, encoded: Packet, lowChange: bool)

  /** Deltas of one schema that carry a changed payload. */
  function ChangedDeltas(s: Stream, records: seq<Record>, name: string): nat
    decreases |records|
  {
    if records == [] then 0
    else
      var r := records[0];
      var (t, e) := s.Outgoing(r.schema, r.payload, r.encoded, r.lowChange);
      (if r.schema.name == name && e.delta && !s.Identical(name, r.payload) then 1 else 0)
      + ChangedDeltas(t, records[1..], name)
  }

  predicate NoKeyframe(s: Stream, records: seq<Record>, name: string)
    decreases |records|
  {
    records == [] ||
    var r := records[0];
    var (t, e) := s.Outgoing(r.schema, r.payload, r.encoded, r.lowChange);
    !(r.schema.name == name && e.keyframe) && NoKeyframe(t, records[1..], name)
  }

  /** A changed payload that is due is sent in full, as a keyframe. */
  lemma DueIsKeyframe(s: Stream, schema: SchemaDef, payload: Payload, encoded: Packet, lowChange: bool)
    requires s.config.DeltaMode() && !s.Identical(schema.name, payload)
    ensures var e := s.Outgoing(schema, payload, encoded, lowChange).1;
      e.keyframe <==> schema.name !in s.lastPayload || Get(s.records, schema.name, 0) >= s.config.keyframeInterval
    ensures var e := s.Outgoing(schema, payload, encoded, lowChange).1;
      e.keyframe ==> !e.delta && e.emitNow && e.packet == encoded
  {
  }

  /** While no keyframe is sent, the changed deltas fit in what remains of the interval. */
  lemma {:induction false} ChangedDeltasBetween(s: Stream, records: seq<Record>, name: string)
    requires s.config.DeltaMode() && NoKeyframe(s, records, name)
    ensures var n := Get(s.records, name, 0);
      ChangedDeltas(s, records, name) <= if n < s.config.keyframeInterval then s.config.keyframeInterval - n else 0
    decreases |records|
  {
    if records != [] {
      var r := records[0];
      var t := s.Outgoing(r.schema, r.payload, r.encoded, r.lowChange).0;
      ChangedDeltasBetween(t, records[1..], name);
    }
  }

  /** Keyframe bound: from one keyframe of a schema to the next, fewer changed deltas than the interval. */
  lemma KeyframeBound(s: Stream, key: Record, records: seq<Record>)
    requires s.config.DeltaMode() && s.config.keyframeInterval >= 1
    requires var (t, e) := s.Outgoing(key.schema, key.payload, key.encoded, key.lowChange);
      e.keyframe && NoKeyframe(t, records, key.schema.name)
    ensures var t := s.Outgoing(key.schema, key.payload, key.encoded, key.lowChange).0;
      ChangedDeltas(t, records, key.schema.name) <= s.config.keyframeInterval - 1
  {
    var t := s.Outgoing(key.schema, key.payload, key.encoded, key.lowChange).0;
    ChangedDeltasBetween(t, records, key.schema.name);
  }
}
