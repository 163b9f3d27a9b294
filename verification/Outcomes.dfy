/** Which status every operation of the runtime answers with, and what a failure leaves as it was. */
module Outcomes {
  import opened Wire
  import opened Schema
  import opened Registry
  import opened Dictionary
  import opened Codec
  import opened RuntimeOptimizer
  import opened Corruption
  import opened Crc
  import opened Delta
  import opened StreamOptimizer
  import opened Runtime
  import opened Synchronizer
  import opened Resync

  // Sending.

  /** A string or blob of the payload is longer than its field allows. */
  predicate OverLimit(fields: seq<FieldDef>, payload: Payload)
  {
    exists i :: 0 <= i < |fields| && fields[i].name in payload && !WithinLimit(fields[i], payload[fields[i].name])
  }

  lemma WithinIsValidated(fields: seq<FieldDef>, payload: Payload)
    requires Fits(fields, payload)
    ensures Validated(fields, Ordered(fields, payload)) <==> !OverLimit(fields, payload)
  {
    hide WithinLimit;
    var values := Ordered(fields, payload);
    forall i | 0 <= i < |fields| ensures values[i] == payload[fields[i].name] {}
  }

  /** What a send is refused for, in this order; a refused send changes nothing and yields nothing. */
  lemma SendRefused(node: Node, name: string, payload: Payload)
    ensures var (after, status, p) := node.Send(name, payload);
      var schema := node.registry.FindByName(name);
      && (status == SchemaNotFound <==> schema.None?)
      && (status == MappingFailed <==> schema.Some? && !Fits(schema.value.fields, payload))
      && (status == SchemaMismatch <==>
            schema.Some? && Fits(schema.value.fields, payload) && OverLimit(schema.value.fields, payload))
      && (status in {SchemaNotFound, MappingFailed, SchemaMismatch} ==> after == node && p == [])
      && (status in {Status.Ok, DecodeFailed} <==>
            schema.Some? && Fits(schema.value.fields, payload) && !OverLimit(schema.value.fields, payload))
      && after == node.(dict := after.dict)
  {
    var schema := node.registry.FindByName(name);
    if schema.Some? && Fits(schema.value.fields, payload) { WithinIsValidated(schema.value.fields, payload); }
    hide Validated, OverLimit, Fits, EncodeValues, Optimize, Ordered;
  }

  /**
   * A send that is not refused: the plain packet, or what the optimizer makes of it where it is on. Only a schema with
   * too many fields for a bitmap fails there, and then the strings of the packet have been stored already.
   */
  lemma SendEncodes(node: Node, schema: SchemaDef, payload: Payload)
    requires node.registry.FindByName(schema.name) == Some(schema) && Sendable(schema.fields, payload)
    ensures var (after, status, p) := node.Send(schema.name, payload);
      var (wire, next) := EncodeValues(node.dict, Ordered(schema.fields, payload));
      var plain := LE(schema.messageId, 2) + wire;
      && after == node.(dict := next)
      && (!(node.optimizer && node.omission) ==> status == Status.Ok && p == plain)
      && (node.optimizer && node.omission && |schema.fields| <= 2040 ==>
            status == Status.Ok && p == Optimize(schema.fields, plain).packet)
      && (node.optimizer && node.omission && |schema.fields| > 2040 ==> status == DecodeFailed && p == [])
  {
    var values := Ordered(schema.fields, payload);
    var (wire, next) := EncodeValues(node.dict, values);
    var plain := LE(schema.messageId, 2) + wire;
    EncodedSpans(schema.fields, node.dict, values);
    SpanUnlimited(schema.fields, wire);
    assert plain[2..] == wire;
    hide EncodeValues, Validated, Fits, Span, LE, Ordered, AllCarried;
    if |schema.fields| <= 2040 { ZeroOmissionRestores(schema.fields, plain); }
    hide Compressed, IsOptimized, Deoptimize;
  }

  /**
   * A stream send fails as the send fails, with nothing emitted and the stream as it was. Otherwise what is emitted is
   * the stream's packet, in an envelope exactly when envelopes are on.
   */
  lemma StreamSend(node: Node, name: string, payload: Payload, lowChange: bool)
    ensures var (sent, status, base) := node.Send(name, payload);
      var (after, streamed, p) := node.SendStream(name, payload, lowChange);
      && streamed == status && after == sent.(stream := after.stream)
      && (status != Status.Ok ==> p == None && after.stream == node.stream)
      && (status == Status.Ok ==>
            && node.registry.FindByName(name).Some?
            && var (next, e) := node.stream.Outgoing(node.registry.FindByName(name).value, payload, base, lowChange);
               && after.stream == next
               && p == if e.emitNow then Some(if node.crc then Wrap(e.packet) else e.packet) else None)
  {
    SendRefused(node, name, payload);
    hide Node.Send, Stream.Outgoing, Wrap, Fits, OverLimit;
  }

  // Receiving one packet.

  /** The optimizer's marker is looked for only where the optimizer is on. */
  lemma PlainForm(node: Node, schema: SchemaDef, p: Packet)
    ensures !node.optimizer || |p| < 3 || p[2] != 0xFD ==> node.Plain(schema, p) == Some(p)
    ensures node.optimizer && |p| >= 3 && p[2] == 0xFD ==>
      var r := Deoptimize(schema.fields, p);
      node.Plain(schema, p) == if r.ok then Some(r.packet) else None
  {
    hide Deoptimize;
  }

  /** A packet of no registered schema is turned away unread. */
  lemma ReceiveUnknown(node: Node, p: Packet)
    ensures var (after, status, m) := node.Receive(p);
      && (status == PacketTooSmall <==> |p| < 2)
      && (status == SchemaNotFound <==> |p| >= 2 && node.registry.FindById(Word(p)).None?)
      && (status in {PacketTooSmall, SchemaNotFound} ==> after == node && m.payload == map[])
  {
    hide Node.ReceiveWithSchema, Word, Registry.FindById;
    if |p| >= 2 && node.registry.FindById(Word(p)).Some? {
      ReadStatus(node, node.registry.FindById(Word(p)).value, p);
    }
  }

  lemma ReadStatus(node: Node, schema: SchemaDef, p: Packet)
    ensures node.ReceiveWithSchema(schema, p).1 in {Status.Ok, DecodeFailed, CorruptionDetected, SchemaMismatch}
    ensures node.ReceiveWithSchema(schema, p).0 == node.(dict := node.ReceiveWithSchema(schema, p).0.dict)
    ensures node.ReceiveWithSchema(schema, p).1 != Status.Ok ==> node.ReceiveWithSchema(schema, p).2 == map[]
  {
    hide Node.Plain, Check, DecodeValues, Validated, Named;
  }

  /**
   * A packet whose plain form is not in the grammar teaches nothing: an optimized packet that does not restore fails
   * to decode, and everything else is corrupt. The dictionary is as it was.
   */
  lemma MalformedRefused(node: Node, schema: SchemaDef, p: Packet)
    requires |p| >= 2 && node.registry.FindById(Word(p)) == Some(schema)
    ensures var plain := node.Plain(schema, p);
      && (plain.None? ==> node.Receive(p) == (node, DecodeFailed, Message(schema.name, map[])))
      && (plain.Some? && !WellFormed(schema, plain.value) ==>
            node.Receive(p) == (node, CorruptionDetected, Message(schema.name, map[])))
  {
    hide Node.Plain, DecodeValues, Validated, Named, Word;
    if node.Plain(schema, p).Some? { CheckIsGrammar(schema, node.Plain(schema, p).value); }
    hide Check, WellFormed;
  }

  /** The strings of a packet are learned up to where decoding stops, also when the reception then fails. */
  lemma FailureStillTeaches(node: Node, schema: SchemaDef, p: Packet)
    requires |p| >= 2 && node.registry.FindById(Word(p)) == Some(schema)
    requires node.Plain(schema, p).Some? && WellFormed(schema, node.Plain(schema, p).value)
    ensures var body := node.Plain(schema, p).value[2..];
      node.Receive(p).0 == node.(dict := DecodeValues(schema.fields, node.dict, body).dict)
  {
    CheckIsGrammar(schema, node.Plain(schema, p).value);
    hide Node.Plain, DecodeValues, Validated, Named, Word, Check, WellFormed;
  }

  /** Whatever is received, only the dictionary may change, and a failure yields no payload. */
  lemma ReceiveKeeps(node: Node, p: Packet)
    ensures var (after, status, m) := node.Receive(p);
      after == node.(dict := after.dict) && (status != Status.Ok ==> m.payload == map[])
  {
    hide Node.ReceiveWithSchema, Word, Registry.FindById;
    if |p| >= 2 && node.registry.FindById(Word(p)).Some? {
      ReadStatus(node, node.registry.FindById(Word(p)).value, p);
    }
  }

  // Receiving from a stream.

  /** Six bytes, a registered schema, something to build on and the expected number: otherwise nothing happens. */
  lemma DeltaRefused(node: Node, p: Packet)
    requires p != [] && p[0] == 0xFB
    ensures |p| < 6 ==> node.ReceiveOpened(p) == (node, DecodeFailed, [])
    ensures |p| >= 6 ==>
      match node.registry.FindById(Word(p[1..]))
      case None => node.ReceiveOpened(p) == (node, SchemaNotFound, [])
      case Some(schema) =>
        schema.name !in node.stream.lastDecoded || Word(p[3..]) != Get(node.stream.expected, schema.name, 0) ==>
          node.ReceiveOpened(p) == (node, DecodeFailed, [])
  {
    hide Node.Receive, Grow, Overlay, PlainPacket, Word, Registry.FindById, Bits.Flags;
  }

  /** A delta that cannot be applied is a failure to decode, or an exception where it ends too early. */
  lemma DeltaFails(node: Node, schema: SchemaDef, p: Packet)
    requires |p| >= 6 && p[0] == 0xFB && node.registry.FindById(Word(p[1..])) == Some(schema)
    ensures node.stream.Expand(schema, p).Refused? ==> node.ReceiveOpened(p) == (node, DecodeFailed, [])
    ensures node.stream.Expand(schema, p).Exception? ==> node.ReceiveOpened(p) == (node, Status.Threw, [])
  {
    hide Node.Receive, Stream.Expand, Word, Registry.FindById;
  }

  /** A delta delivers one message or none, and when it delivers none the stream is as it was. */
  lemma DeltaAllOrNothing(node: Node, p: Packet)
    requires p != [] && p[0] == 0xFB
    ensures var (after, status, ms) := node.ReceiveOpened(p);
      && (status == Status.Ok ==> |ms| == 1)
      && (status != Status.Ok ==> ms == [] && after == node.(dict := after.dict))
  {
    assert node.ReceiveOpened(p) == node.ReceiveDelta(p);
    if |p| >= 6 && node.registry.FindById(Word(p[1..])).Some? {
      var schema := node.registry.FindById(Word(p[1..])).value;
      hide Stream.Expand, Word, Registry.FindById, Node.Receive;
      match node.stream.Expand(schema, p)
      case Expanded(full, _) => ReceiveKeeps(node, full);
      case _ =>
    }
  }

  /** A batch that does not split is a failure to decode. */
  lemma MalformedBatch(node: Node, p: Packet)
    requires p != [] && p[0] == 0xFC && ExpandIncoming(p) == None
    ensures node.ReceiveOpened(p) == (node, DecodeFailed, [])
  {
    hide ExpandIncoming;
  }

  lemma NothingEach(node: Node)
    ensures node.ReceiveEach([]) == (node, Status.Ok, [])
  {
  }

  /** The first of several packets, and what is received after it. */
  lemma EachFirst(node: Node, packets: seq<Packet>)
    requires packets != []
    ensures var (after, status, m) := node.Receive(packets[0]);
      var next := after.(stream := after.stream.RecordDecoded(m.name, m.payload));
      var (last, s, ms) := next.ReceiveEach(packets[1..]);
      node.ReceiveEach(packets) == if status != Status.Ok then (after, status, []) else (last, s, [m] + ms)
  {
    hide Node.Receive, Stream.RecordDecoded;
  }

  /** Packets received one after another: the second part is reached only through a first part without failure. */
  lemma {:induction false} EachInParts(node: Node, a: seq<Packet>, b: seq<Packet>)
    ensures var (mid, first, ms) := node.ReceiveEach(a);
      node.ReceiveEach(a + b)
        == if first != Status.Ok then (mid, first, ms)
           else (mid.ReceiveEach(b).0, mid.ReceiveEach(b).1, ms + mid.ReceiveEach(b).2)
    decreases |a|
  {
    hide *;
    if a == [] {
      NothingEach(node);
      assert a + b == b;
      var ms := node.ReceiveEach(b).2;
      assert [] + ms == ms;
    } else {
      var (after, status, m) := node.Receive(a[0]);
      var next := after.(stream := after.stream.RecordDecoded(m.name, m.payload));
      assert (a + b)[0] == a[0] && (a + b)[1..] == a[1..] + b;
      EachFirst(node, a);
      EachFirst(node, a + b);
      EachInParts(next, a[1..], b);
      var (mid, _, ms) := next.ReceiveEach(a[1..]);
      assert [m] + (ms + mid.ReceiveEach(b).2) == [m] + ms + mid.ReceiveEach(b).2;
    }
  }

  /** The first packet that fails ends the reception: what came before it is delivered, what follows is not read. */
  lemma FirstFailureEnds(node: Node, a: seq<Packet>, bad: Packet, b: seq<Packet>)
    requires node.ReceiveEach(a).1 == Status.Ok && node.ReceiveEach(a).0.Receive(bad).1 != Status.Ok
    ensures var (mid, _, ms) := node.ReceiveEach(a);
      node.ReceiveEach(a + [bad] + b) == (mid.Receive(bad).0, mid.Receive(bad).1, ms)
  {
    hide *;
    var (mid, _, ms) := node.ReceiveEach(a);
    EachInParts(node, a, [bad] + b);
    assert a + [bad] + b == a + ([bad] + b) && ([bad] + b)[0] == bad;
    EachFirst(mid, [bad] + b);
    assert ms + [] == ms;
  }

  /** An envelope opens exactly when it has its five bytes and the checksum of what follows them in bytes 1 to 4. */
  lemma EnvelopeOutcome(node: Node, p: Packet)
    requires p != [] && p[0] == 0xF9
    ensures |p| < 5 ==> node.ReceiveStream(p) == (node, CorruptionDetected, [])
    ensures |p| >= 5 ==>
      node.ReceiveStream(p)
        == if CrcOfBytes(p[1..5]) == Crc32(p[5..]) then node.ReceiveOpened(p[5..]) else (node, CorruptionDetected, [])
  {
    hide Crc32, CrcOfBytes, Node.ReceiveOpened;
  }

  /** Nothing to receive. */
  lemma NothingReceived(node: Node)
    ensures node.ReceiveStream([]) == (node, DecodeFailed, [])
  {
  }

  // The delta state.

  /** After the delta state is reset, every schema starts over at both ends; what waits for a batch still waits. */
  lemma AfterDeltaReset(s: Stream, schema: SchemaDef, payload: Payload, encoded: Packet, lowChange: bool, d: Packet)
    ensures var t := s.ResetDeltaState();
      && t.queue == s.queue && t.samples == s.samples && t.lastPacket == s.lastPacket && t.config == s.config
      && t.Expand(schema, d) == Refused
      && (s.config.DeltaMode() ==>
            var (u, e) := t.Outgoing(schema, payload, encoded, lowChange);
            e.keyframe && e.emitNow && e.packet == encoded && Get(u.deltaSeq, schema.name, 0) == 0)
  {
    hide Stream.NextDelta, BuildBatch, PayloadEquals, Grow, Overlay, Word;
  }

  // Unframed streams.

  lemma FoundStatus(node: Node, found: seq<Recovered>)
    ensures ReceiveFound(node, found).1 != SynchronizationFailed
    decreases |found|
  {
    if found != [] {
      var p := found[0].packet;
      if |p| >= 2 && node.registry.FindById(Word(p)).Some? {
        ReadStatus(node, node.registry.FindById(Word(p)).value, p);
      }
      hide Node.ReceiveWithSchema, Word, Registry.FindById;
      FoundStatus(node.Receive(p).0, found[1..]);
    }
  }

  /** Synchronization fails exactly when no packet starts anywhere in the bytes. */
  lemma SynchronizationExactly(node: Node, stream: seq<byte>, limit: nat)
    ensures ReceiveRecovered(node, stream, limit).1 == SynchronizationFailed
      <==> forall at :: 0 <= at < |stream| ==> PacketAt(node.registry, stream[at..]).None?
    ensures ReceiveRecovered(node, stream, limit).1 == SynchronizationFailed ==>
      ReceiveRecovered(node, stream, limit) == (node, SynchronizationFailed, [])
  {
    hide PacketAt, ReceiveFound, RecoveredAt;
    NextIsFirst(node.registry, stream, 0);
    var next := NextFrom(node.registry, stream, 0);
    var found := RecoverFrom(node.registry, stream, 0);
    FoundStatus(node, Limited(found, limit));
  }
}
