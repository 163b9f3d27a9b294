/**
 * Batching conserves packets. Without deltas and with the dictionary off, the packets expanded from everything emitted,
 * together with those that still wait in the queue, are those that were sent.
 */
module Batch {
  import opened Wire
  import opened Schema
  import opened Registry
  import opened Dictionary
  import opened Codec
  import opened Crc
  import opened Delta
  import opened StreamOptimizer
  import opened Runtime
  import opened Delivery
  import opened Fidelity

  /** The packet the payload is encoded to. */
  function Base(tx: Node, schema: SchemaDef, payload: Payload): Packet { tx.Send(schema.name, payload).2 }

  /** A packet that fits a batch entry and does not announce another envelope. */
  predicate Plain(p: Packet) { 1 <= |p| <= 65535 && p[0] !in {CONTROL, DELTA, BATCH, ENVELOPE} }

  predicate AllPlain(packets: seq<Packet>) { forall i :: 0 <= i < |packets| ==> Plain(packets[i]) }

  /** The packets a receiver makes of one emission, its CRC envelope opened. */
  function Contents(crc: bool, wire: Packet): seq<Packet>
  {
    var inner := if crc then match Unwrap(wire) case Packet(p) => p case _ => [] else wire;
    match ExpandIncoming(inner) case None => [] case Some(packets) => packets
  }

  /** Neither a control, a delta nor a CRC packet, and not a malformed batch. */
  predicate Expands(p: Packet)
  {
    p != [] && p[0] !in {CONTROL, DELTA, ENVELOPE} && ExpandIncoming(p).Some?
  }

  lemma PlainFirst(p: Packet)
    requires Plain(p)
    ensures Expands(p) && ExpandIncoming(p) == Some([p])
  {
  }

  lemma BatchFirst(packets: seq<Packet>)
    requires |packets| <= 255 && AllPlain(packets)
    ensures Expands(BuildBatch(packets)) && ExpandIncoming(BuildBatch(packets)) == Some(packets)
  {
    Sizes(packets);
    hide ExpandIncoming, AllPlain;
    BatchRoundTrip(packets);
  }

  lemma Sizes(packets: seq<Packet>)
    requires AllPlain(packets)
    ensures forall i :: 0 <= i < |packets| ==> |packets[i]| <= 65535
  {
  }

  lemma ContentsOf(tx: Node, p: Packet)
    requires Expands(p)
    ensures ExpandIncoming(p).Some? && Contents(tx.crc, tx.Envelope(p)) == ExpandIncoming(p).value
  {
    hide ExpandIncoming;
    UnwrapOfWrap(p);
    hide Wrap, Unwrap;
  }

  lemma ContentsOfPlain(tx: Node, p: Packet)
    requires Plain(p)
    ensures Contents(tx.crc, tx.Envelope(p)) == [p]
  {
    hide *;
    PlainFirst(p);
    ContentsOf(tx, p);
  }

  lemma ContentsOfBatch(tx: Node, packets: seq<Packet>)
    requires |packets| <= 255 && AllPlain(packets)
    ensures Contents(tx.crc, tx.Envelope(BuildBatch(packets))) == packets
  {
    hide *;
    BatchFirst(packets);
    ContentsOf(tx, BuildBatch(packets));
  }

  /** A payload that may be sent, and whose packet fits a batch entry. */
  ghost predicate Fine(tx: Node, schema: SchemaDef, payload: Payload)
  {
    Ready(tx, schema, payload) && |Base(tx, schema, payload)| <= 65535
  }

  /** The last packet of a schema is the encoding of its last payload, and the queue is short. */
  ghost predicate Keeping(tx: Node)
  {
    && tx.registry.Valid() && tx.dict.Inv() && !tx.dict.config.Active()
    && !tx.stream.config.deltaPackets && |tx.stream.queue| < tx.stream.config.maxBatch <= 255
    && AllPlain(tx.stream.queue)
    && forall name :: name in tx.stream.lastPayload ==> Kept(tx, name)
  }

  ghost predicate Kept(tx: Node, name: string)
    requires name in tx.stream.lastPayload
  {
    && tx.registry.FindByName(name).Some?
    && var schema := tx.registry.FindByName(name).value;
    && Fine(tx, schema, tx.stream.lastPayload[name])
    && Get(tx.stream.lastPacket, name, []) == Base(tx, schema, tx.stream.lastPayload[name])
  }

  /** A packet may be sent through the queue or at once, but not lost or invented. */
  predicate Conserves(before: seq<Packet>, sent: seq<Packet>, emitted: seq<Packet>, after: seq<Packet>)
  {
    multiset(emitted) + multiset(after) == multiset(before) + multiset(sent)
  }

  /** The packet the stream lets go for a record: the kept one for a repeated payload, otherwise its own. */
  function Leaving(s: Stream, schema: SchemaDef, payload: Payload, base: Packet): Packet
  {
    if s.config.enabled && s.Identical(schema.name, payload) then Get(s.lastPacket, schema.name, []) else base
  }

  /** Without deltas a record leaves at once, or waits in the queue, or completes a batch. */
  lemma PlainDecision(s: Stream, schema: SchemaDef, payload: Payload, base: Packet, lowChange: bool)
    requires !s.config.deltaPackets && |s.queue| < s.config.maxBatch
    ensures var (e, left) := s.Decide(schema, payload, base, lowChange);
      var out, longer := Leaving(s, schema, payload, base), s.queue + [base];
      || (e.emitNow && e.packet == out && left == s.queue)
      || (!e.emitNow && out == base && left == longer && |longer| < s.config.maxBatch)
      || (e.emitNow && out == base && e.packet == BuildBatch(longer) && left == [] && |longer| == s.config.maxBatch)
  {
    hide Stream.Identical, BuildBatch, Stream.NextDelta, Stream.Smaller;
  }

  /** Whichever way it goes, what leaves and what waits is what waited and the packet let go. */
  lemma DecisionConserves(tx: Node, schema: SchemaDef, payload: Payload, base: Packet, lowChange: bool)
    requires !tx.stream.config.deltaPackets && |tx.stream.queue| < tx.stream.config.maxBatch <= 255
    requires AllPlain(tx.stream.queue) && Plain(base) && Plain(Leaving(tx.stream, schema, payload, base))
    ensures var (e, left) := tx.stream.Decide(schema, payload, base, lowChange);
      var emitted := if e.emitNow then Contents(tx.crc, tx.Envelope(e.packet)) else [];
      && Conserves(tx.stream.queue, [Leaving(tx.stream, schema, payload, base)], emitted, left)
      && |left| < tx.stream.config.maxBatch && AllPlain(left)
      && (e.emitNow ==> Expands(e.packet))
  {
    hide *;
    PlainDecision(tx.stream, schema, payload, base, lowChange);
    var (e, left) := tx.stream.Decide(schema, payload, base, lowChange);
    var out, longer := Leaving(tx.stream, schema, payload, base), tx.stream.queue + [base];
    QueuePlus(tx.stream.queue, base);
    if e.emitNow && e.packet == out && left == tx.stream.queue {
      ContentsOfPlain(tx, out);
      ConservesOne(tx.stream.queue, out);
      PlainFirst(out);
    } else if e.emitNow {
      ContentsOfBatch(tx, longer);
      ConservesAll(tx.stream.queue, base);
      BatchFirst(longer);
      NothingPlain();
    } else {
      ConservesNone(tx.stream.queue, base);
    }
  }

  lemma QueuePlus(queue: seq<Packet>, base: Packet)
    requires AllPlain(queue) && Plain(base)
    ensures AllPlain(queue + [base])
  {
    hide Plain;
  }

  lemma NothingPlain()
    ensures AllPlain([])
  {
  }

  lemma ConservesOne(queue: seq<Packet>, out: Packet)
    ensures Conserves(queue, [out], [out], queue)
  {
  }

  lemma ConservesAll(queue: seq<Packet>, base: Packet)
    ensures Conserves(queue, [base], queue + [base], [])
  {
  }

  lemma ConservesNone(queue: seq<Packet>, base: Packet)
    ensures Conserves(queue, [base], [], queue + [base])
  {
  }

  datatype Op = Send(schema: SchemaDef, payload: Payload, lowChange: bool) | Flush

  function Steps(tx: Node, op: Op): (Node, Option<Packet>)
  {
    match op
    case Flush => tx.FlushStream()
    case Send(schema, payload, lowChange) =>
      var (tx1, _, wire) := tx.SendStream(schema.name, payload, lowChange);
      (tx1, wire)
  }

  function Emitted(tx: Node, wire: Option<Packet>): seq<Packet>
  {
    match wire case None => [] case Some(p) => Contents(tx.crc, p)
  }

  function Sends(tx: Node, op: Op): seq<Packet>
  {
    match op case Flush => [] case Send(schema, payload, _) => [Base(tx, schema, payload)]
  }

  /** A payload that repeats the last one does not change a zero sign, which the stream would not see. */
  predicate RepeatsExactly(tx: Node, schema: SchemaDef, payload: Payload)
  {
    tx.stream.config.enabled && tx.stream.Identical(schema.name, payload) ==>
      ZeroSignsKept(schema.fields, tx.stream.lastPayload[schema.name], payload)
  }

  ghost predicate Permitted(tx: Node, op: Op)
  {
    op.Send? ==> Fine(tx, op.schema, op.payload) && RepeatsExactly(tx, op.schema, op.payload)
  }

  /** Encoding neither looks at the stream nor changes the node. */
  lemma BaseOnly(tx: Node, schema: SchemaDef, payload: Payload)
    requires Fine(tx, schema, payload) && tx.dict.Inv() && !tx.dict.config.Active()
    ensures tx.Send(schema.name, payload) == (tx, Status.Ok, Base(tx, schema, payload))
    ensures Plain(Base(tx, schema, payload))
  {
    hide *;
    FineParts(tx, schema, payload);
    SentDict(tx, schema, payload);
    BaseStarts(tx, schema, payload);
  }

  lemma FineParts(tx: Node, schema: SchemaDef, payload: Payload)
    requires Fine(tx, schema, payload)
    ensures Ready(tx, schema, payload) && |Base(tx, schema, payload)| <= 65535
  {
    hide Base, Ready;
  }

  lemma BaseStarts(tx: Node, schema: SchemaDef, payload: Payload)
    requires Fine(tx, schema, payload) && tx.dict.Inv()
    ensures Base(tx, schema, payload) == tx.Send(schema.name, payload).2 && Plain(Base(tx, schema, payload))
  {
    BaseDelivered(tx, tx, schema, payload);
    hide Node.Send, Node.Receive, EncodeValues, Sendable, Dict.Inv, ClearOfMarker;
    PlainPacketStarts(tx, schema, payload, Base(tx, schema, payload));
  }

  lemma BaseElsewhere(tx: Node, tx1: Node, schema: SchemaDef, payload: Payload)
    requires tx1 == tx.(stream := tx1.stream)
    ensures Base(tx1, schema, payload) == Base(tx, schema, payload)
    ensures Fine(tx1, schema, payload) == Fine(tx, schema, payload)
  {
    SendIgnoresStream(tx, tx1, schema.name, payload);
    hide Node.Send, Sendable, PlainValues;
  }

  /** The payload the packet let go is the encoding of. */
  function LeavingPayload(tx: Node, schema: SchemaDef, payload: Payload): Payload
  {
    if tx.stream.config.enabled && tx.stream.Identical(schema.name, payload) then tx.stream.lastPayload[schema.name]
    else payload
  }

  /** The packet let go is the payload's own if and only if a repeat changes no zero sign. */
  lemma LeavingIsBase(tx: Node, schema: SchemaDef, payload: Payload)
    requires Keeping(tx) && Fine(tx, schema, payload)
    ensures var out := LeavingPayload(tx, schema, payload);
      && Fine(tx, schema, out) && SamePayload(schema.fields, out, payload)
      && Leaving(tx.stream, schema, payload, Base(tx, schema, payload)) == Base(tx, schema, out)
      && (Base(tx, schema, out) == Base(tx, schema, payload) <==> RepeatsExactly(tx, schema, payload))
  {
    hide *;
    FineParts(tx, schema, payload);
    ReadyParts(tx, schema, payload);
    SameAsItself(schema.fields, payload);
    LeavingCases(tx, schema, payload);
    if tx.stream.config.enabled && tx.stream.Identical(schema.name, payload) {
      IsKept(tx, schema, payload);
      var last := tx.stream.lastPayload[schema.name];
      FineParts(tx, schema, last);
      ReadyParts(tx, schema, last);
      EqualForStream(schema.fields, last, payload);
      KeepingParts(tx);
      BaseTells(tx, schema, last, payload);
    }
  }

  lemma LeavingCases(tx: Node, schema: SchemaDef, payload: Payload)
    ensures var repeated := tx.stream.config.enabled && tx.stream.Identical(schema.name, payload);
      && (repeated ==> schema.name in tx.stream.lastPayload)
      && (repeated ==> PayloadEquals(tx.stream.lastPayload[schema.name], payload))
      && LeavingPayload(tx, schema, payload) == (if repeated then tx.stream.lastPayload[schema.name] else payload)
      && Leaving(tx.stream, schema, payload, Base(tx, schema, payload))
         == (if repeated then Get(tx.stream.lastPacket, schema.name, []) else Base(tx, schema, payload))
      && (RepeatsExactly(tx, schema, payload) <==>
            (repeated ==> ZeroSignsKept(schema.fields, tx.stream.lastPayload[schema.name], payload)))
  {
    hide PayloadEquals, ZeroSignsKept, Base;
  }

  lemma KeepingParts(tx: Node)
    requires Keeping(tx)
    ensures tx.dict.Inv() && !tx.dict.config.Active() && tx.registry.Valid() && !tx.stream.config.deltaPackets
    ensures |tx.stream.queue| < tx.stream.config.maxBatch <= 255 && AllPlain(tx.stream.queue)
  {
    hide Kept, Dict.Inv, AllPlain, Registry.Valid;
  }

  /** A packet tells its payload. */
  lemma BaseTells(tx: Node, schema: SchemaDef, a: Payload, b: Payload)
    requires Ready(tx, schema, a) && Ready(tx, schema, b) && tx.dict.Inv()
    ensures Base(tx, schema, a) == Base(tx, schema, b) <==> a == b
  {
    hide *;
    BaseDelivered(tx, tx, schema, a);
    BaseDelivered(tx, tx, schema, b);
    BaseIs(tx, schema, a);
    BaseIs(tx, schema, b);
  }

  lemma BaseIs(tx: Node, schema: SchemaDef, payload: Payload)
    ensures Base(tx, schema, payload) == tx.Send(schema.name, payload).2
  {
    hide Node.Send;
  }

  lemma IsKept(tx: Node, schema: SchemaDef, payload: Payload)
    requires Keeping(tx) && Fine(tx, schema, payload) && schema.name in tx.stream.lastPayload
    ensures var last := tx.stream.lastPayload[schema.name];
      Fine(tx, schema, last) && Get(tx.stream.lastPacket, schema.name, []) == Base(tx, schema, last)
  {
    hide Base, Sendable, ClearOfMarker, AllPlain, Dict.Inv;
    assert Kept(tx, schema.name);
  }

  lemma KeptElsewhere(tx: Node, tx1: Node, name: string)
    requires tx1 == tx.(stream := tx1.stream) && name in tx.stream.lastPayload && name in tx1.stream.lastPayload
    requires tx1.stream.lastPayload[name] == tx.stream.lastPayload[name]
    requires Get(tx1.stream.lastPacket, name, []) == Get(tx.stream.lastPacket, name, [])
    requires Kept(tx, name)
    ensures Kept(tx1, name)
  {
    hide Base, Fine;
    BaseElsewhere(tx, tx1, tx.registry.FindByName(name).value, tx.stream.lastPayload[name]);
  }

  lemma FineKeeps(tx: Node, tx1: Node, schema: SchemaDef, payload: Payload)
    requires Keeping(tx) && Fine(tx, schema, payload) && tx1 == tx.(stream := tx1.stream)
    requires tx1.stream.lastPayload == tx.stream.lastPayload[schema.name := payload]
    requires tx1.stream.lastPacket == tx.stream.lastPacket[schema.name := Base(tx, schema, payload)]
    requires tx1.stream.config == tx.stream.config && AllPlain(tx1.stream.queue)
    requires |tx1.stream.queue| < tx1.stream.config.maxBatch
    ensures Keeping(tx1)
  {
    hide *;
    KeepingParts(tx);
    FineParts(tx, schema, payload);
    ReadyParts(tx, schema, payload);
    BaseElsewhere(tx, tx1, schema, payload);
    NowKept(tx1, schema, payload);
    forall name | name in tx1.stream.lastPayload ensures Kept(tx1, name) {
      if name != schema.name {
        WasKept(tx, name);
        OtherPacket(tx, tx1, schema.name, name);
        KeptElsewhere(tx, tx1, name);
      }
    }
    KeepingFrom(tx1);
  }

  lemma NowKept(tx: Node, schema: SchemaDef, payload: Payload)
    requires tx.registry.FindByName(schema.name) == Some(schema) && Fine(tx, schema, payload)
    requires schema.name in tx.stream.lastPayload && tx.stream.lastPayload[schema.name] == payload
    requires schema.name in tx.stream.lastPacket && tx.stream.lastPacket[schema.name] == Base(tx, schema, payload)
    ensures Kept(tx, schema.name)
  {
    hide Fine, Base;
  }

  lemma WasKept(tx: Node, name: string)
    requires Keeping(tx) && name in tx.stream.lastPayload
    ensures Kept(tx, name)
  {
    hide Kept, Dict.Inv, AllPlain, Registry.Valid;
  }

  lemma OtherPacket(tx: Node, tx1: Node, moved: string, name: string)
    requires moved in tx1.stream.lastPacket && name != moved
    requires tx1.stream.lastPacket == tx.stream.lastPacket[moved := tx1.stream.lastPacket[moved]]
    ensures Get(tx1.stream.lastPacket, name, []) == Get(tx.stream.lastPacket, name, [])
  {
  }

  lemma KeepingFrom(tx: Node)
    requires tx.registry.Valid() && tx.dict.Inv() && !tx.dict.config.Active()
    requires !tx.stream.config.deltaPackets && |tx.stream.queue| < tx.stream.config.maxBatch <= 255
    requires AllPlain(tx.stream.queue) && forall name :: name in tx.stream.lastPayload ==> Kept(tx, name)
    ensures Keeping(tx)
  {
    hide Kept, Dict.Inv, AllPlain, Registry.Valid;
  }

  /** What a send does to the node, in terms of the stream's decision. */
  lemma SendStreamIs(tx: Node, schema: SchemaDef, payload: Payload, lowChange: bool, base: Packet)
    requires tx.Send(schema.name, payload) == (tx, Status.Ok, base)
    requires tx.registry.FindByName(schema.name) == Some(schema) && !tx.stream.config.deltaPackets
    ensures var (e, left) := tx.stream.Decide(schema, payload, base, lowChange);
      var (tx1, status, wire) := tx.SendStream(schema.name, payload, lowChange);
      && status == Status.Ok && wire == (if e.emitNow then Some(tx.Envelope(e.packet)) else None)
      && tx1 == tx.(stream := tx1.stream) && tx1.stream.config == tx.stream.config && tx1.stream.queue == left
      && tx1.stream.lastPayload == tx.stream.lastPayload[schema.name := payload]
      && tx1.stream.lastPacket == tx.stream.lastPacket[schema.name := base]
  {
    hide Node.Send, Node.Envelope;
    NoDelta(tx.stream, schema, payload, base, lowChange);
    hide Stream.Decide;
  }

  lemma NoDelta(s: Stream, schema: SchemaDef, payload: Payload, base: Packet, lowChange: bool)
    requires !s.config.deltaPackets
    ensures !s.Decide(schema, payload, base, lowChange).0.delta
  {
    hide Stream.Identical, BuildBatch, Stream.NextDelta, Stream.Smaller;
  }

  /**
   * One send: what is emitted and what waits afterwards is what waited and the packet let go, which is the record's
   * own, so that nothing is lost or invented, if and only if a repeat of the last payload changes no zero sign.
   */
  lemma SendConserves(tx: Node, schema: SchemaDef, payload: Payload, lowChange: bool)
    requires Keeping(tx) && Fine(tx, schema, payload)
    ensures var (tx1, status, wire) := tx.SendStream(schema.name, payload, lowChange);
      && Keeping(tx1) && tx1 == tx.(stream := tx1.stream) && status == Status.Ok && Opens(tx, wire)
      && Conserves(tx.stream.queue, [Base(tx, schema, LeavingPayload(tx, schema, payload))], Emitted(tx, wire),
                   tx1.stream.queue)
    ensures var (tx1, _, wire) := tx.SendStream(schema.name, payload, lowChange);
      var own := Conserves(tx.stream.queue, [Base(tx, schema, payload)], Emitted(tx, wire), tx1.stream.queue);
      own <==> RepeatsExactly(tx, schema, payload)
  {
    hide *;
    var base, out := Base(tx, schema, payload), LeavingPayload(tx, schema, payload);
    KeepingParts(tx);
    BaseOnly(tx, schema, payload);
    FineParts(tx, schema, payload);
    ReadyParts(tx, schema, payload);
    LeavingIsBase(tx, schema, payload);
    BaseOnly(tx, schema, out);
    DecisionConserves(tx, schema, payload, base, lowChange);
    SendStreamIs(tx, schema, payload, lowChange, base);
    var (tx1, _, wire) := tx.SendStream(schema.name, payload, lowChange);
    var e := tx.stream.Decide(schema, payload, base, lowChange).0;
    EmittedIs(tx, e.emitNow, e.packet);
    FineKeeps(tx, tx1, schema, payload);
    ConservesSame(tx.stream.queue, base, Base(tx, schema, out), Emitted(tx, wire), tx1.stream.queue);
  }

  /** A wire is an envelope of something the receiver expands. */
  ghost predicate Opens(tx: Node, wire: Option<Packet>)
  {
    wire.Some? ==> exists p: Packet :: wire.value == tx.Envelope(p) && Expands(p)
  }

  lemma EmittedIs(tx: Node, now: bool, p: Packet)
    requires now ==> Expands(p)
    ensures var wire := if now then Some(tx.Envelope(p)) else None;
      Emitted(tx, wire) == (if now then Contents(tx.crc, tx.Envelope(p)) else []) && Opens(tx, wire)
  {
    hide Contents, Node.Envelope, Expands;
  }

  lemma ConservesSame(before: seq<Packet>, a: Packet, b: Packet, emitted: seq<Packet>, after: seq<Packet>)
    requires Conserves(before, [b], emitted, after)
    ensures Conserves(before, [a], emitted, after) <==> b == a
  {
    if Conserves(before, [a], emitted, after) {
      assert (multiset(before) + multiset([a]))[a] == (multiset(before) + multiset([b]))[a];
    }
  }

  lemma FlushConserves(tx: Node)
    requires Keeping(tx)
    ensures var (tx1, wire) := tx.FlushStream();
      && Keeping(tx1) && tx1 == tx.(stream := tx1.stream) && tx1.stream.queue == [] && Opens(tx, wire)
      && Conserves(tx.stream.queue, [], Emitted(tx, wire), tx1.stream.queue)
  {
    hide *;
    KeepingParts(tx);
    ContentsOfBatch(tx, tx.stream.queue);
    KeepingFlushed(tx);
    FlushIs(tx);
    BatchFirst(tx.stream.queue);
    EmittedIs(tx, tx.stream.queue != [], BuildBatch(tx.stream.queue));
    ConservesFlush(tx.stream.queue);
  }

  lemma FlushIs(tx: Node)
    ensures var (tx1, wire) := tx.FlushStream();
      && tx1 == tx.(stream := tx1.stream) && tx1.stream.queue == []
      && wire == (if tx.stream.queue != [] then Some(tx.Envelope(BuildBatch(tx.stream.queue))) else None)
  {
    hide BuildBatch, Node.Envelope;
  }

  lemma ConservesFlush(queue: seq<Packet>)
    ensures Conserves(queue, [], queue, []) && Conserves([], [], [], [])
  {
  }

  lemma KeepingFlushed(tx: Node)
    requires Keeping(tx)
    ensures Keeping(tx.FlushStream().0)
  {
    var tx1 := tx.FlushStream().0;
    hide Node.Envelope, BuildBatch, Kept, Dict.Inv;
    forall name | name in tx1.stream.lastPayload ensures Kept(tx1, name) { KeptElsewhere(tx, tx1, name); }
  }

  // Whole runs.

  /** Everything a run emitted, expanded; the state it ends in. */
  function Run(tx: Node, ops: seq<Op>): (Node, seq<Packet>)
    decreases |ops|
  {
    if ops == [] then (tx, [])
    else
      var (tx1, wire) := Steps(tx, ops[0]);
      var (last, rest) := Run(tx1, ops[1..]);
      (last, Emitted(tx, wire) + rest)
  }

  function AllSent(tx: Node, ops: seq<Op>): seq<Packet>
    decreases |ops|
  {
    if ops == [] then [] else Sends(tx, ops[0]) + AllSent(tx, ops[1..])
  }

  lemma {:induction false} AllSentElsewhere(tx: Node, tx1: Node, ops: seq<Op>)
    requires tx1 == tx.(stream := tx1.stream)
    ensures AllSent(tx1, ops) == AllSent(tx, ops)
    decreases |ops|
  {
    if ops != [] {
      if ops[0].Send? { BaseElsewhere(tx, tx1, ops[0].schema, ops[0].payload); }
      hide Base;
      AllSentElsewhere(tx, tx1, ops[1..]);
    }
  }

  lemma StepConserves(tx: Node, op: Op)
    requires Keeping(tx) && Permitted(tx, op)
    ensures var (tx1, wire) := Steps(tx, op);
      && Keeping(tx1) && tx1 == tx.(stream := tx1.stream) && Opens(tx, wire)
      && Conserves(tx.stream.queue, Sends(tx, op), Emitted(tx, wire), tx1.stream.queue)
  {
    hide Keeping, Conserves, Base, Fine, Node.SendStream, Node.FlushStream, RepeatsExactly, Opens, Emitted,
      LeavingPayload;
    match op
    case Flush => FlushConserves(tx);
    case Send(schema, payload, lowChange) => SendConserves(tx, schema, payload, lowChange);
  }

  lemma ConservesTrans(before: seq<Packet>, sent0: seq<Packet>, emitted0: seq<Packet>, between: seq<Packet>,
                       sent1: seq<Packet>, emitted1: seq<Packet>, after: seq<Packet>)
    requires Conserves(before, sent0, emitted0, between) && Conserves(between, sent1, emitted1, after)
    ensures Conserves(before, sent0 + sent1, emitted0 + emitted1, after)
  {
    var e0, e1, a, b, p := multiset(emitted0), multiset(emitted1), multiset(after), multiset(between), multiset(before);
    calc {
      multiset(emitted0 + emitted1) + a;
      (e0 + e1) + a;
      e0 + (e1 + a);
      e0 + (b + multiset(sent1));
      (e0 + b) + multiset(sent1);
      (p + multiset(sent0)) + multiset(sent1);
      p + multiset(sent0 + sent1);
    }
  }

  ghost predicate AllPermitted(tx: Node, ops: seq<Op>)
    decreases |ops|
  {
    ops == [] || (Permitted(tx, ops[0]) && AllPermitted(Steps(tx, ops[0]).0, ops[1..]))
  }

  /**
   * Batch conservation over whole runs of sends and flushes: as multisets, the packets expanded from everything
   * emitted plus the packets still queued are the packets queued at the start plus the packets sent, and the queue
   * never reaches the batch size.
   */
  lemma {:induction false} RunConserves(tx: Node, ops: seq<Op>)
    requires Keeping(tx) && AllPermitted(tx, ops)
    ensures var (last, emitted) := Run(tx, ops);
      && Keeping(last) && |last.stream.queue| < last.stream.config.maxBatch
      && Conserves(tx.stream.queue, AllSent(tx, ops), emitted, last.stream.queue)
    decreases |ops|
  {
    hide *;
    if ops == [] {
      NoOps(tx);
    } else {
      PermittedLater(tx, ops);
      StepConserves(tx, ops[0]);
      var (tx1, wire) := Steps(tx, ops[0]);
      AllSentElsewhere(tx, tx1, ops[1..]);
      RunConserves(tx1, ops[1..]);
      RunLater(tx, ops);
      var (last, rest) := Run(tx1, ops[1..]);
      ConservesTrans(tx.stream.queue, Sends(tx, ops[0]), Emitted(tx, wire), tx1.stream.queue, AllSent(tx, ops[1..]),
        rest, last.stream.queue);
    }
  }

  lemma PermittedLater(tx: Node, ops: seq<Op>)
    requires AllPermitted(tx, ops) && ops != []
    ensures Permitted(tx, ops[0]) && AllPermitted(Steps(tx, ops[0]).0, ops[1..])
  {
    hide Permitted, Steps;
  }

  lemma NoOps(tx: Node)
    requires Keeping(tx)
    ensures Run(tx, []) == (tx, []) && AllSent(tx, []) == [] && |tx.stream.queue| < tx.stream.config.maxBatch
    ensures Conserves(tx.stream.queue, [], [], tx.stream.queue)
  {
    hide Kept, AllPlain;
  }

  lemma RunLater(tx: Node, ops: seq<Op>)
    requires ops != []
    ensures var (tx1, wire) := Steps(tx, ops[0]);
      var (last, rest) := Run(tx1, ops[1..]);
      && Run(tx, ops) == (last, Emitted(tx, wire) + rest)
      && AllSent(tx, ops) == Sends(tx, ops[0]) + AllSent(tx, ops[1..])
  {
    hide Steps, Emitted, Sends;
  }
}
