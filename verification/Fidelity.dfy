/** Lossless delivery: whatever the sender puts on an in-order channel, the receiver takes off as it was sent. */
module Fidelity {
  import opened Wire
  import opened Schema
  import opened Registry
  import opened Dictionary
  import opened Codec
  import opened Crc
  import opened Delta
  import opened StreamOptimizer
  import opened Runtime
  import opened Delivery

  // The coupling of sender and receiver.

  /** For every schema, the dictionary the packet kept for re-sending was encoded with. */
  type Kept = map<string, Dict>

  /** That packet is what the last payload was encoded to. */
  ghost predicate KeptPacket(tx: Node, kept: Kept, schema: SchemaDef)
    requires schema.name in tx.stream.lastPayload
  {
    var name, last := schema.name, tx.stream.lastPayload[schema.name];
    && Ready(tx, schema, last) && name in kept && kept[name].Inv() && kept[name].config == tx.dict.config
    && Get(tx.stream.lastPacket, name, []) == tx.(dict := kept[name]).Send(name, last).2
  }

  /** The receiver's base for one schema is the sender's, up to zero signs, and the sequence numbers agree. */
  ghost predicate CoupledAt(tx: Node, rx: Node, kept: Kept, schema: SchemaDef)
  {
    var name := schema.name;
    && name in rx.stream.lastDecoded && name in tx.stream.lastPayload
    && Sendable(schema.fields, tx.stream.lastPayload[name])
    && Sendable(schema.fields, rx.stream.lastDecoded[name])
    && SamePayload(schema.fields, rx.stream.lastDecoded[name], tx.stream.lastPayload[name])
    && (tx.stream.config.DeltaMode() ==> Get(rx.stream.expected, name, 0) == Get(tx.stream.deltaSeq, name, 0))
    && (tx.stream.config.Resends() ==> KeptPacket(tx, kept, schema))
  }

  /** Sender and receiver agree; the sender does not batch. */
  ghost predicate Coupled(tx: Node, rx: Node, kept: Kept)
  {
    && tx.registry.Valid() && rx.registry == tx.registry
    && rx.optimizer == tx.optimizer && rx.dict == tx.dict && tx.dict.Inv()
    && tx.stream.config.Immediate()
    && (forall name :: name in tx.stream.lastPayload ==> tx.registry.FindByName(name).Some?)
    && (forall name :: name in tx.stream.lastPayload ==> CoupledAt(tx, rx, kept, tx.registry.FindByName(name).value))
  }

  /** The receiver's bases are exactly the sender's. */
  predicate EqualBases(tx: Node, rx: Node)
  {
    forall name :: name in tx.stream.lastPayload ==>
      name in rx.stream.lastDecoded && rx.stream.lastDecoded[name] == tx.stream.lastPayload[name]
  }

  // One record.

  datatype Sent = Sent(schema: SchemaDef, payload: Payload, lowChange: bool)

  /** What the stream makes of a record. */
  function EmissionOf(tx: Node, r: Sent): Emission
  {
    tx.stream.Outgoing(r.schema, r.payload, tx.Send(r.schema.name, r.payload).2, r.lowChange).1
  }

  /** What it is delivered as: the merge for a delta, the last payload for a re-sent packet, otherwise the payload. */
  ghost predicate ArrivesAs(tx: Node, rx: Node, r: Sent, e: Emission, m: Payload)
  {
    var fields, name := r.schema.fields, r.schema.name;
    if e.delta then
      && name in tx.stream.lastPayload && name in rx.stream.lastDecoded
      && Fits(fields, r.payload) && Fits(fields, rx.stream.lastDecoded[name])
      && m == Named(fields, Merge(fields, rx.stream.lastDecoded[name], tx.stream.lastPayload[name], r.payload))
    else if e.reused then
      && name in tx.stream.lastPayload && m == tx.stream.lastPayload[name]
      && PayloadEquals(tx.stream.lastPayload[name], r.payload)
    else m == r.payload
  }

  /** What one record does: it is delivered once, and both sides move on together. */
  ghost predicate Carries(tx: Node, rx: Node, kept: Kept, r: Sent, tx1: Node, rx1: Node, received: Status,
                          messages: seq<Message>)
  {
    && DeliveredAs(r, (received, messages)) && ArrivesAs(tx, rx, r, EmissionOf(tx, r), messages[0].payload)
    && tx1 == tx.(dict := tx1.dict, stream := tx1.stream) && tx1.stream.config == tx.stream.config
    && tx1.stream.lastPayload == tx.stream.lastPayload[r.schema.name := r.payload]
    && rx1.stream.lastDecoded == rx.stream.lastDecoded[r.schema.name := messages[0].payload]
    && Coupled(tx1, rx1, Keep(tx, kept, r))
  }

  /** A packet that is sent again refers only to strings that are still bound as when it was encoded. */
  predicate Binds(tx: Node, kept: Kept, r: Sent)
  {
    var fields, name := r.schema.fields, r.schema.name;
    if EmissionOf(tx, r).reused && name in kept && name in tx.stream.lastPayload
       && Fits(fields, tx.stream.lastPayload[name])
    then StillBound(kept[name], tx.dict, Ordered(fields, tx.stream.lastPayload[name]))
    else true
  }

  /** Every record is encoded, and its packet kept, with the dictionary as it then is. */
  function Keep(tx: Node, kept: Kept, r: Sent): Kept { kept[r.schema.name := tx.dict] }

  predicate DeliveredAs(r: Sent, outcome: (Status, seq<Message>))
  {
    && outcome.0 == Status.Ok && |outcome.1| == 1 && outcome.1[0].name == r.schema.name
    && SamePayload(r.schema.fields, outcome.1[0].payload, r.payload)
  }

  lemma SendStreamParts(tx: Node, schema: SchemaDef, payload: Payload, lowChange: bool)
    requires tx.registry.FindByName(schema.name) == Some(schema) && tx.Send(schema.name, payload).1 == Status.Ok
    requires tx.stream.config.Immediate()
    ensures var (after, _, base) := tx.Send(schema.name, payload);
      var (stream, e) := tx.stream.Outgoing(schema, payload, base, lowChange);
      tx.SendStream(schema.name, payload, lowChange)
        == (after.(stream := stream), Status.Ok, Some(tx.Envelope(e.packet)))
  {
    var base := tx.Send(schema.name, payload).2;
    ImmediateEmission(tx.stream, schema, payload, base, lowChange);
    ImmediateDecision(tx.stream, schema, payload, base, lowChange);
    hide Node.Send, Stream.Outgoing, Stream.Decide, Stream.NextDelta, Stream.Identical, Node.Envelope;
  }

  /** The sender's side of a record. */
  ghost predicate Moved(tx: Node, tx1: Node, r: Sent, delta: bool)
  {
    var name, s, t := r.schema.name, tx.stream, tx1.stream;
    && tx1 == tx.(dict := tx1.dict, stream := t) && t.config == s.config && tx1.dict.Inv()
    && tx1.dict == tx.Send(name, r.payload).0.dict
    && t.lastPayload == s.lastPayload[name := r.payload]
    && (!delta ==> t.lastPacket == s.lastPacket[name := tx.Send(name, r.payload).2])
    && (delta ==> s.config.DeltaMode())
    && (s.config.DeltaMode() ==>
          t.deltaSeq == s.deltaSeq[name := if delta then NextSeq(Get(s.deltaSeq, name, 0)) else 0])
  }

  /** The receiver's side. */
  function Advanced(rx: Node, dict: Dict, name: string, m: Payload, delta: bool): Node
  {
    rx.(dict := dict,
        stream := if delta then rx.stream.RecordDecodedDelta(name, m) else rx.stream.RecordDecoded(name, m))
  }

  /** Encoding changes the dictionary alone, and not even that when the dictionary is off. */
  lemma SentDict(tx: Node, schema: SchemaDef, payload: Payload)
    requires Ready(tx, schema, payload) && tx.dict.Inv()
    ensures var (after, status, base) := tx.Send(schema.name, payload);
      status == Status.Ok && after == tx.(dict := after.dict) && after.dict.Inv() && after.dict.config == tx.dict.config
    ensures tx.Send(schema.name, payload).0.dict == EncodeValues(tx.dict, Ordered(schema.fields, payload)).1
    ensures !tx.dict.config.Active() ==> tx.Send(schema.name, payload).0.dict == tx.dict
  {
    hide *;
    BaseDelivered(tx, tx, schema, payload);
    ReadyValues(tx, schema, payload);
    if !tx.dict.config.Active() { EncodeInactive(tx.dict, Ordered(schema.fields, payload)); }
  }

  lemma SenderMoves(tx: Node, r: Sent)
    requires Ready(tx, r.schema, r.payload) && tx.dict.Inv() && tx.stream.config.Immediate()
    ensures var (tx1, status, wire) := tx.SendStream(r.schema.name, r.payload, r.lowChange);
      && status == Status.Ok && wire == Some(tx.Envelope(EmissionOf(tx, r).packet))
      && Moved(tx, tx1, r, EmissionOf(tx, r).delta)
  {
    var name, base := r.schema.name, tx.Send(r.schema.name, r.payload).2;
    SentDict(tx, r.schema, r.payload);
    ReadyParts(tx, r.schema, r.payload);
    hide Ready, Sendable, Node.Send, Dict.Inv, EncodeValues;
    SendStreamParts(tx, r.schema, r.payload, r.lowChange);
    ImmediateEmission(tx.stream, r.schema, r.payload, base, r.lowChange);
    ImmediateDecision(tx.stream, r.schema, r.payload, base, r.lowChange);
    hide Stream.Outgoing, Stream.Decide, Node.SendStream, Node.Envelope, Stream.NextDelta, Stream.Identical;
  }

  lemma ReadyParts(tx: Node, schema: SchemaDef, payload: Payload)
    requires Ready(tx, schema, payload)
    ensures tx.registry.FindByName(schema.name) == Some(schema) && Sendable(schema.fields, payload)
    ensures Fits(schema.fields, payload) && Distinct(schema.fields)
  {
    tx.registry.FoundById(schema);
  }

  /** The packet of a plain id does not begin like an envelope of any kind. */
  lemma PlainPacketStarts(tx: Node, schema: SchemaDef, payload: Payload, base: Packet)
    requires Ready(tx, schema, payload) && base != [] && base[0] == schema.messageId % 256
    ensures base[0] !in {CONTROL, DELTA, BATCH, ENVELOPE}
  {
    hide Sendable, ClearOfMarker;
  }

  /** A full packet arrives. */
  lemma FullArrivesAs(tx: Node, rx: Node, r: Sent, e: Emission)
    requires Ready(tx, r.schema, r.payload) && tx.dict.Inv()
    requires rx.registry == tx.registry && rx.optimizer == tx.optimizer && rx.dict == tx.dict
    requires e.packet == tx.Send(r.schema.name, r.payload).2 && !e.delta && !e.reused
    ensures e.packet != [] && e.packet[0] != ENVELOPE
    ensures rx.ReceiveOpened(e.packet)
      == (Advanced(rx, tx.Send(r.schema.name, r.payload).0.dict, r.schema.name, r.payload, false), Status.Ok,
          [Message(r.schema.name, r.payload)])
    ensures SamePayload(r.schema.fields, r.payload, r.payload) && ArrivesAs(tx, rx, r, e, r.payload)
  {
    BaseDelivered(tx, rx, r.schema, r.payload);
    ReadyParts(tx, r.schema, r.payload);
    PlainPacketStarts(tx, r.schema, r.payload, e.packet);
    SameAsItself(r.schema.fields, r.payload);
    hide Node.Receive, Node.ReceiveOpened, Node.Send, Ready, Dict.Inv, EncodeValues, Sendable, SamePayload;
    FullOpened(rx, e.packet, rx.(dict := tx.Send(r.schema.name, r.payload).0.dict), Message(r.schema.name, r.payload));
  }

  lemma SameAsItself(fields: seq<FieldDef>, p: Payload)
    requires Fits(fields, p)
    ensures SamePayload(fields, p, p)
  {
  }

  /** A packet sent again arrives if and only if it binds: it is an encoding of the last payload, found equal. */
  lemma RepeatArrivesAs(tx: Node, rx: Node, kept: Kept, r: Sent, e: Emission)
    requires Coupled(tx, rx, kept) && Ready(tx, r.schema, r.payload) && tx.stream.config.Resends()
    requires tx.stream.Identical(r.schema.name, r.payload) && !e.delta && e.reused && e == EmissionOf(tx, r)
    requires e.packet == Get(tx.stream.lastPacket, r.schema.name, [])
    ensures e.packet != [] && e.packet[0] != ENVELOPE
    ensures var name, last := r.schema.name, tx.stream.lastPayload[r.schema.name];
      && Sendable(r.schema.fields, last) && SamePayload(r.schema.fields, last, r.payload)
      && ArrivesAs(tx, rx, r, e, last)
      && (Binds(tx, kept, r) ==>
            rx.ReceiveOpened(e.packet)
            == (Advanced(rx, tx.Send(name, r.payload).0.dict, name, last, false), Status.Ok, [Message(name, last)]))
    ensures !Binds(tx, kept, r) ==> var got := rx.ReceiveOpened(e.packet); !DeliveredAs(r, (got.1, got.2))
  {
    hide *;
    CoupledParts(tx, rx, kept);
    ReadyParts(tx, r.schema, r.payload);
    IdenticalParts(tx, r.schema, r.payload);
    KeptParts(tx, rx, kept, r.schema);
    var name, fields, last := r.schema.name, r.schema.fields, tx.stream.lastPayload[r.schema.name];
    ReadyParts(tx, r.schema, last);
    EqualForStream(fields, last, r.payload);
    RepeatedAs(tx, rx, r, e);
    var earlier := tx.(dict := kept[name]);
    ReadyElsewhere(tx, earlier, r.schema, last);
    LateDelivered(earlier, rx, r.schema, last);
    BindsIs(tx, kept, r);
    PlainPacketStarts(tx, r.schema, last, e.packet);
    NotAnEnvelope(e.packet);
    SentDict(tx, r.schema, r.payload);
    SameTeachingOf(fields, tx.dict, last, r.payload);
    if Binds(tx, kept, r) {
      FullOpened(rx, e.packet, rx.(dict := tx.Send(name, r.payload).0.dict), Message(name, last));
      AdvancedFull(rx, tx.Send(name, r.payload).0.dict, name, last);
    } else {
      PlainOpened(rx, e.packet);
      LostOpened(rx, r, last, e.packet);
    }
  }

  lemma AdvancedFull(rx: Node, dict: Dict, name: string, m: Payload)
    ensures rx.(dict := dict).(stream := rx.(dict := dict).stream.RecordDecoded(name, m))
      == Advanced(rx, dict, name, m, false)
  {
  }

  lemma KeptParts(tx: Node, rx: Node, kept: Kept, schema: SchemaDef)
    requires Coupled(tx, rx, kept) && tx.stream.config.Resends()
    requires schema.name in tx.stream.lastPayload && tx.registry.FindByName(schema.name) == Some(schema)
    ensures var name, last := schema.name, tx.stream.lastPayload[schema.name];
      && Ready(tx, schema, last) && name in kept && kept[name].Inv() && kept[name].config == tx.dict.config
      && Get(tx.stream.lastPacket, name, []) == tx.(dict := kept[name]).Send(name, last).2
  {
    hide Ready, Dict.Inv, Node.Send, Sendable, SamePayload;
    assert CoupledAt(tx, rx, kept, schema);
  }

  lemma IdenticalParts(tx: Node, schema: SchemaDef, payload: Payload)
    requires tx.stream.Identical(schema.name, payload)
    ensures schema.name in tx.stream.lastPayload && PayloadEquals(tx.stream.lastPayload[schema.name], payload)
  {
    hide PayloadEquals;
  }

  lemma RepeatedAs(tx: Node, rx: Node, r: Sent, e: Emission)
    requires !e.delta && e.reused && r.schema.name in tx.stream.lastPayload
    requires PayloadEquals(tx.stream.lastPayload[r.schema.name], r.payload)
    ensures ArrivesAs(tx, rx, r, e, tx.stream.lastPayload[r.schema.name])
  {
    hide PayloadEquals;
  }

  lemma BindsIs(tx: Node, kept: Kept, r: Sent)
    requires EmissionOf(tx, r).reused && r.schema.name in kept && r.schema.name in tx.stream.lastPayload
    requires Fits(r.schema.fields, tx.stream.lastPayload[r.schema.name])
    ensures Binds(tx, kept, r)
      <==> StillBound(kept[r.schema.name], tx.dict, Ordered(r.schema.fields, tx.stream.lastPayload[r.schema.name]))
  {
    hide Fits, StillBound, EmissionOf;
  }

  /** A plain packet is opened by receiving it. */
  lemma PlainOpened(rx: Node, p: Packet)
    requires |p| >= 2 && p[0] !in {CONTROL, DELTA, BATCH}
    ensures var (after, status, m) := rx.Receive(p);
      var result := rx.ReceiveOpened(p);
      if status == Status.Ok then result.1 == Status.Ok && result.2 == [m] else result.1 != Status.Ok
  {
    assert ExpandIncoming(p) == Some([p]);
    hide Node.Receive;
    assert [p][1..] == [];
    var (after, status, m) := rx.Receive(p);
    if status == Status.Ok {
      var recorded := after.(stream := after.stream.RecordDecoded(m.name, m.payload));
      assert recorded.ReceiveEach([]) == (recorded, Status.Ok, []);
    }
  }

  lemma LostOpened(rx: Node, r: Sent, last: Payload, p: Packet)
    requires SamePayload(r.schema.fields, last, r.payload)
    requires var got := rx.Receive(p); !(got.1 == Status.Ok && SamePayload(r.schema.fields, got.2.payload, last))
    requires var got, result := rx.Receive(p), rx.ReceiveOpened(p);
      if got.1 == Status.Ok then result.1 == Status.Ok && result.2 == [got.2] else result.1 != Status.Ok
    ensures var result := rx.ReceiveOpened(p); !DeliveredAs(r, (result.1, result.2))
  {
    hide Node.Receive, Node.ReceiveOpened, SamePayload;
    var got := rx.Receive(p);
    if SamePayload(r.schema.fields, got.2.payload, r.payload) {
      SameThrough(r.schema.fields, got.2.payload, last, r.payload);
    }
  }

  lemma SameThrough(fields: seq<FieldDef>, a: Payload, b: Payload, c: Payload)
    requires SamePayload(fields, b, c) && SamePayload(fields, a, c)
    ensures SamePayload(fields, a, b)
  {
    forall i | 0 <= i < |fields| ensures Same(a[fields[i].name], b[fields[i].name]) {
      assert Same(a[fields[i].name], c[fields[i].name]) && Same(b[fields[i].name], c[fields[i].name]);
    }
  }

  lemma NotAnEnvelope(p: Packet)
    requires p != [] && p[0] !in {CONTROL, DELTA, BATCH, ENVELOPE}
    ensures p[0] != ENVELOPE && p[0] !in {CONTROL, DELTA, BATCH}
  {
  }

  /** A delta arrives. */
  lemma DeltaArrivesAs(tx: Node, rx: Node, kept: Kept, r: Sent, e: Emission) returns (m: Payload)
    requires Coupled(tx, rx, kept) && Ready(tx, r.schema, r.payload) && tx.stream.config.DeltaMode()
    requires r.schema.name in tx.stream.lastPayload
    requires e.delta && tx.stream.NextDelta(r.schema, r.payload) == Some(e.packet)
    ensures e.packet != [] && e.packet[0] != ENVELOPE
    ensures CoupledAt(tx, rx, kept, r.schema)
    ensures rx.ReceiveOpened(e.packet)
      == (Advanced(rx, tx.Send(r.schema.name, r.payload).0.dict, r.schema.name, m, true), Status.Ok,
          [Message(r.schema.name, m)])
    ensures Sendable(r.schema.fields, m) && SamePayload(r.schema.fields, m, r.payload) && ArrivesAs(tx, rx, r, e, m)
  {
    hide *;
    CoupledParts(tx, rx, kept);
    ReadyParts(tx, r.schema, r.payload);
    ReadyElsewhere(tx, rx, r.schema, r.payload);
    SentDict(tx, r.schema, r.payload);
    WasSomewhere(tx, rx, kept, r.schema.name);
    CoupledBases(tx, rx, kept, r.schema);
    ExpectedAgree(tx, rx, kept, r.schema);
    FieldCount(tx, r.schema, r.payload);
    DeltaIs(tx, r.schema, r.payload);
    var name := r.schema.name;
    var previous, sequence := tx.stream.lastPayload[name], Get(tx.stream.deltaSeq, name, 0);
    DeltaDelivered(rx, r.schema, previous, r.payload, sequence);
    DeltaShape(r.schema, previous, r.payload, sequence);
    NamesIn(r.schema.fields, rx.stream.lastDecoded[name], r.payload);
    m := Named(r.schema.fields, Merge(r.schema.fields, rx.stream.lastDecoded[name], previous, r.payload));
    ArrivesMerged(tx, rx, r, e, m);
    AdvancedDelta(rx, tx.Send(name, r.payload).0.dict, name, m);
    DeltaIsNoEnvelope();
  }

  lemma CoupledBases(tx: Node, rx: Node, kept: Kept, schema: SchemaDef)
    requires CoupledAt(tx, rx, kept, schema)
    ensures schema.name in tx.stream.lastPayload && schema.name in rx.stream.lastDecoded
    ensures var last, base := tx.stream.lastPayload[schema.name], rx.stream.lastDecoded[schema.name];
      && Sendable(schema.fields, last) && Sendable(schema.fields, base) && SamePayload(schema.fields, base, last)
      && Fits(schema.fields, base)
  {
    SendableFits(schema.fields, rx.stream.lastDecoded[schema.name]);
    hide Sendable, SamePayload, KeptPacket;
  }

  lemma DeltaIs(tx: Node, schema: SchemaDef, payload: Payload)
    requires schema.name in tx.stream.lastPayload
    ensures tx.stream.NextDelta(schema, payload)
      == BuildDelta(schema, tx.stream.lastPayload[schema.name], payload, Get(tx.stream.deltaSeq, schema.name, 0))
  {
    hide BuildDelta;
  }

  lemma NamesIn(fields: seq<FieldDef>, base: Payload, payload: Payload)
    requires Fits(fields, base) && Fits(fields, payload)
    ensures forall i :: 0 <= i < |fields| ==> fields[i].name in base && fields[i].name in payload
  {
  }

  lemma ArrivesMerged(tx: Node, rx: Node, r: Sent, e: Emission, m: Payload)
    requires e.delta && r.schema.name in tx.stream.lastPayload && r.schema.name in rx.stream.lastDecoded
    requires Fits(r.schema.fields, r.payload) && Fits(r.schema.fields, rx.stream.lastDecoded[r.schema.name])
    requires m == Named(r.schema.fields,
      Merge(r.schema.fields, rx.stream.lastDecoded[r.schema.name], tx.stream.lastPayload[r.schema.name], r.payload))
    ensures ArrivesAs(tx, rx, r, e, m)
  {
    hide Merge, Named;
  }

  lemma AdvancedDelta(rx: Node, dict: Dict, name: string, m: Payload)
    ensures rx.(dict := dict, stream := rx.stream.RecordDecodedDelta(name, m)) == Advanced(rx, dict, name, m, true)
  {
  }

  lemma DeltaIsNoEnvelope()
    ensures DELTA != ENVELOPE
  {
  }

  lemma SendableFits(fields: seq<FieldDef>, p: Payload)
    requires Sendable(fields, p)
    ensures Fits(fields, p)
  {
  }

  lemma FieldCount(tx: Node, schema: SchemaDef, payload: Payload)
    requires Ready(tx, schema, payload)
    ensures |schema.fields| <= 2040
  {
  }

  lemma ReadyElsewhere(tx: Node, rx: Node, schema: SchemaDef, payload: Payload)
    requires Ready(tx, schema, payload) && rx.registry == tx.registry && rx.optimizer == tx.optimizer
    ensures Ready(rx, schema, payload)
  {
    hide Sendable, PlainValues;
  }

  // The coupling is kept.

  /** What is kept of one schema does not depend on the rest of the sender's state. */
  lemma KeptElsewhere(tx: Node, tx1: Node, kept: Kept, kept1: Kept, schema: SchemaDef)
    requires tx1 == tx.(dict := tx1.dict, stream := tx1.stream) && tx1.dict.config == tx.dict.config
    requires schema.name in tx.stream.lastPayload && schema.name in tx1.stream.lastPayload
    requires tx1.stream.lastPayload[schema.name] == tx.stream.lastPayload[schema.name]
    requires Get(tx1.stream.lastPacket, schema.name, []) == Get(tx.stream.lastPacket, schema.name, [])
    requires schema.name in kept && schema.name in kept1 && kept1[schema.name] == kept[schema.name]
    requires KeptPacket(tx, kept, schema)
    ensures KeptPacket(tx1, kept1, schema)
  {
    var name, last := schema.name, tx.stream.lastPayload[schema.name];
    SendIgnoresStream(tx.(dict := kept[name]), tx1.(dict := kept[name]), name, last);
    hide Node.Send, Ready, Dict.Inv;
    ReadyElsewhere(tx, tx1, schema, last);
  }

  lemma OtherStays(tx: Node, rx: Node, kept: Kept, tx1: Node, r: Sent, m: Payload, delta: bool, other: SchemaDef)
    requires CoupledAt(tx, rx, kept, other) && other.name != r.schema.name
    requires Moved(tx, tx1, r, delta) && tx1.dict.config == tx.dict.config
    ensures CoupledAt(tx1, Advanced(rx, tx1.dict, r.schema.name, m, delta), Keep(tx, kept, r), other)
  {
    hide *;
    MovedParts(tx, tx1, r, delta);
    MovedOther(tx, rx, kept, tx1, r, m, delta, other);
    if tx.stream.config.Resends() {
      KeptOther(tx, tx1, kept, r, delta, other);
      KeptElsewhere(tx, tx1, kept, Keep(tx, kept, r), other);
    }
    CoupledAtFrom(tx1, Advanced(rx, tx1.dict, r.schema.name, m, delta), Keep(tx, kept, r), other);
  }

  /** The parts of the coupling of one schema but for the kept packet. */
  ghost predicate BasesCoupled(tx: Node, rx: Node, schema: SchemaDef)
  {
    var name := schema.name;
    && name in rx.stream.lastDecoded && name in tx.stream.lastPayload
    && Sendable(schema.fields, tx.stream.lastPayload[name])
    && Sendable(schema.fields, rx.stream.lastDecoded[name])
    && SamePayload(schema.fields, rx.stream.lastDecoded[name], tx.stream.lastPayload[name])
    && (tx.stream.config.DeltaMode() ==> Get(rx.stream.expected, name, 0) == Get(tx.stream.deltaSeq, name, 0))
  }

  lemma CoupledAtFrom(tx: Node, rx: Node, kept: Kept, schema: SchemaDef)
    requires BasesCoupled(tx, rx, schema)
    requires tx.stream.config.Resends() && schema.name in tx.stream.lastPayload ==> KeptPacket(tx, kept, schema)
    ensures CoupledAt(tx, rx, kept, schema)
  {
    hide Sendable, SamePayload, KeptPacket;
  }

  lemma MovedOther(tx: Node, rx: Node, kept: Kept, tx1: Node, r: Sent, m: Payload, delta: bool, other: SchemaDef)
    requires CoupledAt(tx, rx, kept, other) && other.name != r.schema.name && Moved(tx, tx1, r, delta)
    ensures BasesCoupled(tx1, Advanced(rx, tx1.dict, r.schema.name, m, delta), other)
    ensures other.name in tx.stream.lastPayload && other.name in tx1.stream.lastPayload
    ensures tx1.stream.lastPayload[other.name] == tx.stream.lastPayload[other.name]
  {
    hide Sendable, SamePayload, KeptPacket, Node.Send, Dict.Inv;
  }

  lemma KeptOther(tx: Node, tx1: Node, kept: Kept, r: Sent, delta: bool, other: SchemaDef)
    requires Moved(tx, tx1, r, delta) && other.name != r.schema.name && tx.stream.config.Resends()
    requires other.name in tx.stream.lastPayload
    requires exists rx :: CoupledAt(tx, rx, kept, other)
    ensures KeptPacket(tx, kept, other) && other.name in kept
    ensures other.name in Keep(tx, kept, r) && Keep(tx, kept, r)[other.name] == kept[other.name]
    ensures Get(tx1.stream.lastPacket, other.name, []) == Get(tx.stream.lastPacket, other.name, [])
  {
    hide Sendable, SamePayload, Node.Send, Dict.Inv, Ready;
  }

  lemma MovedCoupledAt(tx: Node, rx: Node, kept: Kept, tx1: Node, r: Sent, m: Payload, delta: bool)
    requires Moved(tx, tx1, r, delta) && Ready(tx, r.schema, r.payload) && tx.dict.Inv()
    requires tx1.dict.config == tx.dict.config
    requires delta ==> Get(rx.stream.expected, r.schema.name, 0) == Get(tx.stream.deltaSeq, r.schema.name, 0)
    requires Sendable(r.schema.fields, m) && SamePayload(r.schema.fields, m, r.payload)
    ensures CoupledAt(tx1, Advanced(rx, tx1.dict, r.schema.name, m, delta), Keep(tx, kept, r), r.schema)
  {
    hide *;
    ReadyParts(tx, r.schema, r.payload);
    MovedParts(tx, tx1, r, delta);
    ReadyElsewhere(tx, tx1, r.schema, r.payload);
    MovedBases(tx, rx, tx1, r, m, delta);
    if tx.stream.config.Resends() {
      SendIgnoresStream(tx, tx1.(dict := tx.dict), r.schema.name, r.payload);
      NowKept(tx, tx1, kept, r, delta);
    }
    CoupledAtFrom(tx1, Advanced(rx, tx1.dict, r.schema.name, m, delta), Keep(tx, kept, r), r.schema);
  }

  lemma MovedBases(tx: Node, rx: Node, tx1: Node, r: Sent, m: Payload, delta: bool)
    requires Moved(tx, tx1, r, delta) && Sendable(r.schema.fields, r.payload)
    requires delta ==> Get(rx.stream.expected, r.schema.name, 0) == Get(tx.stream.deltaSeq, r.schema.name, 0)
    requires Sendable(r.schema.fields, m) && SamePayload(r.schema.fields, m, r.payload)
    ensures BasesCoupled(tx1, Advanced(rx, tx1.dict, r.schema.name, m, delta), r.schema)
  {
    hide Sendable, SamePayload, Node.Send, Dict.Inv;
  }

  lemma NowKept(tx: Node, tx1: Node, kept: Kept, r: Sent, delta: bool)
    requires Moved(tx, tx1, r, delta) && tx.stream.config.Resends() && Ready(tx1, r.schema, r.payload)
    requires tx.dict.Inv() && tx1.dict.config == tx.dict.config
    requires tx1.(dict := tx.dict).Send(r.schema.name, r.payload).2 == tx.Send(r.schema.name, r.payload).2
    ensures r.schema.name in tx1.stream.lastPayload && KeptPacket(tx1, Keep(tx, kept, r), r.schema)
  {
    hide Ready, Node.Send, Dict.Inv;
  }

  lemma CoupledAgain(tx: Node, rx: Node, kept: Kept, tx1: Node, r: Sent, m: Payload, delta: bool)
    requires Coupled(tx, rx, kept) && Moved(tx, tx1, r, delta) && Ready(tx, r.schema, r.payload)
    requires delta ==> Get(rx.stream.expected, r.schema.name, 0) == Get(tx.stream.deltaSeq, r.schema.name, 0)
    requires Sendable(r.schema.fields, m) && SamePayload(r.schema.fields, m, r.payload)
    ensures Coupled(tx1, Advanced(rx, tx1.dict, r.schema.name, m, delta), Keep(tx, kept, r))
  {
    hide *;
    var rx1, kept1 := Advanced(rx, tx1.dict, r.schema.name, m, delta), Keep(tx, kept, r);
    CoupledParts(tx, rx, kept);
    SentDict(tx, r.schema, r.payload);
    ReadyParts(tx, r.schema, r.payload);
    MovedParts(tx, tx1, r, delta);
    MovedCoupledAt(tx, rx, kept, tx1, r, m, delta);
    forall name | name in tx1.stream.lastPayload && name != r.schema.name
      ensures Somewhere(tx1, rx1, kept1, name)
    {
      WasSomewhere(tx, rx, kept, name);
      OtherStays(tx, rx, kept, tx1, r, m, delta, tx.registry.FindByName(name).value);
      IsSomewhere(tx1, rx1, kept1, tx.registry.FindByName(name).value);
    }
    IsSomewhere(tx1, rx1, kept1, r.schema);
    CoupledFrom(tx, rx, kept, tx1, r, m, delta);
  }

  /** The schema of this name is registered and coupled. */
  ghost predicate Somewhere(tx: Node, rx: Node, kept: Kept, name: string)
  {
    tx.registry.FindByName(name).Some? && CoupledAt(tx, rx, kept, tx.registry.FindByName(name).value)
  }

  lemma IsSomewhere(tx: Node, rx: Node, kept: Kept, schema: SchemaDef)
    requires tx.registry.FindByName(schema.name) == Some(schema) && CoupledAt(tx, rx, kept, schema)
    ensures Somewhere(tx, rx, kept, schema.name)
  {
    hide CoupledAt;
  }

  lemma WasSomewhere(tx: Node, rx: Node, kept: Kept, name: string)
    requires Coupled(tx, rx, kept) && name in tx.stream.lastPayload
    ensures tx.registry.FindByName(name).Some? && tx.registry.FindByName(name).value.name == name
    ensures CoupledAt(tx, rx, kept, tx.registry.FindByName(name).value)
  {
    hide CoupledAt;
  }

  lemma MovedParts(tx: Node, tx1: Node, r: Sent, delta: bool)
    requires Moved(tx, tx1, r, delta)
    ensures tx1 == tx.(dict := tx1.dict, stream := tx1.stream) && tx1.stream.config == tx.stream.config
    ensures tx1.dict.Inv() && tx1.dict == tx.Send(r.schema.name, r.payload).0.dict
    ensures tx1.stream.lastPayload == tx.stream.lastPayload[r.schema.name := r.payload]
  {
    hide Dict.Inv, Node.Send;
  }

  lemma CoupledFrom(tx: Node, rx: Node, kept: Kept, tx1: Node, r: Sent, m: Payload, delta: bool)
    requires Coupled(tx, rx, kept) && tx1.dict.Inv()
    requires tx1 == tx.(dict := tx1.dict, stream := tx1.stream) && tx1.stream.config == tx.stream.config
    requires forall name :: name in tx1.stream.lastPayload ==>
      Somewhere(tx1, Advanced(rx, tx1.dict, r.schema.name, m, delta), Keep(tx, kept, r), name)
    ensures Coupled(tx1, Advanced(rx, tx1.dict, r.schema.name, m, delta), Keep(tx, kept, r))
  {
    hide CoupledAt, Dict.Inv;
    var rx1, kept1 := Advanced(rx, tx1.dict, r.schema.name, m, delta), Keep(tx, kept, r);
    assert rx1.registry == tx1.registry && rx1.optimizer == tx1.optimizer && rx1.dict == tx1.dict;
    hide Advanced, Keep, Registry.FindByName;
    forall name | name in tx1.stream.lastPayload
      ensures tx1.registry.FindByName(name).Some?
      ensures CoupledAt(tx1, rx1, kept1, tx1.registry.FindByName(name).value)
    {
      assert Somewhere(tx1, rx1, kept1, name);
    }
  }

  /** Whatever the stream decides, the packet it emits arrives as it should, if it binds. */
  lemma EmissionArrives(tx: Node, rx: Node, kept: Kept, r: Sent) returns (m: Payload)
    requires Coupled(tx, rx, kept) && Ready(tx, r.schema, r.payload) && Binds(tx, kept, r)
    ensures var e, next := EmissionOf(tx, r), tx.Send(r.schema.name, r.payload).0.dict;
      && e.packet != [] && e.packet[0] != ENVELOPE
      && rx.ReceiveOpened(e.packet)
         == (Advanced(rx, next, r.schema.name, m, e.delta), Status.Ok, [Message(r.schema.name, m)])
      && ArrivesAs(tx, rx, r, e, m) && Sendable(r.schema.fields, m) && SamePayload(r.schema.fields, m, r.payload)
      && (e.delta ==> CoupledAt(tx, rx, kept, r.schema) && tx.stream.config.DeltaMode())
  {
    hide *;
    var e := EmissionOf(tx, r);
    ReadyParts(tx, r.schema, r.payload);
    CoupledParts(tx, rx, kept);
    EmissionIs(tx, r);
    if e.delta {
      m := DeltaArrivesAs(tx, rx, kept, r, e);
    } else if e.reused {
      IdenticalParts(tx, r.schema, r.payload);
      RepeatArrivesAs(tx, rx, kept, r, e);
      m := tx.stream.lastPayload[r.schema.name];
    } else {
      FullArrivesAs(tx, rx, r, e);
      m := r.payload;
    }
  }

  /** The three ways an immediate record leaves. */
  lemma EmissionIs(tx: Node, r: Sent)
    requires tx.stream.config.Immediate()
    ensures var e := EmissionOf(tx, r);
      && (e.delta ==> tx.stream.config.DeltaMode() && r.schema.name in tx.stream.lastPayload && !e.reused)
      && (e.delta ==> tx.stream.NextDelta(r.schema, r.payload) == Some(e.packet))
      && (e.reused ==> tx.stream.config.Resends() && tx.stream.Identical(r.schema.name, r.payload))
      && (e.reused ==> e.packet == Get(tx.stream.lastPacket, r.schema.name, []))
      && (!e.delta && !e.reused ==> e.packet == tx.Send(r.schema.name, r.payload).2)
  {
    var base := tx.Send(r.schema.name, r.payload).2;
    ImmediateEmission(tx.stream, r.schema, r.payload, base, r.lowChange);
    ImmediateDecision(tx.stream, r.schema, r.payload, base, r.lowChange);
    hide Node.Send, Stream.Outgoing, Stream.Decide, Stream.NextDelta, Stream.Identical;
  }

  lemma CoupledParts(tx: Node, rx: Node, kept: Kept)
    requires Coupled(tx, rx, kept)
    ensures tx.registry.Valid() && rx.registry == tx.registry && rx.optimizer == tx.optimizer
    ensures rx.dict == tx.dict && tx.dict.Inv() && tx.stream.config.Immediate()
  {
  }

  /** One record that binds keeps sender and receiver coupled, and says exactly what is delivered. */
  lemma OneRecord(tx: Node, rx: Node, kept: Kept, r: Sent)
    requires Coupled(tx, rx, kept) && Ready(tx, r.schema, r.payload) && Binds(tx, kept, r)
    ensures var (tx1, status, wire) := tx.SendStream(r.schema.name, r.payload, r.lowChange);
      status == Status.Ok && wire.Some? &&
      var (rx1, received, messages) := rx.ReceiveStream(wire.value);
      Carries(tx, rx, kept, r, tx1, rx1, received, messages)
  {
    hide *;
    CoupledParts(tx, rx, kept);
    ReadyParts(tx, r.schema, r.payload);
    SenderMoves(tx, r);
    var m := EmissionArrives(tx, rx, kept, r);
    var e, tx1 := EmissionOf(tx, r), tx.SendStream(r.schema.name, r.payload, r.lowChange).0;
    if e.delta { ExpectedAgree(tx, rx, kept, r.schema); }
    CoupledAgain(tx, rx, kept, tx1, r, m, e.delta);
    EnvelopeOpened(tx, rx, e.packet);
    CarriedBy(tx, rx, kept, r, tx1, m);
  }

  /** One that does not bind is lost. */
  lemma OneLost(tx: Node, rx: Node, kept: Kept, r: Sent)
    requires Coupled(tx, rx, kept) && Ready(tx, r.schema, r.payload) && !Binds(tx, kept, r)
    ensures var (tx1, status, wire) := tx.SendStream(r.schema.name, r.payload, r.lowChange);
      status == Status.Ok && wire.Some? &&
      var (rx1, received, messages) := rx.ReceiveStream(wire.value);
      !DeliveredAs(r, (received, messages))
  {
    hide *;
    CoupledParts(tx, rx, kept);
    ReadyParts(tx, r.schema, r.payload);
    SenderMoves(tx, r);
    EmissionIs(tx, r);
    Unbound(tx, kept, r);
    var e := EmissionOf(tx, r);
    RepeatArrivesAs(tx, rx, kept, r, e);
    EnvelopeOpened(tx, rx, e.packet);
  }

  lemma Unbound(tx: Node, kept: Kept, r: Sent)
    requires !Binds(tx, kept, r)
    ensures EmissionOf(tx, r).reused
  {
    hide EmissionOf, StillBound, Fits;
  }

  lemma ExpectedAgree(tx: Node, rx: Node, kept: Kept, schema: SchemaDef)
    requires CoupledAt(tx, rx, kept, schema) && tx.stream.config.DeltaMode()
    ensures Get(rx.stream.expected, schema.name, 0) == Get(tx.stream.deltaSeq, schema.name, 0)
  {
  }

  lemma EnvelopeOpened(tx: Node, rx: Node, p: Packet)
    requires p != [] && p[0] != ENVELOPE
    ensures rx.ReceiveStream(tx.Envelope(p)) == rx.ReceiveOpened(p)
  {
    EnvelopeTransparent(rx, tx.crc, p);
  }

  lemma CarriedBy(tx: Node, rx: Node, kept: Kept, r: Sent, tx1: Node, m: Payload)
    requires Moved(tx, tx1, r, EmissionOf(tx, r).delta) && ArrivesAs(tx, rx, r, EmissionOf(tx, r), m)
    requires SamePayload(r.schema.fields, m, r.payload)
    requires Coupled(tx1, Advanced(rx, tx1.dict, r.schema.name, m, EmissionOf(tx, r).delta), Keep(tx, kept, r))
    ensures tx1.dict == tx.Send(r.schema.name, r.payload).0.dict
    ensures Carries(tx, rx, kept, r, tx1, Advanced(rx, tx1.dict, r.schema.name, m, EmissionOf(tx, r).delta), Status.Ok,
              [Message(r.schema.name, m)])
  {
    hide Coupled, SamePayload, ArrivesAs, EmissionOf, Dict.Inv, Node.Send, Keep;
  }

  // Whole runs.

  /** Sends every record and hands each packet to the receiver; what the receiver delivers, in order. */
  function Run(tx: Node, rx: Node, records: seq<Sent>): (Node, Node, seq<(Status, seq<Message>)>)
    decreases |records|
  {
    if records == [] then (tx, rx, [])
    else
      var r := records[0];
      var (tx1, status, wire) := tx.SendStream(r.schema.name, r.payload, r.lowChange);
      if wire.None? then
        var (a, b, rest) := Run(tx1, rx, records[1..]);
        (a, b, [(status, [])] + rest)
      else
        var (rx1, received, messages) := rx.ReceiveStream(wire.value);
        var (a, b, rest) := Run(tx1, rx1, records[1..]);
        (a, b, [(received, messages)] + rest)
  }

  ghost predicate AllReady(tx: Node, records: seq<Sent>)
  {
    forall i :: 0 <= i < |records| ==> Ready(tx, records[i].schema, records[i].payload)
  }

  lemma AllReadyLater(tx: Node, tx1: Node, records: seq<Sent>)
    requires AllReady(tx, records) && records != []
    requires tx1.registry == tx.registry && tx1.optimizer == tx.optimizer
    ensures Ready(tx, records[0].schema, records[0].payload) && AllReady(tx1, records[1..])
  {
    hide Ready;
    forall i | 0 <= i < |records[1..]| ensures Ready(tx1, records[1..][i].schema, records[1..][i].payload) {
      assert records[1..][i] == records[i + 1];
      ReadyElsewhere(tx, tx1, records[i + 1].schema, records[i + 1].payload);
    }
  }

  /** The first record of a run, when it binds, and the rest of the run. */
  lemma RunStep(tx: Node, rx: Node, kept: Kept, records: seq<Sent>)
    returns (tx1: Node, rx1: Node, received: Status, messages: seq<Message>)
    requires Coupled(tx, rx, kept) && AllReady(tx, records) && records != [] && Binds(tx, kept, records[0])
    ensures Carries(tx, rx, kept, records[0], tx1, rx1, received, messages)
    ensures Coupled(tx1, rx1, Keep(tx, kept, records[0])) && AllReady(tx1, records[1..])
    ensures tx1 == tx.SendStream(records[0].schema.name, records[0].payload, records[0].lowChange).0
    ensures var rest := Run(tx1, rx1, records[1..]);
      Run(tx, rx, records) == (rest.0, rest.1, [(received, messages)] + rest.2)
  {
    var r := records[0];
    hide *;
    AllReadyLater(tx, tx, records);
    OneRecord(tx, rx, kept, r);
    var sent := tx.SendStream(r.schema.name, r.payload, r.lowChange);
    var got := rx.ReceiveStream(sent.2.value);
    tx1, rx1, received, messages := sent.0, got.0, got.1, got.2;
    CarriesCoupled(tx, rx, kept, r, tx1, rx1, received, messages);
    AllReadyLater(tx, tx1, records);
    RunUnfolds(tx, rx, records);
  }

  lemma RunUnfolds(tx: Node, rx: Node, records: seq<Sent>)
    requires records != []
    requires tx.SendStream(records[0].schema.name, records[0].payload, records[0].lowChange).2.Some?
    ensures var (tx1, status, wire) := tx.SendStream(records[0].schema.name, records[0].payload, records[0].lowChange);
      var (rx1, received, messages) := rx.ReceiveStream(wire.value);
      var rest := Run(tx1, rx1, records[1..]);
      Run(tx, rx, records) == (rest.0, rest.1, [(received, messages)] + rest.2)
  {
    hide Node.SendStream, Node.ReceiveStream;
  }

  lemma CarriesCoupled(tx: Node, rx: Node, kept: Kept, r: Sent, tx1: Node, rx1: Node, received: Status,
                       messages: seq<Message>)
    requires Carries(tx, rx, kept, r, tx1, rx1, received, messages)
    ensures Coupled(tx1, rx1, Keep(tx, kept, r)) && DeliveredAs(r, (received, messages))
    ensures tx1.registry == tx.registry && tx1.optimizer == tx.optimizer && tx1.stream.config == tx.stream.config
  {
    hide Coupled, DeliveredAs, Keep;
  }

  /** Every packet of a run that is sent again binds; it concerns the sender and its records alone. */
  predicate RunBinds(tx: Node, kept: Kept, records: seq<Sent>)
    decreases |records|
  {
    records == [] ||
    (&& Binds(tx, kept, records[0])
     && RunBinds(tx.SendStream(records[0].schema.name, records[0].payload, records[0].lowChange).0,
                 Keep(tx, kept, records[0]), records[1..]))
  }

  predicate AllDelivered(records: seq<Sent>, outcomes: seq<(Status, seq<Message>)>)
  {
    |outcomes| == |records| && forall i :: 0 <= i < |records| ==> DeliveredAs(records[i], outcomes[i])
  }

  /** What the run leaves kept. */
  function KeptAfter(tx: Node, kept: Kept, records: seq<Sent>): Kept
    decreases |records|
  {
    if records == [] then kept
    else
      var r := records[0];
      KeptAfter(tx.SendStream(r.schema.name, r.payload, r.lowChange).0, Keep(tx, kept, r), records[1..])
  }

  /**
   * Lossless delivery over whole runs, for every sequence of records of any registered schemas and every policy that
   * does not batch, whatever the settings of dictionary, zero omission and CRC: each record is delivered, once, under
   * its name, as the payload that was sent up to the sign of float zeros, if and only if every packet that is sent
   * again binds; and then sender and receiver end coupled, their dictionaries equal. `NothingUnbound` says when nothing
   * can be unbound, and `Signs.ExactRun` when each payload arrives exactly.
   */
  lemma {:induction false} LosslessRun(tx: Node, rx: Node, kept: Kept, records: seq<Sent>)
    requires Coupled(tx, rx, kept) && AllReady(tx, records)
    ensures AllDelivered(records, Run(tx, rx, records).2) <==> RunBinds(tx, kept, records)
    ensures RunBinds(tx, kept, records) ==>
      Coupled(Run(tx, rx, records).0, Run(tx, rx, records).1, KeptAfter(tx, kept, records))
    decreases |records|
  {
    hide *;
    if records == [] {
      EmptyRun(tx, rx, kept);
    } else {
      AllReadyLater(tx, tx, records);
      BindsFirst(tx, kept, records);
      if Binds(tx, kept, records[0]) {
        var tx1, rx1, received, messages := RunStep(tx, rx, kept, records);
        CarriesCoupled(tx, rx, kept, records[0], tx1, rx1, received, messages);
        LosslessRun(tx1, rx1, Keep(tx, kept, records[0]), records[1..]);
        DeliveredFirst(records, (received, messages), Run(tx1, rx1, records[1..]).2);
      } else {
        OneLost(tx, rx, kept, records[0]);
        RunUnfolds(tx, rx, records);
        FirstLost(records, Run(tx, rx, records).2);
      }
    }
  }

  lemma EmptyRun(tx: Node, rx: Node, kept: Kept)
    ensures Run(tx, rx, []) == (tx, rx, []) && RunBinds(tx, kept, []) && KeptAfter(tx, kept, []) == kept
    ensures AllDelivered([], [])
  {
  }

  lemma BindsFirst(tx: Node, kept: Kept, records: seq<Sent>)
    requires records != []
    ensures var tx1 := tx.SendStream(records[0].schema.name, records[0].payload, records[0].lowChange).0;
      var kept1 := Keep(tx, kept, records[0]);
      && (RunBinds(tx, kept, records) <==> Binds(tx, kept, records[0]) && RunBinds(tx1, kept1, records[1..]))
      && KeptAfter(tx, kept, records) == KeptAfter(tx1, kept1, records[1..])
  {
    hide Node.SendStream, Binds, Keep;
  }

  lemma DeliveredFirst(records: seq<Sent>, first: (Status, seq<Message>), rest: seq<(Status, seq<Message>)>)
    requires records != [] && DeliveredAs(records[0], first)
    ensures AllDelivered(records, [first] + rest) <==> AllDelivered(records[1..], rest)
  {
    hide DeliveredAs;
    if AllDelivered(records[1..], rest) {
      forall i | 1 <= i < |records| ensures DeliveredAs(records[i], ([first] + rest)[i]) {
        assert DeliveredAs(records[1..][i - 1], rest[i - 1]);
      }
    }
    if AllDelivered(records, [first] + rest) {
      forall i | 0 <= i < |rest| ensures DeliveredAs(records[1..][i], rest[i]) {
        assert DeliveredAs(records[i + 1], ([first] + rest)[i + 1]);
      }
    }
  }

  lemma FirstLost(records: seq<Sent>, outcomes: seq<(Status, seq<Message>)>)
    requires records != [] && outcomes != [] && !DeliveredAs(records[0], outcomes[0])
    ensures !AllDelivered(records, outcomes)
  {
    hide DeliveredAs;
  }

  /** Without re-sending, or without a dictionary, nothing is ever unbound, and every run is delivered. */
  lemma {:induction false} NothingUnbound(tx: Node, rx: Node, kept: Kept, records: seq<Sent>)
    requires Coupled(tx, rx, kept) && AllReady(tx, records)
    requires tx.stream.config.Resends() ==> !tx.dict.config.Active()
    ensures RunBinds(tx, kept, records)
    decreases |records|
  {
    hide *;
    if records == [] {
      EmptyRun(tx, rx, kept);
    } else {
      AllReadyLater(tx, tx, records);
      BindsFirst(tx, kept, records);
      FirstBinds(tx, rx, kept, records[0]);
      var tx1, rx1, received, messages := RunStep(tx, rx, kept, records);
      CarriesCoupled(tx, rx, kept, records[0], tx1, rx1, received, messages);
      StillOff(tx, rx, kept, records[0]);
      NothingUnbound(tx1, rx1, Keep(tx, kept, records[0]), records[1..]);
    }
  }

  lemma FirstBinds(tx: Node, rx: Node, kept: Kept, r: Sent)
    requires Coupled(tx, rx, kept) && Ready(tx, r.schema, r.payload)
    requires tx.stream.config.Resends() ==> !tx.dict.config.Active()
    ensures Binds(tx, kept, r)
  {
    hide *;
    CoupledParts(tx, rx, kept);
    ReadyParts(tx, r.schema, r.payload);
    EmissionIs(tx, r);
    if !Binds(tx, kept, r) {
      Unbound(tx, kept, r);
      IdenticalParts(tx, r.schema, r.payload);
      KeptParts(tx, rx, kept, r.schema);
      ReadyParts(tx, r.schema, tx.stream.lastPayload[r.schema.name]);
      OffBinds(kept[r.schema.name], tx.dict, Ordered(r.schema.fields, tx.stream.lastPayload[r.schema.name]));
      BindsIs(tx, kept, r);
    }
  }

  /** A dictionary that is off writes no references. */
  lemma {:induction false} OffBinds(kept: Dict, now: Dict, values: seq<FieldValue>)
    requires !kept.config.Active()
    ensures StillBound(kept, now, values)
    decreases |values|
  {
    if values != [] { OffBinds(kept, EncodeValue(now, values[0]).1, values[1..]); }
  }

  lemma StillOff(tx: Node, rx: Node, kept: Kept, r: Sent)
    requires Coupled(tx, rx, kept) && Ready(tx, r.schema, r.payload)
    requires tx.stream.config.Resends() ==> !tx.dict.config.Active()
    ensures var tx1 := tx.SendStream(r.schema.name, r.payload, r.lowChange).0;
      tx1.stream.config.Resends() ==> !tx1.dict.config.Active()
  {
    hide *;
    CoupledParts(tx, rx, kept);
    SenderMoves(tx, r);
    MovedParts(tx, tx.SendStream(r.schema.name, r.payload, r.lowChange).0, r, EmissionOf(tx, r).delta);
    SentDict(tx, r.schema, r.payload);
  }
}
