/** What one packet delivers: a full one, one decoded late, and a delta over whatever the receiver holds. */
module Delivery {
  import opened Wire
  import opened Schema
  import opened Registry
  import opened Dictionary
  import opened Codec
  import opened RuntimeOptimizer
  import opened Corruption
  import opened Crc
  import opened Delta
  import opened StreamOptimizer
  import opened Runtime

  /** Byte 0 of a packet is the low byte of its message id; four values announce other envelopes. */
  predicate PlainId(id: u16)
  {
    id % 256 !in {0xF9, 0xFA, 0xFB, 0xFC}
  }

  /** Byte 2 of the plain packet is not the optimizer's marker, where the receiver would look for it. */
  predicate ClearOfMarker(node: Node, values: seq<FieldValue>)
  {
    node.optimizer ==> PlainValues(values) == [] || PlainValues(values)[0] != MARKER
  }

  /** What the code demands of a schema and a payload it is to carry. */
  ghost predicate Ready(node: Node, schema: SchemaDef, payload: Payload)
  {
    && node.registry.Valid() && node.registry.FindByName(schema.name) == Some(schema)
    && PlainId(schema.messageId) && |schema.fields| <= 2040
    && Sendable(schema.fields, payload)
    && ClearOfMarker(node, Ordered(schema.fields, payload))
  }

  /** A receiver set up like the sender, with the dictionary off. */
  ghost predicate Peers(tx: Node, rx: Node)
  {
    && rx.registry == tx.registry && tx.registry.Valid()
    && rx.optimizer == tx.optimizer && rx.dict == tx.dict
    && tx.dict.Inv() && !tx.dict.config.Active()
  }

  lemma PeersParts(tx: Node, rx: Node)
    requires Peers(tx, rx)
    ensures rx.registry == tx.registry && tx.registry.Valid() && rx.optimizer == tx.optimizer
    ensures rx.dict == tx.dict && tx.dict.Inv() && !tx.dict.config.Active()
  {
    hide Registry.Valid, Dict.Inv;
  }

  // Full packets.

  lemma PlainStarts(values: seq<FieldValue>)
    requires values != [] && (values[0].Number? ==> values[0].ntype.Size() > 0)
    ensures PlainValues(values) != [] && PlainValue(values[0]) != []
    ensures PlainValues(values)[0] == PlainValue(values[0])[0]
  {
  }

  lemma EncodedStarts(dict: Dict, values: seq<FieldValue>)
    requires values != [] && (values[0].Number? ==> values[0].ntype.Size() > 0)
    ensures var wire := EncodeValues(dict, values).0;
      wire != [] && (wire[0] == 255 || wire[0] == PlainValues(values)[0])
  {
    var wire := EncodeValue(dict, values[0]).0;
    if wire != PlainValue(values[0]) {
      assert LE(REFERENCE, 2)[0] == 255;
    }
    PlainStarts(values);
  }

  /** What the sender encodes, and the plain packet every receiver with the same settings makes of it. */
  lemma BasePlain(tx: Node, rx: Node, schema: SchemaDef, payload: Payload)
    requires Ready(tx, schema, payload) && tx.dict.Inv() && rx.optimizer == tx.optimizer
    ensures Fits(schema.fields, payload)
    ensures var (after, status, base) := tx.Send(schema.name, payload);
      var (wire, next) := EncodeValues(tx.dict, Ordered(schema.fields, payload));
      var packet := LE(schema.messageId, 2) + wire;
      && status == Status.Ok && after == tx.(dict := next)
      && |base| >= 2 && Word(base) == schema.messageId && base[0] == schema.messageId % 256
      && rx.Plain(schema, base) == Some(packet) && WellFormed(schema, packet) && packet[2..] == wire
  {
    hide *;
    ReadyValues(tx, schema, payload);
    var values := Ordered(schema.fields, payload);
    EncodedPacket(schema, tx.dict, values);
    EncodedClear(tx, schema, payload);
    var packet := LE(schema.messageId, 2) + EncodeValues(tx.dict, values).0;
    if tx.optimizer && tx.omission { OptimizedKeepsId(schema, packet); }
    SentIs(tx, schema, payload);
    PlainOf(tx, rx, schema, packet, tx.Send(schema.name, payload).2);
  }

  /** The packet before zero omission: its third byte is the marker only where the optimizer does not look for it. */
  lemma EncodedClear(tx: Node, schema: SchemaDef, payload: Payload)
    requires Ready(tx, schema, payload) && Fits(schema.fields, payload)
    ensures var packet := LE(schema.messageId, 2) + EncodeValues(tx.dict, Ordered(schema.fields, payload)).0;
      && |packet| >= 3 && packet[2..] == EncodeValues(tx.dict, Ordered(schema.fields, payload)).0
      && Word(packet) == schema.messageId && packet[0] == schema.messageId % 256
      && (tx.optimizer ==> packet[2] != MARKER) && |schema.fields| <= 2040
  {
    hide *;
    ReadyValues(tx, schema, payload);
    FieldsOf(tx, schema, payload);
    FirstValue(schema.fields, payload);
    EncodedStarts(tx.dict, Ordered(schema.fields, payload));
    PlainStarts(Ordered(schema.fields, payload));
    ClearOf(tx, schema, payload);
    Headed(schema.messageId, EncodeValues(tx.dict, Ordered(schema.fields, payload)).0);
    NotTheMarker();
  }

  lemma FieldsOf(tx: Node, schema: SchemaDef, payload: Payload)
    requires Ready(tx, schema, payload)
    ensures schema.fields != [] && |schema.fields| <= 2040 && Sendable(schema.fields, payload)
  {
    hide Sendable, ClearOfMarker;
    tx.registry.FoundById(schema);
  }

  lemma ClearOf(tx: Node, schema: SchemaDef, payload: Payload)
    requires Ready(tx, schema, payload) && Fits(schema.fields, payload)
    requires PlainValues(Ordered(schema.fields, payload)) != []
    ensures tx.optimizer ==> PlainValues(Ordered(schema.fields, payload))[0] != MARKER
  {
    hide Sendable, PlainValues, Registry.Valid;
  }

  lemma NotTheMarker()
    ensures 255 != MARKER
  {
  }

  /** The id in front of a body. */
  lemma Headed(id: u16, wire: seq<byte>)
    requires wire != []
    ensures var packet := LE(id, 2) + wire;
      |packet| >= 3 && packet[2..] == wire && packet[2] == wire[0] && Word(packet) == id && packet[0] == id % 256
  {
    WordRoundTrip(id, wire);
    SplitAt(LE(id, 2) + wire, LE(id, 2), wire);
  }

  lemma SentIs(tx: Node, schema: SchemaDef, payload: Payload)
    requires Ready(tx, schema, payload) && Fits(schema.fields, payload)
    requires Validated(schema.fields, Ordered(schema.fields, payload))
    requires var packet := LE(schema.messageId, 2) + EncodeValues(tx.dict, Ordered(schema.fields, payload)).0;
      tx.optimizer && tx.omission ==> Optimize(schema.fields, packet).ok
    ensures var (wire, next) := EncodeValues(tx.dict, Ordered(schema.fields, payload));
      var packet := LE(schema.messageId, 2) + wire;
      tx.Send(schema.name, payload)
        == (tx.(dict := next), Status.Ok,
            if tx.optimizer && tx.omission then Optimize(schema.fields, packet).packet else packet)
  {
    hide EncodeValues, Optimize, Validated, Fits, Sendable, ClearOfMarker;
  }

  lemma PlainOf(tx: Node, rx: Node, schema: SchemaDef, packet: Packet, base: Packet)
    requires rx.optimizer == tx.optimizer && |packet| >= 3 && (tx.optimizer ==> packet[2] != MARKER)
    requires var q := Optimize(schema.fields, packet);
      base == if tx.optimizer && tx.omission then q.packet else packet
    requires tx.optimizer && tx.omission ==>
      var q := Optimize(schema.fields, packet);
      && |q.packet| >= 2 && Word(q.packet) == Word(packet) && q.packet[0] == packet[0]
      && (if IsOptimized(q.packet) then Deoptimize(schema.fields, q.packet) == Applied(q.packet, packet)
          else q.packet == packet)
    ensures rx.Plain(schema, base) == Some(packet)
    ensures |base| >= 2 && Word(base) == Word(packet) && base[0] == packet[0]
  {
    hide Optimize, Deoptimize;
  }

  lemma ReadyValues(tx: Node, schema: SchemaDef, payload: Payload)
    requires Ready(tx, schema, payload)
    ensures tx.registry.FindById(schema.messageId) == Some(schema) && Fits(schema.fields, payload)
    ensures Distinct(schema.fields)
    ensures AllCarried(schema.fields, Ordered(schema.fields, payload))
    ensures Validated(schema.fields, Ordered(schema.fields, payload))
    ensures Named(schema.fields, Ordered(schema.fields, payload)) == payload
  {
    tx.registry.FoundById(schema);
    NamedOfOrdered(schema.fields, payload);
  }

  /** The sender's base packet reads back as the payload and leaves the receiver's dictionary equal to the sender's. */
  lemma BaseDelivered(tx: Node, rx: Node, schema: SchemaDef, payload: Payload)
    requires Ready(tx, schema, payload) && tx.dict.Inv()
    requires rx.registry == tx.registry && rx.optimizer == tx.optimizer && rx.dict == tx.dict
    ensures Fits(schema.fields, payload)
    ensures var (after, status, base) := tx.Send(schema.name, payload);
      && status == Status.Ok && after == tx.(dict := after.dict)
      && after.dict.Inv() && after.dict.config == tx.dict.config
      && after.dict == EncodeValues(tx.dict, Ordered(schema.fields, payload)).1
      && |base| >= 2 && Word(base) == schema.messageId && base[0] == schema.messageId % 256
      && rx.Receive(base) == (rx.(dict := after.dict), Status.Ok, Message(schema.name, payload))
  {
    hide *;
    BasePlain(tx, rx, schema, payload);
    ReadyValues(tx, schema, payload);
    var fields, values := schema.fields, Ordered(schema.fields, payload);
    var (wire, next) := EncodeValues(tx.dict, values);
    Lockstep(fields, tx.dict, values, []);
    assert wire + [] == wire;
    ReceivedPlain(rx, schema, tx.Send(schema.name, payload).2, LE(schema.messageId, 2) + wire, values, next);
  }

  /**
   * A receiver whose dictionary is not the one the packet was encoded with: the payload arrives, up to zero signs, if
   * and only if every reference in the packet is still bound, and then the dictionary moves as for a fresh packet.
   */
  lemma LateDelivered(tx: Node, rx: Node, schema: SchemaDef, payload: Payload)
    requires Ready(tx, schema, payload) && tx.dict.Inv() && rx.dict.Inv()
    requires rx.registry == tx.registry && rx.optimizer == tx.optimizer
    ensures Fits(schema.fields, payload)
    ensures var base := tx.Send(schema.name, payload).2; |base| >= 2 && base[0] == schema.messageId % 256
    ensures var base, values := tx.Send(schema.name, payload).2, Ordered(schema.fields, payload);
      && (StillBound(tx.dict, rx.dict, values) ==>
            rx.Receive(base)
            == (rx.(dict := EncodeValues(rx.dict, values).1), Status.Ok, Message(schema.name, payload)))
      && (!StillBound(tx.dict, rx.dict, values) ==>
            var (_, status, m) := rx.Receive(base);
            !(status == Status.Ok && SamePayload(schema.fields, m.payload, payload)))
  {
    hide *;
    BasePlain(tx, rx, schema, payload);
    ReadyValues(tx, schema, payload);
    var fields, values := schema.fields, Ordered(schema.fields, payload);
    var wire := EncodeValues(tx.dict, values).0;
    var base, packet := tx.Send(schema.name, payload).2, LE(schema.messageId, 2) + wire;
    LateLockstep(fields, tx.dict, rx.dict, values, []);
    assert wire + [] == wire;
    if StillBound(tx.dict, rx.dict, values) {
      ReceivedPlain(rx, schema, base, packet, values, EncodeValues(rx.dict, values).1);
    } else {
      ReceivedGarbled(rx, schema, base, packet, payload);
    }
  }

  /** A packet whose strings come out wrong is not received as the payload. */
  lemma ReceivedGarbled(rx: Node, schema: SchemaDef, p: Packet, plain: Packet, payload: Payload)
    requires |p| >= 2 && rx.registry.FindById(Word(p)) == Some(schema) && Distinct(schema.fields)
    requires rx.Plain(schema, p) == Some(plain) && WellFormed(schema, plain) && |plain| >= 2
    requires Fits(schema.fields, payload)
    requires var r := DecodeValues(schema.fields, rx.dict, plain[2..]);
      r.ending.Complete? ==> Garbled(Ordered(schema.fields, payload), r.values)
    ensures var (_, status, m) := rx.Receive(p);
      !(status == Status.Ok && SamePayload(schema.fields, m.payload, payload))
  {
    hide Check, Node.Plain, DecodeValues, Garbled, SamePayload, Validated, Fits, Distinct, WellFormed;
    var r := DecodeValues(schema.fields, rx.dict, plain[2..]);
    CheckIsGrammar(schema, plain);
    if r.ending.Complete? { GarbledPayload(schema.fields, payload, r.values); }
  }

  lemma GarbledPayload(fields: seq<FieldDef>, payload: Payload, values: seq<FieldValue>)
    requires Distinct(fields) && Fits(fields, payload) && |values| == |fields|
    requires Garbled(Ordered(fields, payload), values)
    ensures !SamePayload(fields, Named(fields, values), payload)
  {
    var sent := Ordered(fields, payload);
    var i :| 0 <= i < |sent| && sent[i].Text? && values[i] != sent[i];
    NamedAt(fields, values, i);
    assert !Same(Named(fields, values)[fields[i].name], payload[fields[i].name]);
  }

  lemma FirstValue(fields: seq<FieldDef>, payload: Payload)
    requires fields != [] && Sendable(fields, payload)
    ensures var values := Ordered(fields, payload); values != [] && (values[0].Number? ==> values[0].ntype.Size() > 0)
  {
    assert Carried(fields[0], Ordered(fields, payload)[0]);
  }

  lemma EncodedPacket(schema: SchemaDef, dict: Dict, values: seq<FieldValue>)
    requires AllCarried(schema.fields, values) && Validated(schema.fields, values)
    ensures var packet := LE(schema.messageId, 2) + EncodeValues(dict, values).0;
      && WellFormed(schema, packet) && Span(schema.fields, false, packet[2..]) == Some(|packet| - 2)
      && packet[0] == schema.messageId % 256
  {
    hide *;
    EncodedSpans(schema.fields, dict, values);
    var wire := EncodeValues(dict, values).0;
    SpanUnlimited(schema.fields, wire);
    SpannedPacket(schema, wire);
  }

  lemma SpannedPacket(schema: SchemaDef, wire: seq<byte>)
    requires Span(schema.fields, true, wire) == Some(|wire|) && Span(schema.fields, false, wire) == Some(|wire|)
    ensures var packet := LE(schema.messageId, 2) + wire;
      && WellFormed(schema, packet) && Span(schema.fields, false, packet[2..]) == Some(|packet| - 2)
      && packet[0] == schema.messageId % 256
  {
    hide Span;
    WordRoundTrip(schema.messageId, wire);
    SplitAt(LE(schema.messageId, 2) + wire, LE(schema.messageId, 2), wire);
  }

  lemma OptimizedKeepsId(schema: SchemaDef, packet: seq<byte>)
    requires |packet| >= 3 && packet[2] != MARKER && |schema.fields| <= 2040
    requires Span(schema.fields, false, packet[2..]) == Some(|packet| - 2)
    ensures var q := Optimize(schema.fields, packet);
      && q.ok && |q.packet| >= 2 && Word(q.packet) == Word(packet) && q.packet[0] == packet[0]
      && (if IsOptimized(q.packet) then Deoptimize(schema.fields, q.packet) == Applied(q.packet, packet)
          else q.packet == packet)
  {
    ZeroOmissionRestores(schema.fields, packet);
  }

  lemma PlainWellFormed(schema: SchemaDef, values: seq<FieldValue>)
    requires AllCarried(schema.fields, values) && Validated(schema.fields, values)
    ensures WellFormed(schema, PlainPacket(schema, values)) && PlainPacket(schema, values)[2..] == PlainValues(values)
  {
    var idle := Empty(Config(false, false, 1));
    EncodeInactive(idle, values);
    EncodedPacket(schema, idle, values);
  }

  /** The plain packet of carried values reads back too, and teaches the dictionary what encoding them would. */
  lemma PlainDelivered(rx: Node, schema: SchemaDef, payload: Payload)
    requires Ready(rx, schema, payload) && rx.dict.Inv()
    ensures var values := Ordered(schema.fields, payload);
      rx.Receive(PlainPacket(schema, values))
        == (rx.(dict := EncodeValues(rx.dict, values).1), Status.Ok, Message(schema.name, payload))
  {
    var fields, values := schema.fields, Ordered(schema.fields, payload);
    var packet := PlainPacket(schema, values);
    rx.registry.FoundById(schema);
    NamedOfOrdered(fields, payload);
    PlainWellFormed(schema, values);
    LockstepOnPlain(fields, rx.dict, values, []);
    FirstValue(fields, payload);
    PlainStarts(values);
    hide EncodeValues, DecodeValues, Span, Deoptimize, Check, PlainValues, PlainPacket, Sendable;
    assert PlainValues(values) + [] == PlainValues(values);
    assert packet[2..][0] == packet[2];
    assert rx.Plain(schema, packet) == Some(packet);
    hide Node.Plain;
    ReceivedPlain(rx, schema, packet, packet, values, EncodeValues(rx.dict, values).1);
  }

  // Delta packets.

  lemma FullOpened(rx: Node, base: Packet, after: Node, m: Message)
    requires |base| >= 2 && base[0] !in {CONTROL, DELTA, BATCH} && rx.Receive(base) == (after, Status.Ok, m)
    ensures rx.ReceiveOpened(base) == (after.(stream := after.stream.RecordDecoded(m.name, m.payload)), Status.Ok, [m])
  {
    assert ExpandIncoming(base) == Some([base]);
    hide Node.Receive;
    assert [base][1..] == [];
    var recorded := after.(stream := after.stream.RecordDecoded(m.name, m.payload));
    assert recorded.ReceiveEach([]) == (recorded, Status.Ok, []);
    assert [m] + [] == [m];
  }

  lemma DeltaOpened(rx: Node, schema: SchemaDef, d: Packet, full: Packet, merged: Payload, after: Node, m: Message)
    requires |d| >= 6 && d[0] == DELTA && rx.registry.FindById(Word(d[1..])) == Some(schema)
    requires rx.stream.Expand(schema, d) == Expanded(full, merged) && rx.Receive(full) == (after, Status.Ok, m)
    ensures rx.ReceiveOpened(d)
      == (after.(stream := after.stream.RecordDecodedDelta(m.name, m.payload)), Status.Ok, [m])
  {
    hide Node.Receive, Stream.Expand;
  }

  lemma DeltaShape(schema: SchemaDef, previous: Payload, current: Payload, sequence: u16)
    requires |schema.fields| <= 2040
    requires BuildDelta(schema, previous, current, sequence).Some?
    ensures var d := BuildDelta(schema, previous, current, sequence).value;
      |d| >= 6 && d[0] == DELTA && Word(d[1..]) == schema.messageId && Word(d[3..]) == sequence
  {
    HeaderParts(schema, sequence, ChangedFlags(schema.fields, previous, current),
      DeltaBody(schema.fields, previous, current).value);
  }

  /** A delta with the expected number is delivered, over whatever payload of the schema the receiver holds. */
  lemma DeltaOntoBase(rx: Node, schema: SchemaDef, previous: Payload, payload: Payload, sequence: u16)
    requires Ready(rx, schema, payload) && rx.dict.Inv() && Sendable(schema.fields, previous)
    requires schema.name in rx.stream.lastDecoded && Sendable(schema.fields, rx.stream.lastDecoded[schema.name])
    requires Get(rx.stream.expected, schema.name, 0) == sequence
    requires ClearOfMarker(rx, Rebase(schema.fields, rx.stream.lastDecoded[schema.name], previous, payload))
    ensures BuildDelta(schema, previous, payload, sequence).Some?
    ensures var d := BuildDelta(schema, previous, payload, sequence).value;
      var values := Rebase(schema.fields, rx.stream.lastDecoded[schema.name], previous, payload);
      var m := Named(schema.fields, values);
      && rx.ReceiveOpened(d)
         == (rx.(dict := EncodeValues(rx.dict, values).1, stream := rx.stream.RecordDecodedDelta(schema.name, m)),
             Status.Ok, [Message(schema.name, m)])
  {
    var fields, base := schema.fields, rx.stream.lastDecoded[schema.name];
    rx.registry.FoundById(schema);
    var values := Rebase(fields, base, previous, payload);
    var m := Named(fields, values);
    hide BuildDelta, ExpandDelta, Rebase, EncodeValues, PlainPacket, Node.Receive, ClearOfMarker;
    DeltaOverBase(schema, base, previous, payload, sequence);
    DeltaShape(schema, previous, payload, sequence);
    RebasedRightly(fields, base, previous, payload);
    hide Sendable, SamePayload, Serves;
    assert Ready(rx, schema, m);
    PlainDelivered(rx, schema, m);
    DeltaOpened(rx, schema, BuildDelta(schema, previous, payload, sequence).value, PlainPacket(schema, values), m,
      rx.(dict := EncodeValues(rx.dict, values).1), Message(schema.name, m));
  }

  /** A delta against a coupled base is delivered as the merge of the receiver's base with the changes. */
  lemma DeltaDelivered(rx: Node, schema: SchemaDef, previous: Payload, payload: Payload, sequence: u16)
    requires Ready(rx, schema, payload) && rx.dict.Inv() && Sendable(schema.fields, previous)
    requires schema.name in rx.stream.lastDecoded && Sendable(schema.fields, rx.stream.lastDecoded[schema.name])
    requires SamePayload(schema.fields, rx.stream.lastDecoded[schema.name], previous)
    requires Get(rx.stream.expected, schema.name, 0) == sequence
    ensures BuildDelta(schema, previous, payload, sequence).Some?
    ensures var d := BuildDelta(schema, previous, payload, sequence).value;
      var m := Named(schema.fields, Merge(schema.fields, rx.stream.lastDecoded[schema.name], previous, payload));
      && SamePayload(schema.fields, m, payload) && Sendable(schema.fields, m)
      && rx.ReceiveOpened(d)
         == (rx.(dict := EncodeValues(rx.dict, Ordered(schema.fields, payload)).1,
                 stream := rx.stream.RecordDecodedDelta(schema.name, m)), Status.Ok, [Message(schema.name, m)])
  {
    var fields, base := schema.fields, rx.stream.lastDecoded[schema.name];
    var m := Named(fields, Merge(fields, base, previous, payload));
    rx.registry.FoundById(schema);
    MergeIsCurrent(fields, base, previous, payload);
    RebaseIsMerge(fields, base, previous, payload);
    MergedReady(rx, schema, m, payload);
    hide BuildDelta, Merge, Rebase, EncodeValues, SamePayload, Sendable, Node.ReceiveOpened, PlainValues;
    SameTeachingOf(fields, rx.dict, m, payload);
    DeltaOntoBase(rx, schema, previous, payload, sequence);
  }

  lemma ZeroStartsWithZero(v: FieldValue)
    requires FloatZero(v)
    ensures PlainValue(v) != [] && PlainValue(v)[0] == 0
  {
    assert v.n % 256 == 0;
    assert LE(v.n, v.ntype.Size())[0] == v.n % 256;
  }

  /** The two float zeros begin with the same byte. */
  lemma SameFirstByte(a: FieldValue, b: FieldValue)
    requires Same(a, b) && PlainValue(a) != [] && PlainValue(b) != []
    ensures PlainValue(a)[0] == PlainValue(b)[0]
  {
    if a != b {
      ZeroStartsWithZero(a);
      ZeroStartsWithZero(b);
    }
  }

  /** Hence a merge is as clear of the marker as the payload it stands for. */
  lemma MergedReady(rx: Node, schema: SchemaDef, m: Payload, payload: Payload)
    requires Ready(rx, schema, payload) && Sendable(schema.fields, m) && SamePayload(schema.fields, m, payload)
    ensures Ready(rx, schema, m)
  {
    var fields := schema.fields;
    rx.registry.FoundById(schema);
    FirstValue(fields, m);
    FirstValue(fields, payload);
    var a, b := Ordered(fields, m), Ordered(fields, payload);
    assert Same(a[0], b[0]);
    PlainStarts(a);
    PlainStarts(b);
    hide PlainValues, PlainValue, Same, Sendable;
    SameFirstByte(a[0], b[0]);
  }

  /** Encoding teaches the dictionary the strings alone, and those are equal in payloads that differ in zero signs. */
  lemma {:induction false} SameTeaching(dict: Dict, a: seq<FieldValue>, b: seq<FieldValue>)
    requires |a| == |b| && forall i :: 0 <= i < |a| ==> Same(a[i], b[i])
    ensures EncodeValues(dict, a).1 == EncodeValues(dict, b).1
    decreases |a|
  {
    if a != [] {
      assert EncodeValue(dict, a[0]).1 == EncodeValue(dict, b[0]).1;
      SameTeaching(EncodeValue(dict, a[0]).1, a[1..], b[1..]);
    }
  }

  lemma SameTeachingOf(fields: seq<FieldDef>, dict: Dict, a: Payload, b: Payload)
    requires SamePayload(fields, a, b)
    ensures EncodeValues(dict, Ordered(fields, a)).1 == EncodeValues(dict, Ordered(fields, b)).1
  {
    hide EncodeValues, Same;
    SameTeaching(dict, Ordered(fields, a), Ordered(fields, b));
  }

  // Zero signs.

  /** No float field holds a negative zero. */
  predicate PlusZeros(fields: seq<FieldDef>, p: Payload)
  {
    forall i :: 0 <= i < |fields| && fields[i].name in p ==> !NegativeZero(p[fields[i].name])
  }

  predicate NegativeZero(v: FieldValue) { FloatZero(v) && v.n != 0 }

  /** No field goes from one float zero to the other. */
  predicate ZeroSignsKept(fields: seq<FieldDef>, previous: Payload, current: Payload)
  {
    forall i :: 0 <= i < |fields| && fields[i].name in previous && fields[i].name in current ==>
      ZeroSignKept(previous[fields[i].name], current[fields[i].name])
  }

  predicate ZeroSignKept(a: FieldValue, b: FieldValue) { FloatZero(a) && FloatZero(b) ==> a == b }

  lemma MergedFieldExactly(previous: Payload, current: Payload, name: string)
    requires name in previous && name in current && previous[name].Type() == current[name].Type()
    ensures (!Changed(previous, current, name) ==> previous[name] == current[name])
      <==> ZeroSignKept(previous[name], current[name])
  {
  }

  /**
   * A delta between equal bases delivers exactly the payload if and only if no float field goes from one zero to
   * the other: the comparison that marks fields as changed does not tell +0 from -0.
   */
  lemma DeltaExactlyWhen(fields: seq<FieldDef>, previous: Payload, current: Payload)
    requires Distinct(fields) && Fits(fields, previous) && Fits(fields, current)
    ensures Named(fields, Merge(fields, previous, previous, current)) == current
      <==> ZeroSignsKept(fields, previous, current)
  {
    var values := Merge(fields, previous, previous, current);
    forall i | 0 <= i < |fields|
      ensures values[i] == Ordered(fields, current)[i]
        <==> ZeroSignKept(previous[fields[i].name], current[fields[i].name])
    {
      MergedFieldExactly(previous, current, fields[i].name);
    }
    hide Changed, Merge, ZeroSignKept;
    if ZeroSignsKept(fields, previous, current) {
      assert values == Ordered(fields, current);
      NamedOfOrdered(fields, current);
    }
    if Named(fields, values) == current {
      forall i | 0 <= i < |fields| ensures values[i] == Ordered(fields, current)[i] { NamedAt(fields, values, i); }
    }
  }

  /** Without negative zeros on either side no sign can change. */
  lemma PlusZerosKept(fields: seq<FieldDef>, previous: Payload, current: Payload)
    requires Fits(fields, previous) && Fits(fields, current)
    requires PlusZeros(fields, previous) && PlusZeros(fields, current)
    ensures ZeroSignsKept(fields, previous, current)
  {
    forall i | 0 <= i < |fields| ensures ZeroSignKept(previous[fields[i].name], current[fields[i].name]) { }
  }

  lemma ExactMerge(fields: seq<FieldDef>, previous: Payload, current: Payload)
    requires Distinct(fields) && Fits(fields, previous) && Fits(fields, current)
    requires PlusZeros(fields, previous) && PlusZeros(fields, current)
    ensures Named(fields, Merge(fields, previous, previous, current)) == current
  {
    PlusZerosKept(fields, previous, current);
    DeltaExactlyWhen(fields, previous, current);
  }

  /** Payloads the stream finds equal are equal up to zero signs, and equal if and only if it keeps them. */
  lemma EqualForStream(fields: seq<FieldDef>, a: Payload, b: Payload)
    requires Fits(fields, a) && Fits(fields, b) && PayloadEquals(a, b)
    ensures SamePayload(fields, a, b)
    ensures a == b <==> ZeroSignsKept(fields, a, b)
  {
    forall i | 0 <= i < |fields| ensures Same(a[fields[i].name], b[fields[i].name]) {
      assert !Changed(a, b, fields[i].name);
    }
    hide Changed;
    if ZeroSignsKept(fields, a, b) {
      forall name | name in a ensures a[name] == b[name] {
        var i :| 0 <= i < |fields| && fields[i].name == name;
        assert Same(a[fields[i].name], b[fields[i].name]) && ZeroSignKept(a[fields[i].name], b[fields[i].name]);
      }
    }
  }
}
