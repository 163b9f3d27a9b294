/** Decoding out of an unframed byte stream: `receive_recovered_stream`, and what it makes of a sender's packets. */
module Resync {
  import opened Wire
  import opened Schema
  import opened Registry
  import opened Dictionary
  import opened Codec
  import opened RuntimeOptimizer
  import opened Corruption
  import opened Delta
  import opened StreamOptimizer
  import opened Runtime
  import opened Delivery
  import opened Fidelity
  import opened Synchronizer

  /** Decodes recovered packets in order, up to the first failure. */
  function ReceiveFound(node: Node, found: seq<Recovered>): (Node, Status, seq<Message>)
    decreases |found|
  {
    if found == [] then (node, Status.Ok, [])
    else
      var (after, status, m) := node.Receive(found[0].packet);
      if status != Status.Ok then (after, status, [])
      else
        var (last, s, ms) := ReceiveFound(after, found[1..]);
        (last, s, [m] + ms)
  }

  /** The bytes passed over to reach these packets. */
  function SkippedBytes(found: seq<Recovered>): nat
  {
    if found == [] then 0 else SkippedBytes(found[..|found| - 1]) + found[|found| - 1].skipped
  }

  function PacketBytes(found: seq<Recovered>): nat
  {
    if found == [] then 0 else PacketBytes(found[..|found| - 1]) + |found[|found| - 1].packet|
  }

  lemma {:induction false} GapsAndPackets(found: seq<Recovered>, k: nat)
    requires k <= |found|
    requires forall i: nat :: i < |found| ==> found[i].offset == StartOf(0, found, i) + found[i].skipped
    ensures SkippedBytes(found[..k]) + PacketBytes(found[..k]) == StartOf(0, found, k)
    decreases k
  {
    if k > 0 {
      GapsAndPackets(found, k - 1);
      assert found[..k][..k - 1] == found[..k - 1];
    }
  }

  /** The bytes passed over are exactly those in the gaps: together with the packets they reach where the last ends. */
  lemma SkippedAreGaps(reg: Registry, stream: seq<byte>, k: nat)
    requires reg.Valid() && k <= |RecoverFrom(reg, stream, 0)|
    ensures var found := RecoverFrom(reg, stream, 0);
      SkippedBytes(found[..k]) + PacketBytes(found[..k]) == StartOf(0, found, k)
  {
    hide *;
    RecoveryTiles(reg, stream, 0);
    var found := RecoverFrom(reg, stream, 0);
    forall i: nat | i < |found| ensures found[i].offset == StartOf(0, found, i) + found[i].skipped {
      PlacedAt(reg, stream, StartOf(0, found, i), found[i]);
    }
    GapsAndPackets(found, k);
  }

  lemma PlacedAt(reg: Registry, stream: seq<byte>, start: nat, r: Recovered)
    requires Placed(reg, stream, start, r)
    ensures r.offset == start + r.skipped
  {
    hide PacketAt, CandidateValid, Silent;
  }

  /** `receive_recovered_stream`, with at most `limit` packets decoded. */
  function ReceiveRecovered(node: Node, stream: seq<byte>, limit: nat): (Node, Status, seq<Message>)
  {
    if RecoverFrom(node.registry, stream, 0) == [] then (node, SynchronizationFailed, [])
    else ReceiveFound(node, Limited(RecoverFrom(node.registry, stream, 0), limit))
  }

  function Limited(found: seq<Recovered>, limit: nat): seq<Recovered>
  {
    if |found| < limit then found else found[..limit]
  }

  /** The synchronizer looks for the marker whatever the optimizer's setting. */
  predicate NoMarker(values: seq<FieldValue>)
  {
    PlainValues(values) == [] || PlainValues(values)[0] != MARKER
  }

  /** Every packet a sender encodes is a frame: measured to exactly its end. */
  lemma SentIsFrame(tx: Node, schema: SchemaDef, payload: Payload)
    requires Ready(tx, schema, payload) && NoMarker(Ordered(schema.fields, payload))
    ensures Frame(tx.registry, tx.Send(schema.name, payload).2)
  {
    hide *;
    ReadySchema(tx, schema, payload);
    ClearPacket(tx, schema, payload);
    SentBase(tx, schema, payload);
    EncodedIsFrame(tx.registry, schema,
      LE(schema.messageId, 2) + EncodeValues(tx.dict, Ordered(schema.fields, payload)).0);
  }

  lemma ReadySchema(tx: Node, schema: SchemaDef, payload: Payload)
    requires Ready(tx, schema, payload)
    ensures schema.fields != [] && |schema.fields| <= 2040
    ensures tx.registry.FindById(schema.messageId) == Some(schema)
    ensures forall i :: 0 <= i < |schema.fields| ==> schema.fields[i].name in payload
  {
    tx.registry.FoundById(schema);
  }

  /** A packet of the grammar is a frame, and so is what the optimizer makes of it. */
  lemma EncodedIsFrame(reg: Registry, schema: SchemaDef, packet: seq<byte>)
    requires WellFormed(schema, packet) && |packet| >= 3 && packet[2] != MARKER && |schema.fields| <= 2040
    requires Span(schema.fields, false, packet[2..]) == Some(|packet| - 2)
    requires reg.FindById(schema.messageId) == Some(schema)
    ensures Frame(reg, packet)
    ensures Optimize(schema.fields, packet).ok && Frame(reg, Optimize(schema.fields, packet).packet)
  {
    OptimizedKeepsId(schema, packet);
    hide Optimize, Span, Frame;
    BaseIsFrame(reg, schema, packet, packet);
    BaseIsFrame(reg, schema, packet, Optimize(schema.fields, packet).packet);
  }

  /** The unoptimized packet is well formed and clear of the marker. */
  lemma ClearPacket(tx: Node, schema: SchemaDef, payload: Payload)
    requires Ready(tx, schema, payload) && NoMarker(Ordered(schema.fields, payload)) && schema.fields != []
    ensures var packet := LE(schema.messageId, 2) + EncodeValues(tx.dict, Ordered(schema.fields, payload)).0;
      && WellFormed(schema, packet) && |packet| >= 3 && packet[2] != MARKER
      && Span(schema.fields, false, packet[2..]) == Some(|packet| - 2)
  {
    var values := Ordered(schema.fields, payload);
    FirstValue(schema.fields, payload);
    EncodedPacket(schema, tx.dict, values);
    EncodedStarts(tx.dict, values);
    hide EncodeValues, Span, WellFormed, Sendable;
    assert (LE(schema.messageId, 2) + EncodeValues(tx.dict, values).0)[2] == EncodeValues(tx.dict, values).0[0];
  }

  lemma SentBase(tx: Node, schema: SchemaDef, payload: Payload)
    requires Ready(tx, schema, payload)
    ensures var packet := LE(schema.messageId, 2) + EncodeValues(tx.dict, Ordered(schema.fields, payload)).0;
      tx.Send(schema.name, payload).2
        == if tx.optimizer && tx.omission then
             (if Optimize(schema.fields, packet).ok then Optimize(schema.fields, packet).packet else [])
           else packet
  {
    hide EncodeValues, Optimize, AllCarried, ClearOfMarker;
  }

  lemma BaseIsFrame(reg: Registry, schema: SchemaDef, packet: seq<byte>, base: seq<byte>)
    requires WellFormed(schema, packet) && |base| >= 2 && Word(base) == schema.messageId
    requires reg.FindById(schema.messageId) == Some(schema)
    requires if IsOptimized(base) then Deoptimize(schema.fields, base) == Applied(base, packet) else base == packet
    ensures Frame(reg, base)
  {
    CheckIsGrammar(schema, packet);
    hide Check, WellFormed, Measure;
    assert CandidateValid(schema, base);
    CandidateAgrees(schema, base);
  }

  /** A payload of one of the registered schemas. */
  datatype Item = Item(schema: SchemaDef, payload: Payload)

  /** What a sender encodes for the items one after the other, and the dictionary it ends with. */
  function SendAll(tx: Node, items: seq<Item>): (Node, seq<Packet>)
    decreases |items|
  {
    if items == [] then (tx, [])
    else
      var (after, _, base) := tx.Send(items[0].schema.name, items[0].payload);
      var (last, rest) := SendAll(after, items[1..]);
      (last, [base] + rest)
  }

  ghost predicate FineOne(tx: Node, item: Item)
  {
    Ready(tx, item.schema, item.payload) && NoMarker(Ordered(item.schema.fields, item.payload))
  }

  ghost predicate AllFine(tx: Node, items: seq<Item>)
  {
    forall i :: 0 <= i < |items| ==> FineOne(tx, items[i])
  }

  lemma FineLater(tx: Node, tx1: Node, items: seq<Item>)
    requires AllFine(tx, items) && items != [] && tx1 == tx.(dict := tx1.dict)
    ensures FineOne(tx, items[0]) && AllFine(tx1, items[1..])
  {
    forall i | 0 <= i < |items[1..]| ensures FineOne(tx1, items[1..][i]) {
      assert items[1..][i] == items[i + 1];
      assert FineOne(tx, items[i + 1]);
      hide Sendable, NoMarker;
    }
  }

  /** Sending the first item: its packet is a frame, and a receiver in step decodes it. */
  lemma FirstSent(tx: Node, rx: Node, items: seq<Item>) returns (after: Node, base: Packet)
    requires items != [] && FineOne(tx, items[0]) && tx.dict.Inv()
    requires rx.registry == tx.registry && rx.optimizer == tx.optimizer && rx.dict == tx.dict
    ensures after == tx.(dict := after.dict) && after.dict.Inv()
    ensures Frame(tx.registry, base)
    ensures rx.Receive(base)
      == (rx.(dict := after.dict), Status.Ok, Message(items[0].schema.name, items[0].payload))
    ensures var later := SendAll(after, items[1..]);
      SendAll(tx, items) == (later.0, [base] + later.1)
  {
    BaseDelivered(tx, rx, items[0].schema, items[0].payload);
    SentIsFrame(tx, items[0].schema, items[0].payload);
    hide Node.Send, Node.Receive, Frame, EncodeValues, Dict.Inv, FineOne, Ready;
    var sent := tx.Send(items[0].schema.name, items[0].payload);
    after, base := sent.0, sent.2;
  }

  lemma FoundStep(rx: Node, found: seq<Recovered>, rx1: Node, m: Message)
    requires found != [] && rx.Receive(found[0].packet) == (rx1, Status.Ok, m)
    ensures var rest := ReceiveFound(rx1, found[1..]); ReceiveFound(rx, found) == (rest.0, rest.1, [m] + rest.2)
  {
    hide Node.Receive;
  }

  /** Recovered packets that are a sender's decode to its payloads, with the receiver's dictionary in step. */
  lemma {:induction false} SentIsReceived(tx: Node, rx: Node, items: seq<Item>, found: seq<Recovered>)
    requires AllFine(tx, items) && tx.dict.Inv()
    requires rx.registry == tx.registry && rx.optimizer == tx.optimizer && rx.dict == tx.dict
    requires RecoveredAs(found, SendAll(tx, items).1)
    ensures var (last, status, messages) := ReceiveFound(rx, found);
      && status == Status.Ok && last == rx.(dict := SendAll(tx, items).0.dict)
      && messages == Messages(items)
    decreases |items|
  {
    hide *;
    if items == [] {
      NothingSent(tx, rx, found);
    } else {
      FineLater(tx, tx, items);
      var after, base := FirstSent(tx, rx, items);
      FineLater(tx, after, items);
      RecoveredLater(found, base, SendAll(after, items[1..]).1);
      var rx1 := rx.(dict := after.dict);
      SentIsReceived(after, rx1, items[1..], found[1..]);
      FoundStep(rx, found, rx1, Message(items[0].schema.name, items[0].payload));
      MessagesCons(items);
    }
  }

  lemma NothingSent(tx: Node, rx: Node, found: seq<Recovered>)
    requires RecoveredAs(found, SendAll(tx, []).1) && rx.dict == tx.dict
    ensures ReceiveFound(rx, found) == (rx.(dict := SendAll(tx, []).0.dict), Status.Ok, Messages([]))
  {
    assert found == [];
    assert Messages([]) == [];
  }

  /** Every payload under the name of its schema. */
  function Messages(items: seq<Item>): seq<Message>
  {
    seq(|items|, i requires 0 <= i < |items| => Message(items[i].schema.name, items[i].payload))
  }

  lemma MessagesCons(items: seq<Item>)
    requires items != []
    ensures Messages(items) == [Message(items[0].schema.name, items[0].payload)] + Messages(items[1..])
  {
  }

  lemma RecoveredLater(found: seq<Recovered>, p: Packet, rest: seq<Packet>)
    requires RecoveredAs(found, [p] + rest)
    ensures found != [] && found[0].packet == p && RecoveredAs(found[1..], rest)
  {
    forall i | 0 <= i < |rest| ensures found[1..][i].packet == rest[i] && found[1..][i].skipped == 0 {
      assert found[1..][i] == found[i + 1] && rest[i] == ([p] + rest)[i + 1];
    }
  }

  lemma {:induction false} SentAreFrames(tx: Node, items: seq<Item>)
    requires AllFine(tx, items) && tx.dict.Inv()
    ensures AllFrames(tx.registry, SendAll(tx, items).1)
    ensures |SendAll(tx, items).1| == |items|
    decreases |items|
  {
    hide *;
    if items == [] {
      NothingFramed(tx);
    } else {
      FineLater(tx, tx, items);
      var after, base := FirstSent(tx, tx, items);
      FineLater(tx, after, items);
      SentAreFrames(after, items[1..]);
      FramesCons(tx.registry, base, SendAll(after, items[1..]).1);
    }
  }

  lemma NothingFramed(tx: Node)
    ensures AllFrames(tx.registry, SendAll(tx, []).1) && |SendAll(tx, []).1| == 0
  {
  }

  lemma FramesCons(reg: Registry, p: Packet, rest: seq<Packet>)
    requires Frame(reg, p) && AllFrames(reg, rest)
    ensures AllFrames(reg, [p] + rest)
  {
    hide Frame;
  }

  function Least(a: nat, b: nat): nat { if a < b then a else b }

  lemma {:induction false} SendFirst(tx: Node, items: seq<Item>, m: nat)
    requires m <= |items|
    ensures |SendAll(tx, items).1| == |items| && SendAll(tx, items[..m]).1 == SendAll(tx, items).1[..m]
    decreases |items|
  {
    hide Node.Send;
    if items != [] {
      var after := tx.Send(items[0].schema.name, items[0].payload).0;
      SendFirst(after, items[1..], if m == 0 then 0 else m - 1);
      if m > 0 { assert items[..m][0] == items[0] && items[..m][1..] == items[1..][..m - 1]; }
    }
  }

  lemma FineFirst(tx: Node, items: seq<Item>, m: nat)
    requires AllFine(tx, items) && m <= |items|
    ensures AllFine(tx, items[..m])
  {
    hide FineOne;
  }

  lemma RecoveredFirst(found: seq<Recovered>, sent: seq<Packet>, m: nat)
    requires RecoveredAs(found, sent) && m <= |sent|
    ensures m <= |found| == |sent| && RecoveredAs(found[..m], sent[..m])
  {
  }

  /**
   * A sender's packets, for payloads of any registered schemas, written one after the other without any framing, are
   * found again and decoded in order, dictionary references included: the payloads under their names, all of them or,
   * when the limit is smaller, exactly the first ones that it allows; the dictionary ends as if no more had been sent.
   */
  lemma UnframedStreamDelivers(tx: Node, rx: Node, items: seq<Item>, limit: nat)
    requires AllFine(tx, items) && tx.dict.Inv() && |items| >= 1
    requires rx.registry == tx.registry && rx.optimizer == tx.optimizer && rx.dict == tx.dict
    ensures var taken := items[..Least(limit, |items|)];
      ReceiveRecovered(rx, Concat(SendAll(tx, items).1), limit)
      == (rx.(dict := SendAll(tx, taken).0.dict), Status.Ok, Messages(taken))
  {
    hide *;
    var sent, m := SendAll(tx, items).1, Least(limit, |items|);
    LeastIs(limit, |items|);
    FineRegistry(tx, items);
    SentAreFrames(tx, items);
    var stream := Concat(sent);
    assert stream[0..] == stream;
    ConcatenationRecovered(tx.registry, sent, stream, 0);
    var found := RecoverFrom(tx.registry, stream, 0);
    SendFirst(tx, items, m);
    FineFirst(tx, items, m);
    RecoveredFirst(found, sent, m);
    SentIsReceived(tx, rx, items[..m], found[..m]);
    FirstDecoded(rx, stream, limit, found);
  }

  lemma LeastIs(a: nat, b: nat)
    ensures Least(a, b) <= b && Least(a, b) == if a < b then a else b
  {
  }

  lemma FirstDecoded(node: Node, stream: seq<byte>, limit: nat, found: seq<Recovered>)
    requires found == RecoverFrom(node.registry, stream, 0) && found != []
    ensures Least(limit, |found|) <= |found|
    ensures ReceiveRecovered(node, stream, limit) == ReceiveFound(node, found[..Least(limit, |found|)])
  {
    hide RecoverFrom, ReceiveFound;
    assert found[..|found|] == found;
  }

  /** Decoding fewer packets delivers the first of the messages. */
  lemma {:induction false} FoundPrefix(node: Node, found: seq<Recovered>, m: nat)
    requires m <= |found|
    ensures |ReceiveFound(node, found[..m]).2| <= m
    ensures ReceiveFound(node, found[..m]).1 == Status.Ok ==> |ReceiveFound(node, found[..m]).2| == m
    ensures ReceiveFound(node, found[..m]).2 <= ReceiveFound(node, found).2
    decreases |found|
  {
    hide Node.Receive;
    if m > 0 {
      var (after, status, message) := node.Receive(found[0].packet);
      assert found[..m][0] == found[0] && found[..m][1..] == found[1..][..m - 1];
      if status == Status.Ok { FoundPrefix(after, found[1..], m - 1); }
    }
  }

  /**
   * On any bytes at all: no more messages than the limit are delivered, exactly as many as there are packets or the
   * limit allows unless one fails to decode, and a larger limit delivers the same messages first.
   */
  lemma LimitKept(node: Node, stream: seq<byte>, limit: nat, larger: nat)
    requires limit <= larger
    ensures var (_, status, messages) := ReceiveRecovered(node, stream, limit);
      && |messages| <= limit && messages <= ReceiveRecovered(node, stream, larger).2
      && (status == Status.Ok ==> |messages| == Least(limit, |RecoverFrom(node.registry, stream, 0)|))
  {
    hide ReceiveFound, RecoverFrom;
    var found := RecoverFrom(node.registry, stream, 0);
    if found != [] {
      FirstDecoded(node, stream, limit, found);
      FirstDecoded(node, stream, larger, found);
      var m, most := Least(limit, |found|), Least(larger, |found|);
      FoundPrefix(node, found[..most], m);
      assert found[..most][..m] == found[..m];
    }
  }

  lemma FineRegistry(tx: Node, items: seq<Item>)
    requires AllFine(tx, items) && items != []
    ensures tx.registry.Valid()
  {
    assert FineOne(tx, items[0]);
  }
}
