/** Batching conserves messages: what the receiver delivers, and what the queue still holds, is what was sent. */
module BatchMessages {
  import opened Wire
  import opened Schema
  import opened Registry
  import Dictionary
  import opened Codec
  import Corruption
  import RuntimeOptimizer
  import Crc
  import opened StreamOptimizer
  import opened Runtime
  import opened Delivery
  import opened Fidelity
  import opened Batch

  /** What the receiver makes of a packet. */
  function Reading(rx: Node, p: Packet): Message { rx.Receive(p).2 }

  /** It decodes it, and is left as it was. */
  predicate Readable(rx: Node, p: Packet)
  {
    rx.Receive(p) == (rx, Status.Ok, Reading(rx, p))
  }

  predicate AllReadable(rx: Node, packets: seq<Packet>)
  {
    forall i :: 0 <= i < |packets| ==> Readable(rx, packets[i])
  }

  function Readings(rx: Node, packets: seq<Packet>): (messages: seq<Message>)
    ensures |messages| == |packets|
  {
    seq(|packets|, i requires 0 <= i < |packets| => Reading(rx, packets[i]))
  }

  lemma ReadElsewhere(rx: Node, rx1: Node, p: Packet)
    requires rx1 == rx.(stream := rx1.stream)
    ensures Reading(rx1, p) == Reading(rx, p) && Readable(rx1, p) == Readable(rx, p)
  {
    hide DecodeValues, Corruption.Check, RuntimeOptimizer.Deoptimize, Validated;
  }

  /** The receiver of a batch delivers what each packet reads as, and only its stream state moves. */
  lemma {:induction false} EachReceived(rx: Node, packets: seq<Packet>)
    requires AllReadable(rx, packets)
    ensures var (last, status, messages) := rx.ReceiveEach(packets);
      last == rx.(stream := last.stream) && status == Status.Ok && messages == Readings(rx, packets)
    decreases |packets|
  {
    hide *;
    if packets == [] {
      NoneReceived(rx);
    } else {
      var rx1 := OneReceived(rx, packets);
      EachReceived(rx1, packets[1..]);
    }
  }

  lemma NoneReceived(rx: Node)
    ensures rx.ReceiveEach([]) == (rx, Status.Ok, []) && Readings(rx, []) == []
  {
  }

  lemma OneReceived(rx: Node, packets: seq<Packet>) returns (rx1: Node)
    requires AllReadable(rx, packets) && packets != []
    ensures rx1 == rx.(stream := rx1.stream) && AllReadable(rx1, packets[1..])
    ensures var (last, status, messages) := rx1.ReceiveEach(packets[1..]);
      rx.ReceiveEach(packets) == (last, status, [Reading(rx, packets[0])] + messages)
    ensures Readings(rx, packets) == [Reading(rx, packets[0])] + Readings(rx1, packets[1..])
  {
    hide *;
    var m := Reading(rx, packets[0]);
    rx1 := rx.(stream := rx.stream.RecordDecoded(m.name, m.payload));
    FirstReadable(rx, packets);
    FirstOfEach(rx, packets, m);
    ReadElsewhereAll(rx, rx1, packets[1..]);
  }

  lemma FirstReadable(rx: Node, packets: seq<Packet>)
    requires AllReadable(rx, packets) && packets != []
    ensures rx.Receive(packets[0]) == (rx, Status.Ok, Reading(rx, packets[0])) && AllReadable(rx, packets[1..])
    ensures Readings(rx, packets) == [Reading(rx, packets[0])] + Readings(rx, packets[1..])
  {
    hide Node.Receive, Reading;
    assert Readable(rx, packets[0]);
    forall i | 0 <= i < |packets[1..]| ensures Readable(rx, packets[1..][i]) {
      assert packets[1..][i] == packets[i + 1];
    }
  }

  lemma FirstOfEach(rx: Node, packets: seq<Packet>, m: Message)
    requires packets != [] && rx.Receive(packets[0]) == (rx, Status.Ok, m)
    ensures var rx1 := rx.(stream := rx.stream.RecordDecoded(m.name, m.payload));
      var (last, status, messages) := rx1.ReceiveEach(packets[1..]);
      rx.ReceiveEach(packets) == (last, status, [m] + messages)
  {
    hide Node.Receive;
  }

  /** One emission, opened and expanded. */
  lemma WireReceived(tx: Node, rx: Node, wire: Option<Packet>)
    requires Opens(tx, wire) && wire.Some? && AllReadable(rx, Emitted(tx, wire))
    ensures var (last, status, messages) := rx.ReceiveStream(wire.value);
      last == rx.(stream := last.stream) && status == Status.Ok && messages == Readings(rx, Emitted(tx, wire))
  {
    hide *;
    var p := Opened(tx, wire);
    EnvelopeOpened(tx, rx, p);
    ContentsOf(tx, p);
    Dispatched(rx, p);
    EachReceived(rx, Emitted(tx, wire));
  }

  lemma Opened(tx: Node, wire: Option<Packet>) returns (p: Packet)
    requires Opens(tx, wire) && wire.Some?
    ensures wire.value == tx.Envelope(p) && Expands(p) && p != [] && p[0] != Crc.ENVELOPE
    ensures Emitted(tx, wire) == Contents(tx.crc, tx.Envelope(p))
  {
    hide Node.Envelope, Contents, ExpandIncoming;
    p :| wire.value == tx.Envelope(p) && Expands(p);
  }

  lemma Dispatched(rx: Node, p: Packet)
    requires Expands(p)
    ensures ExpandIncoming(p).Some? && rx.ReceiveOpened(p) == rx.ReceiveEach(ExpandIncoming(p).value)
  {
    hide ExpandIncoming, Node.ReceiveEach;
  }

  /** Packets that agree as multisets read as messages that agree as multisets. */
  lemma {:induction false} ReadingsAgree(rx: Node, a: seq<Packet>, b: seq<Packet>)
    requires multiset(a) == multiset(b)
    ensures multiset(Readings(rx, a)) == multiset(Readings(rx, b))
    decreases |a|
  {
    hide *;
    if a == [] {
      SameSize(a, b);
    } else {
      var i := Found(a, b);
      var later, others := a[1..], b[..i] + b[i + 1..];
      Pulled(rx, b, i);
      Pulled(rx, a, 0);
      NothingBefore(a);
      Cancel(a[0], multiset(later), multiset(others));
      ReadingsAgree(rx, later, others);
    }
  }

  lemma SameSize(a: seq<Packet>, b: seq<Packet>)
    requires multiset(a) == multiset(b) && a == []
    ensures b == []
  {
    assert |b| == |multiset(b)| == |multiset(a)| == 0;
  }

  lemma NothingBefore(a: seq<Packet>)
    requires a != []
    ensures a[..0] + a[0 + 1..] == a[1..]
  {
  }

  lemma Found(a: seq<Packet>, b: seq<Packet>) returns (i: nat)
    requires a != [] && multiset(a) == multiset(b)
    ensures i < |b| && b[i] == a[0]
  {
    assert a[0] in multiset(b);
    i :| 0 <= i < |b| && b[i] == a[0];
  }

  lemma Cancel(p: Packet, x: multiset<Packet>, y: multiset<Packet>)
    requires multiset{p} + x == multiset{p} + y
    ensures x == y
  {
    assert x == (multiset{p} + x) - multiset{p};
    assert y == (multiset{p} + y) - multiset{p};
  }

  lemma Pulled(rx: Node, packets: seq<Packet>, i: nat)
    requires i < |packets|
    ensures multiset(packets) == multiset{packets[i]} + multiset(packets[..i] + packets[i + 1..])
    ensures multiset(Readings(rx, packets))
      == multiset{Reading(rx, packets[i])} + multiset(Readings(rx, packets[..i] + packets[i + 1..]))
  {
    hide Reading;
    var others := packets[..i] + packets[i + 1..];
    assert packets == packets[..i] + ([packets[i]] + packets[i + 1..]);
    var m := Readings(rx, packets);
    assert m == m[..i] + ([m[i]] + m[i + 1..]);
    assert Readings(rx, others) == m[..i] + m[i + 1..];
  }

  lemma ReadingsAppend(rx: Node, a: seq<Packet>, b: seq<Packet>)
    ensures Readings(rx, a + b) == Readings(rx, a) + Readings(rx, b)
  {
    hide Reading;
  }

  predicate MessagesConserve(before: seq<Message>, sent: seq<Message>, delivered: seq<Message>, after: seq<Message>)
  {
    multiset(delivered) + multiset(after) == multiset(before) + multiset(sent)
  }

  lemma ConservesReadings(rx: Node, before: seq<Packet>, sent: seq<Packet>, emitted: seq<Packet>, after: seq<Packet>)
    requires Conserves(before, sent, emitted, after)
    ensures MessagesConserve(Readings(rx, before), Readings(rx, sent), Readings(rx, emitted), Readings(rx, after))
  {
    hide Reading, Readings;
    assert multiset(emitted + after) == multiset(before + sent);
    ReadingsAgree(rx, emitted + after, before + sent);
    ReadingsAppend(rx, emitted, after);
    ReadingsAppend(rx, before, sent);
  }

  /** What can be read before a step can be read after it: no packet is invented. */
  lemma ReadableAfter(rx: Node, before: seq<Packet>, sent: seq<Packet>, emitted: seq<Packet>, after: seq<Packet>)
    requires Conserves(before, sent, emitted, after) && AllReadable(rx, before) && AllReadable(rx, sent)
    ensures AllReadable(rx, emitted) && AllReadable(rx, after)
  {
    hide Readable;
    forall p | p in emitted || p in after ensures Readable(rx, p) {
      assert p in multiset(emitted) + multiset(after);
      assert p in multiset(before) || p in multiset(sent);
    }
  }

  /** Sends and flushes, with every emission received at once: both ends, whether all was well, and the messages. */
  function Exchanged(tx: Node, rx: Node, ops: seq<Op>): (Node, Node, bool, seq<Message>)
    decreases |ops|
  {
    if ops == [] then (tx, rx, true, [])
    else
      var (tx1, wire) := Steps(tx, ops[0]);
      match wire
      case None => Exchanged(tx1, rx, ops[1..])
      case Some(p) =>
        var (rx1, status, messages) := rx.ReceiveStream(p);
        var (a, b, well, later) := Exchanged(tx1, rx1, ops[1..]);
        (a, b, status == Status.Ok && well, messages + later)
  }

  /** The messages that were sent. */
  function SentMessages(ops: seq<Op>): seq<Message>
    decreases |ops|
  {
    if ops == [] then []
    else (match ops[0] case Flush => [] case Send(schema, payload, _) => [Message(schema.name, payload)])
         + SentMessages(ops[1..])
  }

  lemma ExchangedLater(tx: Node, rx: Node, ops: seq<Op>)
    requires ops != []
    ensures var (tx1, wire) := Steps(tx, ops[0]);
      && (wire.None? ==> Exchanged(tx, rx, ops) == Exchanged(tx1, rx, ops[1..]))
      && (wire.Some? ==>
            var got := rx.ReceiveStream(wire.value);
            var later := Exchanged(tx1, got.0, ops[1..]);
            Exchanged(tx, rx, ops) == (later.0, later.1, got.1 == Status.Ok && later.2, got.2 + later.3))
  {
    hide Steps, Node.ReceiveStream;
  }

  lemma NothingExchanged(tx: Node, rx: Node)
    ensures Exchanged(tx, rx, []) == (tx, rx, true, []) && SentMessages([]) == [] && Batch.Run(tx, []) == (tx, [])
    ensures Readings(rx, []) == []
  {
  }

  /** The packet of a permitted send reads as its message. */
  lemma SendsReadable(tx: Node, rx: Node, ops: seq<Op>)
    requires Peers(tx, rx) && ops != [] && Permitted(tx, ops[0])
    ensures AllReadable(rx, Sends(tx, ops[0]))
    ensures SentMessages(ops) == Readings(rx, Sends(tx, ops[0])) + SentMessages(ops[1..])
  {
    hide *;
    PeersParts(tx, rx);
    match ops[0]
    case Flush => SendsNothing(tx, rx, ops);
    case Send(schema, payload, lowChange) =>
      PermittedParts(tx, ops[0]);
      FineParts(tx, schema, payload);
      SentDict(tx, schema, payload);
      BaseDelivered(tx, rx, schema, payload);
      SendsOne(tx, rx, ops);
  }

  lemma PermittedParts(tx: Node, op: Op)
    requires Permitted(tx, op) && op.Send?
    ensures Fine(tx, op.schema, op.payload) && RepeatsExactly(tx, op.schema, op.payload)
  {
    hide Fine, RepeatsExactly;
  }

  lemma SendsNothing(tx: Node, rx: Node, ops: seq<Op>)
    requires ops != [] && ops[0].Flush?
    ensures Sends(tx, ops[0]) == [] && AllReadable(rx, []) && Readings(rx, []) == []
    ensures SentMessages(ops) == [] + SentMessages(ops[1..])
  {
  }

  lemma SendsOne(tx: Node, rx: Node, ops: seq<Op>)
    requires ops != [] && ops[0].Send?
    requires rx.Receive(tx.Send(ops[0].schema.name, ops[0].payload).2)
      == (rx, Status.Ok, Message(ops[0].schema.name, ops[0].payload))
    ensures AllReadable(rx, Sends(tx, ops[0]))
    ensures SentMessages(ops) == Readings(rx, Sends(tx, ops[0])) + SentMessages(ops[1..])
  {
    hide Node.Send, Node.Receive;
    assert Sends(tx, ops[0]) == [tx.Send(ops[0].schema.name, ops[0].payload).2];
    assert Readings(rx, Sends(tx, ops[0])) == [Message(ops[0].schema.name, ops[0].payload)];
  }

  /** The receiver's side of one step. */
  lemma StepDelivers(tx: Node, rx: Node, wire: Option<Packet>) returns (rx1: Node, messages: seq<Message>)
    requires Opens(tx, wire) && AllReadable(rx, Emitted(tx, wire))
    ensures rx1 == rx.(stream := rx1.stream) && messages == Readings(rx, Emitted(tx, wire))
    ensures wire.None? ==> rx1 == rx && messages == []
    ensures wire.Some? ==> rx.ReceiveStream(wire.value) == (rx1, Status.Ok, messages)
  {
    hide *;
    if wire.None? {
      NothingExchanged(tx, rx);
      NoneEmitted(tx);
      rx1, messages := rx, [];
    } else {
      WireReceived(tx, rx, wire);
      rx1, messages := rx.ReceiveStream(wire.value).0, rx.ReceiveStream(wire.value).2;
    }
  }

  lemma NoneEmitted(tx: Node)
    ensures Emitted(tx, None) == []
  {
  }

  lemma ReadElsewhereAll(rx: Node, rx1: Node, packets: seq<Packet>)
    requires rx1 == rx.(stream := rx1.stream)
    ensures Readings(rx1, packets) == Readings(rx, packets) && AllReadable(rx1, packets) == AllReadable(rx, packets)
  {
    hide Reading, Readable;
    forall i | 0 <= i < |packets|
      ensures Reading(rx1, packets[i]) == Reading(rx, packets[i])
      ensures Readable(rx1, packets[i]) == Readable(rx, packets[i])
    {
      ReadElsewhere(rx, rx1, packets[i]);
    }
  }

  lemma StillPeers(tx: Node, rx: Node, tx1: Node, rx1: Node)
    requires Peers(tx, rx) && tx1 == tx.(stream := tx1.stream) && rx1 == rx.(stream := rx1.stream)
    ensures Peers(tx1, rx1)
  {
    hide Registry.Valid, Dictionary.Dict.Inv;
  }

  lemma MessagesTrans(before: seq<Message>, sent0: seq<Message>, delivered0: seq<Message>, between: seq<Message>,
                      sent1: seq<Message>, delivered1: seq<Message>, after: seq<Message>)
    requires MessagesConserve(before, sent0, delivered0, between) && MessagesConserve(between, sent1, delivered1, after)
    ensures MessagesConserve(before, sent0 + sent1, delivered0 + delivered1, after)
  {
    var d0, d1, a := multiset(delivered0), multiset(delivered1), multiset(after);
    calc {
      multiset(delivered0 + delivered1) + a;
      d0 + (d1 + a);
      d0 + (multiset(between) + multiset(sent1));
      (d0 + multiset(between)) + multiset(sent1);
      (multiset(before) + multiset(sent0)) + multiset(sent1);
      multiset(before) + multiset(sent0 + sent1);
    }
  }

  /**
   * Message conservation over whole runs of sends and flushes, every emission received at once: nothing is refused, and
   * as multisets the messages delivered plus those the queue still holds are those the queue held plus those sent.
   */
  lemma {:induction false} RunDelivers(tx: Node, rx: Node, ops: seq<Op>)
    requires Keeping(tx) && Peers(tx, rx) && AllPermitted(tx, ops) && AllReadable(rx, tx.stream.queue)
    ensures var (last, rx1, well, messages) := Exchanged(tx, rx, ops);
      && well && Keeping(last)
      && MessagesConserve(Readings(rx, tx.stream.queue), SentMessages(ops), messages, Readings(rx, last.stream.queue))
    decreases |ops|
  {
    hide *;
    if ops == [] {
      NothingExchanged(tx, rx);
      MessagesStay(Readings(rx, tx.stream.queue));
    } else {
      PermittedLater(tx, ops);
      StepConserves(tx, ops[0]);
      var (tx1, wire) := Steps(tx, ops[0]);
      SendsReadable(tx, rx, ops);
      ReadableAfter(rx, tx.stream.queue, Sends(tx, ops[0]), Emitted(tx, wire), tx1.stream.queue);
      ConservesReadings(rx, tx.stream.queue, Sends(tx, ops[0]), Emitted(tx, wire), tx1.stream.queue);
      var rx1, messages := StepDelivers(tx, rx, wire);
      StillPeers(tx, rx, tx1, rx1);
      ReadElsewhereAll(rx, rx1, tx1.stream.queue);
      RunDelivers(tx1, rx1, ops[1..]);
      ExchangedLater(tx, rx, ops);
      var (last, _, _, later) := Exchanged(tx1, rx1, ops[1..]);
      ReadElsewhereAll(rx, rx1, last.stream.queue);
      assert wire.None? ==> messages + later == later;
      MessagesTrans(Readings(rx, tx.stream.queue), Readings(rx, Sends(tx, ops[0])), messages,
        Readings(rx, tx1.stream.queue), SentMessages(ops[1..]), later, Readings(rx, last.stream.queue));
    }
  }

  lemma MessagesStay(queued: seq<Message>)
    ensures MessagesConserve(queued, [], [], queued)
  {
  }

  /** After a flush nothing waits: from an empty queue, the messages delivered are the messages sent, in some order. */
  lemma FlushedRunDelivers(tx: Node, rx: Node, ops: seq<Op>)
    requires Keeping(tx) && Peers(tx, rx) && AllPermitted(tx, ops + [Flush]) && tx.stream.queue == []
    ensures var (last, rx1, well, messages) := Exchanged(tx, rx, ops + [Flush]);
      well && multiset(messages) == multiset(SentMessages(ops))
  {
    hide *;
    NothingExchanged(tx, rx);
    NothingReadable(rx);
    RunDelivers(tx, rx, ops + [Flush]);
    FlushedLast(tx, rx, ops);
    SentAppend(ops);
    MessagesOfAll(SentMessages(ops), Exchanged(tx, rx, ops + [Flush]).3);
  }

  lemma NothingReadable(rx: Node)
    ensures AllReadable(rx, [])
  {
  }

  lemma MessagesOfAll(sent: seq<Message>, delivered: seq<Message>)
    requires MessagesConserve([], sent, delivered, [])
    ensures multiset(delivered) == multiset(sent)
  {
    var none: seq<Message> := [];
    assert multiset(delivered) + multiset(none) == multiset(delivered);
  }

  lemma {:induction false} SentAppend(ops: seq<Op>)
    ensures SentMessages(ops + [Flush]) == SentMessages(ops)
    decreases |ops|
  {
    var longer := ops + [Flush];
    if ops == [] {
      assert longer[0] == Flush && longer[1..] == [];
      assert SentMessages(longer[1..]) == [];
    } else {
      SentAppend(ops[1..]);
      assert longer[0] == ops[0] && longer[1..] == ops[1..] + [Flush];
    }
  }

  lemma {:induction false} FlushedLast(tx: Node, rx: Node, ops: seq<Op>)
    ensures Exchanged(tx, rx, ops + [Flush]).0.stream.queue == []
    decreases |ops|
  {
    hide *;
    if ops == [] {
      assert ops + [Flush] == [Flush];
      FlushEmpties(tx, rx);
    } else {
      assert (ops + [Flush])[1..] == ops[1..] + [Flush] && (ops + [Flush])[0] == ops[0];
      var (tx1, wire) := Steps(tx, ops[0]);
      ExchangedLater(tx, rx, ops + [Flush]);
      FlushedLast(tx1, if wire.Some? then rx.ReceiveStream(wire.value).0 else rx, ops[1..]);
    }
  }

  lemma FlushEmpties(tx: Node, rx: Node)
    ensures Exchanged(tx, rx, [Flush]).0.stream.queue == []
  {
    hide Node.ReceiveStream, BuildBatch;
    assert [Flush][1..] == [];
    var (tx1, wire) := Steps(tx, Flush);
    assert tx1.stream.queue == [];
  }
}
