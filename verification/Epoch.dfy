/**
 * Epochs: a full packet and the deltas that follow it. What one packet of an epoch does to a receiver, whatever was
 * lost, repeated or reordered before. The dictionary is off, since a reference could overtake the string it stands for.
 */
module Epoch {
  import opened Wire
  import opened Schema
  import opened Registry
  import opened Dictionary
  import opened Codec
  import opened Crc
  import opened Delta
  import opened StreamOptimizer
  import opened Runtime
  import opened Delivery
  import opened Fidelity

  /** The payloads of one schema from a full packet on: packet 0 is full, packet k > 0 is the delta to payload k. */
  datatype Epoch = Epoch(schema: SchemaDef, payloads: seq<Payload>) {
    predicate Fitting()
    {
      payloads != [] && forall k :: 0 <= k < |payloads| ==> Fits(schema.fields, payloads[k])
    }

    ghost predicate AllReady(tx: Node)
    {
      payloads != [] && forall k :: 0 <= k < |payloads| ==> Ready(tx, schema, payloads[k])
    }

    function Packet(tx: Node, k: nat): Packet
      requires k < |payloads|
    {
      if k == 0 then tx.Send(schema.name, payloads[0]).2
      else
        match BuildDelta(schema, payloads[k - 1], payloads[k], (k - 1) % 65536)
        case None => []
        case Some(d) => d
    }

    /** What a receiver that took packets 0 to k in order holds. */
    function Held(k: nat): (p: Payload)
      requires Fitting() && k < |payloads|
      ensures p.Keys == Names(schema.fields)
    {
      if k == 0 then payloads[0]
      else
        var values := Merge(schema.fields, Held(k - 1), payloads[k - 1], payloads[k]);
        NamedKeys(schema.fields, values);
        Named(schema.fields, values)
    }

    lemma ReadyAt(tx: Node, k: nat)
      requires AllReady(tx) && k < |payloads|
      ensures Ready(tx, schema, payloads[k]) && Sendable(schema.fields, payloads[k]) && Distinct(schema.fields)
    {
      ReadyParts(tx, schema, payloads[k]);
    }

    lemma HeldStart(tx: Node)
      requires Fitting() && AllReady(tx)
      ensures SamePayload(schema.fields, Held(0), payloads[0]) && Sendable(schema.fields, Held(0))
    {
      ReadyAt(tx, 0);
      SameAsItself(schema.fields, payloads[0]);
    }

    lemma HeldStep(tx: Node, k: nat)
      requires Fitting() && AllReady(tx) && 0 < k < |payloads|
      requires SamePayload(schema.fields, Held(k - 1), payloads[k - 1]) && Sendable(schema.fields, Held(k - 1))
      ensures SamePayload(schema.fields, Held(k), payloads[k]) && Sendable(schema.fields, Held(k))
    {
      ReadyAt(tx, k);
      MergeIsCurrent(schema.fields, Held(k - 1), payloads[k - 1], payloads[k]);
      hide Sendable, SamePayload, Ready, Merge, Fits, AllReady;
    }

    /** The held payload is the sender's, up to the sign of float zeros. */
    lemma {:induction false} HeldIsSent(tx: Node, k: nat)
      requires Fitting() && AllReady(tx) && k < |payloads|
      ensures SamePayload(schema.fields, Held(k), payloads[k]) && Sendable(schema.fields, Held(k))
    {
      hide *;
      if k == 0 {
        HeldStart(tx);
      } else {
        HeldIsSent(tx, k - 1);
        HeldStep(tx, k);
      }
    }

    /** Without negative zeros it is exactly the sender's. */
    lemma {:induction false} HeldExactly(k: nat)
      requires Fitting() && Distinct(schema.fields) && k < |payloads|
      requires forall i :: 0 <= i <= k ==> PlusZeros(schema.fields, payloads[i])
      ensures Held(k) == payloads[k]
    {
      hide *;
      HeldFirst();
      if k > 0 {
        HeldExactly(k - 1);
        HeldLater(k);
        ExactMerge(schema.fields, payloads[k - 1], payloads[k]);
      }
    }

    lemma HeldFirst()
      requires Fitting()
      ensures payloads != [] && Held(0) == payloads[0]
    {
      hide Fits;
    }

    lemma HeldLater(k: nat)
      requires Fitting() && 0 < k < |payloads|
      ensures Fits(schema.fields, payloads[k - 1]) && Fits(schema.fields, payloads[k])
      ensures forall i :: 0 <= i < |schema.fields| ==> schema.fields[i].name in Held(k - 1)
      ensures Held(k) == Named(schema.fields, Merge(schema.fields, Held(k - 1), payloads[k - 1], payloads[k]))
    {
      hide Merge, Named;
    }
  }

  /** The receiver has taken packets 0 to k of the epoch, or holds what they would have left. */
  ghost predicate At(rx: Node, e: Epoch, k: nat)
    requires e.Fitting()
  {
    var name := e.schema.name;
    && k < |e.payloads|
    && name in rx.stream.lastDecoded && rx.stream.lastDecoded[name] == e.Held(k)
    && Get(rx.stream.expected, name, 0) == k % 65536
  }

  // A full packet.

  lemma PacketZero(tx: Node, e: Epoch)
    requires e.payloads != []
    ensures e.Packet(tx, 0) == tx.Send(e.schema.name, e.payloads[0]).2
  {
    hide Node.Send, BuildDelta;
  }

  lemma FullReceived(tx: Node, rx: Node, e: Epoch)
    requires Peers(tx, rx) && e.Fitting() && e.AllReady(tx)
    ensures var base := e.Packet(tx, 0);
      && |base| >= 2 && base[0] !in {CONTROL, DELTA, BATCH, ENVELOPE}
      && rx.Receive(base) == (rx, Status.Ok, Message(e.schema.name, e.payloads[0]))
  {
    hide *;
    PeersParts(tx, rx);
    FirstPayload(tx, e);
    PacketZero(tx, e);
    SentDict(tx, e.schema, e.payloads[0]);
    FullStarts(tx, rx, e.schema, e.payloads[0]);
  }

  lemma FirstPayload(tx: Node, e: Epoch)
    requires e.Fitting() && e.AllReady(tx)
    ensures e.payloads != [] && Ready(tx, e.schema, e.payloads[0]) && e.Held(0) == e.payloads[0]
  {
    hide Ready, Fits;
  }

  lemma FullStarts(tx: Node, rx: Node, schema: SchemaDef, payload: Payload)
    requires Ready(tx, schema, payload) && tx.dict.Inv() && tx.Send(schema.name, payload).0.dict == tx.dict
    requires rx.registry == tx.registry && rx.optimizer == tx.optimizer && rx.dict == tx.dict
    ensures var base := tx.Send(schema.name, payload).2;
      && |base| >= 2 && base[0] !in {CONTROL, DELTA, BATCH, ENVELOPE}
      && rx.Receive(base) == (rx, Status.Ok, Message(schema.name, payload))
  {
    BaseDelivered(tx, rx, schema, payload);
    hide Node.Receive, Node.Send, EncodeValues, Sendable, ClearOfMarker, Dict.Inv;
    PlainPacketStarts(tx, schema, payload, tx.Send(schema.name, payload).2);
  }

  /** The full packet is always taken, wherever the receiver stood. */
  lemma FullArrives(tx: Node, rx: Node, e: Epoch)
    requires Peers(tx, rx) && e.Fitting() && e.AllReady(tx)
    ensures var (rx1, status, messages) := rx.ReceiveStream(tx.Envelope(e.Packet(tx, 0)));
      && status == Status.Ok && messages == [Message(e.schema.name, e.Held(0))]
      && rx1 == rx.(stream := rx.stream.RecordDecoded(e.schema.name, e.Held(0)))
      && At(rx1, e, 0)
  {
    hide *;
    FirstPayload(tx, e);
    var base := e.Packet(tx, 0);
    FullReceived(tx, rx, e);
    FullOpened(rx, base, rx, Message(e.schema.name, e.payloads[0]));
    NotAnEnvelope(base);
    EnvelopeOpened(tx, rx, base);
    FullMovesTo(rx, e);
  }

  lemma FullMovesTo(rx: Node, e: Epoch)
    requires e.Fitting()
    ensures At(rx.(stream := rx.stream.RecordDecoded(e.schema.name, e.Held(0))), e, 0)
  {
    hide Fits, Epoch.Held;
  }

  // A delta.

  lemma DeltaPacketShape(tx: Node, e: Epoch, j: nat)
    requires e.Fitting() && e.AllReady(tx) && 0 < j < |e.payloads|
    ensures BuildDelta(e.schema, e.payloads[j - 1], e.payloads[j], (j - 1) % 65536) == Some(e.Packet(tx, j))
    ensures var d := e.Packet(tx, j);
      |d| >= 6 && d[0] == DELTA && Word(d[1..]) == e.schema.messageId && Word(d[3..]) == (j - 1) % 65536
  {
    hide *;
    e.ReadyAt(tx, j - 1);
    e.ReadyAt(tx, j);
    BuiltDelta(tx, e.schema, e.payloads[j - 1], e.payloads[j], (j - 1) % 65536);
    DeltaShape(e.schema, e.payloads[j - 1], e.payloads[j], (j - 1) % 65536);
    PacketLater(tx, e, j);
  }

  lemma BuiltDelta(tx: Node, schema: SchemaDef, previous: Payload, payload: Payload, sequence: u16)
    requires Ready(tx, schema, previous) && Ready(tx, schema, payload)
    ensures BuildDelta(schema, previous, payload, sequence).Some? && |schema.fields| <= 2040
  {
    ReadyParts(tx, schema, previous);
    tx.registry.FoundById(schema);
    hide Sendable, BuildDelta, ExpandDelta;
    DeltaOverBase(schema, previous, previous, payload, sequence);
  }

  lemma PacketLater(tx: Node, e: Epoch, j: nat)
    requires 0 < j < |e.payloads| && BuildDelta(e.schema, e.payloads[j - 1], e.payloads[j], (j - 1) % 65536).Some?
    ensures Some(e.Packet(tx, j)) == BuildDelta(e.schema, e.payloads[j - 1], e.payloads[j], (j - 1) % 65536)
  {
    hide BuildDelta;
  }

  /**
   * A delta whose number is not the expected one, and every delta before a full packet, is rejected without a trace.
   */
  lemma OtherRejected(tx: Node, rx: Node, f: Epoch, j: nat)
    requires Peers(tx, rx) && f.Fitting() && f.AllReady(tx) && 0 < j < |f.payloads|
    requires f.schema.name in rx.stream.lastDecoded ==> (j - 1) % 65536 != Get(rx.stream.expected, f.schema.name, 0)
    ensures rx.ReceiveStream(tx.Envelope(f.Packet(tx, j))) == (rx, DecodeFailed, [])
  {
    hide *;
    var d := f.Packet(tx, j);
    PeersParts(tx, rx);
    f.ReadyAt(tx, j);
    DeltaPacketShape(tx, f, j);
    ById(tx, f.schema, f.payloads[j]);
    NotExpanded(rx, f.schema, d);
    DeltaRefused(rx, f.schema, d);
    EnvelopeOpened(tx, rx, d);
  }

  lemma ById(tx: Node, schema: SchemaDef, payload: Payload)
    requires Ready(tx, schema, payload)
    ensures tx.registry.FindById(schema.messageId) == Some(schema)
    ensures DELTA != ENVELOPE && DELTA != CONTROL
  {
    hide Sendable, ClearOfMarker;
    tx.registry.FoundById(schema);
  }

  lemma NotExpanded(rx: Node, schema: SchemaDef, d: Packet)
    requires |d| >= 6
    requires schema.name in rx.stream.lastDecoded ==> Word(d[3..]) != Get(rx.stream.expected, schema.name, 0)
    ensures rx.stream.Expand(schema, d) == Refused
  {
    hide Grow;
  }

  lemma DeltaRefused(rx: Node, schema: SchemaDef, d: Packet)
    requires |d| >= 6 && d[0] == DELTA && rx.registry.FindById(Word(d[1..])) == Some(schema)
    requires rx.stream.Expand(schema, d) == Refused
    ensures rx.ReceiveOpened(d) == (rx, DecodeFailed, [])
  {
    hide Node.Receive, Stream.Expand;
  }

  /** What packet j of epoch f leaves of the payload a receiver at packet k of epoch e holds. */
  function Left(e: Epoch, k: nat, f: Epoch, j: nat): (values: seq<FieldValue>)
    requires e.Fitting() && f.Fitting() && e.schema == f.schema && k < |e.payloads| && 0 < j < |f.payloads|
  {
    Rebase(f.schema.fields, e.Held(k), f.payloads[j - 1], f.payloads[j])
  }

  /**
   * Any delta of the schema, of whatever epoch, over whatever packet of whatever epoch the receiver took last. It is
   * accepted if and only if its number is the expected one modulo 65536. What is then delivered is what its changes
   * leave of the payload held, and that is the payload the sender gave for it if and only if the payload last taken
   * serves: it has the unchanged values, and the previous value of every field that travels as a difference.
   */
  lemma ForeignDelta(tx: Node, rx: Node, e: Epoch, k: nat, f: Epoch, j: nat)
    requires Peers(tx, rx) && e.Fitting() && e.AllReady(tx) && f.Fitting() && f.AllReady(tx) && e.schema == f.schema
    requires k < |e.payloads| && At(rx, e, k) && 0 < j < |f.payloads|
    requires ClearOfMarker(rx, Left(e, k, f, j))
    ensures var (rx1, status, messages) := rx.ReceiveStream(tx.Envelope(f.Packet(tx, j)));
      && (status == Status.Ok <==> (j - 1) % 65536 == k % 65536)
      && (status != Status.Ok ==> (rx1, status, messages) == (rx, DecodeFailed, []))
      && (status == Status.Ok ==>
            && messages == [Message(f.schema.name, Named(f.schema.fields, Left(e, k, f, j)))]
            && rx1 == rx.(stream := rx.stream.RecordDecodedDelta(f.schema.name, messages[0].payload)))
    ensures SamePayload(f.schema.fields, Named(f.schema.fields, Left(e, k, f, j)), f.payloads[j])
      <==> Serves(f.schema.fields, e.payloads[k], f.payloads[j - 1], f.payloads[j])
  {
    hide *;
    AtParts(rx, e, k);
    if (j - 1) % 65536 == k % 65536 {
      ForeignArrives(tx, rx, e, k, f, j);
    } else {
      OtherRejected(tx, rx, f, j);
    }
    ForeignRightly(tx, e, k, f, j);
  }

  lemma AtParts(rx: Node, e: Epoch, k: nat)
    requires e.Fitting() && At(rx, e, k)
    ensures k < |e.payloads| && e.schema.name in rx.stream.lastDecoded
    ensures rx.stream.lastDecoded[e.schema.name] == e.Held(k)
    ensures Get(rx.stream.expected, e.schema.name, 0) == k % 65536
  {
    hide Epoch.Held, Fits;
  }

  lemma ForeignArrives(tx: Node, rx: Node, e: Epoch, k: nat, f: Epoch, j: nat)
    requires Peers(tx, rx) && e.Fitting() && e.AllReady(tx) && f.Fitting() && f.AllReady(tx) && e.schema == f.schema
    requires k < |e.payloads| && At(rx, e, k) && 0 < j < |f.payloads|
    requires (j - 1) % 65536 == k % 65536 && ClearOfMarker(rx, Left(e, k, f, j))
    ensures var m := Named(f.schema.fields, Left(e, k, f, j));
      rx.ReceiveStream(tx.Envelope(f.Packet(tx, j)))
        == (rx.(stream := rx.stream.RecordDecodedDelta(f.schema.name, m)), Status.Ok, [Message(f.schema.name, m)])
  {
    hide *;
    var d := f.Packet(tx, j);
    PeersParts(tx, rx);
    AtParts(rx, e, k);
    e.HeldIsSent(tx, k);
    f.ReadyAt(tx, j - 1);
    f.ReadyAt(tx, j);
    ReadyElsewhere(tx, rx, f.schema, f.payloads[j]);
    LeftIs(e, k, f, j);
    FitsEach(f.schema.fields, f.payloads[j - 1], f.payloads[j], e.Held(k));
    DeltaOntoBase(rx, f.schema, f.payloads[j - 1], f.payloads[j], (j - 1) % 65536);
    DeltaPacketShape(tx, f, j);
    ById(tx, f.schema, f.payloads[j]);
    EncodeInactive(rx.dict, Left(e, k, f, j));
    EnvelopeOpened(tx, rx, d);
  }

  lemma FitsEach(fields: seq<FieldDef>, a: Payload, b: Payload, c: Payload)
    requires Sendable(fields, a) && Sendable(fields, b) && Sendable(fields, c)
    ensures Fits(fields, a) && Fits(fields, b) && Fits(fields, c)
    ensures forall i :: 0 <= i < |fields| ==> fields[i].name in a && fields[i].name in b && fields[i].name in c
  {
  }

  lemma LeftIs(e: Epoch, k: nat, f: Epoch, j: nat)
    requires e.Fitting() && f.Fitting() && e.schema == f.schema && k < |e.payloads| && 0 < j < |f.payloads|
    ensures Fits(f.schema.fields, f.payloads[j - 1]) && Fits(f.schema.fields, f.payloads[j])
    ensures forall i :: 0 <= i < |f.schema.fields| ==> f.schema.fields[i].name in e.Held(k)
    ensures Left(e, k, f, j) == Rebase(f.schema.fields, e.Held(k), f.payloads[j - 1], f.payloads[j])
  {
    hide Rebase;
  }

  lemma ForeignRightly(tx: Node, e: Epoch, k: nat, f: Epoch, j: nat)
    requires e.Fitting() && e.AllReady(tx) && f.Fitting() && f.AllReady(tx) && e.schema == f.schema
    requires k < |e.payloads| && 0 < j < |f.payloads|
    ensures forall i :: 0 <= i < |f.schema.fields| ==>
      && f.schema.fields[i].name in e.payloads[k] && f.schema.fields[i].name in f.payloads[j - 1]
      && f.schema.fields[i].name in f.payloads[j]
    ensures SamePayload(f.schema.fields, Named(f.schema.fields, Left(e, k, f, j)), f.payloads[j])
      <==> Serves(f.schema.fields, e.payloads[k], f.payloads[j - 1], f.payloads[j])
  {
    hide *;
    e.HeldIsSent(tx, k);
    e.ReadyAt(tx, k);
    f.ReadyAt(tx, j - 1);
    f.ReadyAt(tx, j);
    LeftIs(e, k, f, j);
    FitsEach(f.schema.fields, f.payloads[j - 1], f.payloads[j], e.Held(k));
    FitsEach(f.schema.fields, f.payloads[j - 1], f.payloads[j], e.payloads[k]);
    RebasedRightly(f.schema.fields, e.Held(k), f.payloads[j - 1], f.payloads[j]);
    ServesUpToZeros(f.schema.fields, e.Held(k), e.payloads[k], f.payloads[j - 1], f.payloads[j]);
  }

  /** Zero signs in the base do not matter for this. */
  lemma ServesUpToZeros(fields: seq<FieldDef>, base: Payload, other: Payload, previous: Payload, current: Payload)
    requires SamePayload(fields, base, other) && Fits(fields, previous) && Fits(fields, current)
    ensures Serves(fields, base, previous, current) <==> Serves(fields, other, previous, current)
  {
    hide Changed, Same, ServesField;
    forall i | 0 <= i < |fields|
      ensures ServesField(base, previous, current, fields[i].name)
        <==> ServesField(other, previous, current, fields[i].name)
    {
      ServesFieldUpToZeros(base, other, previous, current, fields[i].name);
    }
  }

  lemma ServesFieldUpToZeros(base: Payload, other: Payload, previous: Payload, current: Payload, name: string)
    requires name in base && name in other && name in previous && name in current
    requires Same(base[name], other[name]) && previous[name].Type() == current[name].Type()
    requires base[name].Type() == current[name].Type()
    ensures ServesField(base, previous, current, name) <==> ServesField(other, previous, current, name)
  {
    hide Changed;
    if base[name] != other[name] { assert !AsDifference(current[name].Type(), 0); }
  }

  lemma NextWord(k: nat)
    ensures NextSeq(k % 65536) == (k + 1) % 65536
  {
  }

  /** The next delta of the epoch is taken, and delivers the payload the sender gave for it. */
  lemma NextArrives(tx: Node, rx: Node, e: Epoch, k: nat)
    requires Peers(tx, rx) && e.Fitting() && e.AllReady(tx)
    requires k + 1 < |e.payloads| && At(rx, e, k)
    ensures var (rx1, status, messages) := rx.ReceiveStream(tx.Envelope(e.Packet(tx, k + 1)));
      && status == Status.Ok && messages == [Message(e.schema.name, e.Held(k + 1))]
      && rx1 == rx.(stream := rx.stream.RecordDecodedDelta(e.schema.name, e.Held(k + 1)))
      && At(rx1, e, k + 1)
  {
    hide *;
    var d := e.Packet(tx, k + 1);
    PeersParts(tx, rx);
    AtParts(rx, e, k);
    e.HeldIsSent(tx, k);
    e.ReadyAt(tx, k);
    e.ReadyAt(tx, k + 1);
    ReadyElsewhere(tx, rx, e.schema, e.payloads[k + 1]);
    FitsEach(e.schema.fields, e.payloads[k], e.payloads[k + 1], e.Held(k));
    DeltaDelivered(rx, e.schema, e.payloads[k], e.payloads[k + 1], k % 65536);
    e.HeldLater(k + 1);
    DeltaPacketShape(tx, e, k + 1);
    ById(tx, e.schema, e.payloads[k + 1]);
    EncodeInactive(rx.dict, Ordered(e.schema.fields, e.payloads[k + 1]));
    EnvelopeOpened(tx, rx, d);
    DeltaMovesTo(rx, e, k);
  }

  lemma DeltaMovesTo(rx: Node, e: Epoch, k: nat)
    requires e.Fitting() && k + 1 < |e.payloads| && At(rx, e, k)
    ensures At(rx.(stream := rx.stream.RecordDecodedDelta(e.schema.name, e.Held(k + 1))), e, k + 1)
  {
    hide Fits, Epoch.Held;
    NextWord(k);
  }
}
