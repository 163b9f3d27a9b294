/** The sender's side of epochs: what it emits for a schema is the packets of its epochs, one epoch after the other. */
module SenderEpochs {
  import opened Wire
  import opened Schema
  import opened Codec
  import Crc
  import Dictionary
  import opened Delta
  import opened StreamOptimizer
  import opened Runtime
  import opened Delivery
  import opened Fidelity
  import opened Epoch
  import opened EpochRuns

  /** The sender has just emitted the last packet of the epoch. `tx0` is the sender with some other stream state. */
  ghost predicate Sending(tx0: Node, tx: Node, e: Epoch)
  {
    var name := e.schema.name;
    && tx == tx0.(stream := tx.stream) && tx.stream.config.DeltaMode()
    && e.payloads != [] && name in tx.stream.lastPayload
    && tx.stream.lastPayload[name] == e.payloads[|e.payloads| - 1]
    && Get(tx.stream.deltaSeq, name, 0) == (|e.payloads| - 1) % 65536
  }

  function Longer(e: Epoch, payload: Payload): Epoch { Epoch(e.schema, e.payloads + [payload]) }

  function Anew(schema: SchemaDef, payload: Payload): Epoch { Epoch(schema, [payload]) }

  /** With the dictionary off a record moves the stream alone. */
  lemma StreamAlone(tx0: Node, tx: Node, r: Sent)
    requires tx == tx0.(stream := tx.stream) && tx.stream.config.DeltaMode()
    requires Ready(tx0, r.schema, r.payload) && tx0.dict.Inv() && !tx0.dict.config.Active()
    ensures Ready(tx, r.schema, r.payload) && tx.dict.Inv() && !tx.dict.config.Active()
    ensures var (tx1, status, wire) := tx.SendStream(r.schema.name, r.payload, r.lowChange);
      && status == Status.Ok && wire == Some(tx0.Envelope(EmissionOf(tx, r).packet))
      && tx1 == tx0.(stream := tx1.stream) && tx1.stream.config.DeltaMode()
      && Moved(tx, tx1, r, EmissionOf(tx, r).delta)
  {
    hide *;
    DeltaIsImmediate(tx);
    ReadyElsewhere(tx0, tx, r.schema, r.payload);
    SenderMoves(tx, r);
    SentDict(tx, r.schema, r.payload);
    var tx1 := tx.SendStream(r.schema.name, r.payload, r.lowChange).0;
    MovedParts(tx, tx1, r, EmissionOf(tx, r).delta);
    SameEnvelope(tx0, tx, EmissionOf(tx, r).packet);
  }

  lemma SameEnvelope(tx0: Node, tx: Node, p: Packet)
    requires tx.crc == tx0.crc
    ensures tx.Envelope(p) == tx0.Envelope(p)
  {
    hide Crc.Wrap;
  }

  lemma DeltaIsImmediate(tx: Node)
    requires tx.stream.config.DeltaMode()
    ensures tx.stream.config.Immediate() && !tx.stream.config.Resends()
  {
  }

  /** Which packet a record of the schema leaves as, and how far its epoch is then. */
  lemma SenderInEpoch(tx0: Node, tx: Node, e: Epoch, r: Sent)
    requires Sending(tx0, tx, e) && r.schema == e.schema && Ready(tx0, e.schema, r.payload)
    requires tx0.dict.Inv() && !tx0.dict.config.Active()
    ensures var (tx1, status, wire) := tx.SendStream(r.schema.name, r.payload, r.lowChange);
      var longer, anew := Longer(e, r.payload), Anew(e.schema, r.payload);
      && status == Status.Ok && wire.Some?
      && (EmissionOf(tx, r).delta ==>
            wire.value == tx0.Envelope(longer.Packet(tx0, |e.payloads|)) && Sending(tx0, tx1, longer))
      && (!EmissionOf(tx, r).delta ==>
            wire.value == tx0.Envelope(anew.Packet(tx0, 0)) && Sending(tx0, tx1, anew))
  {
    hide *;
    SendingParts(tx0, tx, e);
    StreamAlone(tx0, tx, r);
    DeltaIsImmediate(tx);
    var base, tx1 := tx.Send(r.schema.name, r.payload).2, tx.SendStream(r.schema.name, r.payload, r.lowChange).0;
    EmissionIs(tx, r);
    if EmissionOf(tx, r).delta {
      LongerEpoch(tx0, tx, tx1, e, r);
    } else {
      SendIgnoresStream(tx0, tx, r.schema.name, r.payload);
      NewEpoch(tx0, tx, tx1, r);
    }
  }

  lemma SendingParts(tx0: Node, tx: Node, e: Epoch)
    requires Sending(tx0, tx, e)
    ensures tx == tx0.(stream := tx.stream) && tx.stream.config.DeltaMode() && e.payloads != []
    ensures e.schema.name in tx.stream.lastPayload
  {
  }

  lemma LongerEpoch(tx0: Node, tx: Node, tx1: Node, e: Epoch, r: Sent)
    requires Sending(tx0, tx, e) && r.schema == e.schema && EmissionOf(tx, r).delta
    requires tx.stream.NextDelta(r.schema, r.payload) == Some(EmissionOf(tx, r).packet)
    requires Moved(tx, tx1, r, true) && tx1 == tx0.(stream := tx1.stream)
    ensures var longer := Longer(e, r.payload);
      longer.Packet(tx0, |e.payloads|) == EmissionOf(tx, r).packet && Sending(tx0, tx1, longer)
  {
    hide BuildDelta, Node.Send, EmissionOf, Dictionary.Dict.Inv;
    NextWord(|e.payloads| - 1);
  }

  lemma NewEpoch(tx0: Node, tx: Node, tx1: Node, r: Sent)
    requires Moved(tx, tx1, r, false) && tx1 == tx0.(stream := tx1.stream) && tx.stream.config.DeltaMode()
    requires tx.Send(r.schema.name, r.payload).2 == tx0.Send(r.schema.name, r.payload).2
    ensures var anew := Anew(r.schema, r.payload);
      anew.Packet(tx0, 0) == tx.Send(r.schema.name, r.payload).2 && Sending(tx0, tx1, anew)
  {
    hide BuildDelta, Node.Send, Dictionary.Dict.Inv;
  }

  /** Records of other schemas leave the epoch alone. */
  lemma OtherSchema(tx0: Node, tx: Node, e: Epoch, r: Sent)
    requires Sending(tx0, tx, e) && r.schema.name != e.schema.name && Ready(tx0, r.schema, r.payload)
    requires tx0.dict.Inv() && !tx0.dict.config.Active()
    ensures Sending(tx0, tx.SendStream(r.schema.name, r.payload, r.lowChange).0, e)
  {
    hide *;
    SendingParts(tx0, tx, e);
    StreamAlone(tx0, tx, r);
    StillSending(tx0, tx, tx.SendStream(r.schema.name, r.payload, r.lowChange).0, e, r, EmissionOf(tx, r).delta);
  }

  lemma StillSending(tx0: Node, tx: Node, tx1: Node, e: Epoch, r: Sent, delta: bool)
    requires Sending(tx0, tx, e) && r.schema.name != e.schema.name
    requires Moved(tx, tx1, r, delta) && tx1 == tx0.(stream := tx1.stream)
    ensures Sending(tx0, tx1, e)
  {
    hide Node.Send, Dictionary.Dict.Inv;
  }

  // Whole runs.

  /** What a run of records emits for one schema. */
  function Emissions(tx: Node, name: string, records: seq<Sent>): seq<Packet>
    decreases |records|
  {
    if records == [] then []
    else
      var r := records[0];
      var (tx1, _, wire) := tx.SendStream(r.schema.name, r.payload, r.lowChange);
      (if r.schema.name == name && wire.Some? then [wire.value] else []) + Emissions(tx1, name, records[1..])
  }

  /** The epochs such a run makes: the one under way, lengthened by every delta, and a new one at every full packet. */
  function EpochsFrom(tx: Node, e: Epoch, records: seq<Sent>): (epochs: seq<Epoch>)
    decreases |records|
  {
    if records == [] then [e]
    else
      var r := records[0];
      var tx1 := tx.SendStream(r.schema.name, r.payload, r.lowChange).0;
      if r.schema.name != e.schema.name then EpochsFrom(tx1, e, records[1..])
      else if EmissionOf(tx, r).delta then EpochsFrom(tx1, Longer(e, r.payload), records[1..])
      else [e] + EpochsFrom(tx1, Anew(e.schema, r.payload), records[1..])
  }

  /** The same for a sender that has sent nothing of the schema. */
  function Epochs(tx: Node, schema: SchemaDef, records: seq<Sent>): seq<Epoch>
    decreases |records|
  {
    if records == [] then []
    else
      var r := records[0];
      var tx1 := tx.SendStream(r.schema.name, r.payload, r.lowChange).0;
      if r.schema.name != schema.name then Epochs(tx1, schema, records[1..])
      else EpochsFrom(tx1, Anew(schema, r.payload), records[1..])
  }

  function Packets(tx: Node, e: Epoch): (packets: seq<Packet>)
    ensures |packets| == |e.payloads|
  {
    seq(|e.payloads|, k requires 0 <= k < |e.payloads| => tx.Envelope(e.Packet(tx, k)))
  }

  function AllPackets(tx: Node, epochs: seq<Epoch>): seq<Packet>
  {
    if epochs == [] then [] else Packets(tx, epochs[0]) + AllPackets(tx, epochs[1..])
  }

  function AllPayloads(epochs: seq<Epoch>): seq<Payload>
  {
    if epochs == [] then [] else epochs[0].payloads + AllPayloads(epochs[1..])
  }

  /** The payloads of the records of one schema. */
  function PayloadsOf(name: string, records: seq<Sent>): seq<Payload>
    decreases |records|
  {
    if records == [] then []
    else (if records[0].schema.name == name then [records[0].payload] else []) + PayloadsOf(name, records[1..])
  }

  lemma LongerPackets(tx0: Node, e: Epoch, payload: Payload)
    ensures Packets(tx0, Longer(e, payload))
      == Packets(tx0, e) + [tx0.Envelope(Longer(e, payload).Packet(tx0, |e.payloads|))]
  {
    hide Node.Send, BuildDelta, Node.Envelope;
    var longer := Longer(e, payload);
    forall k | 0 <= k < |e.payloads| ensures longer.Packet(tx0, k) == e.Packet(tx0, k) {
      assert longer.payloads[k] == e.payloads[k] && longer.payloads[0] == e.payloads[0];
      if k > 0 { assert longer.payloads[k - 1] == e.payloads[k - 1]; }
    }
  }

  lemma NewPackets(tx0: Node, schema: SchemaDef, payload: Payload)
    ensures Packets(tx0, Anew(schema, payload)) == [tx0.Envelope(Anew(schema, payload).Packet(tx0, 0))]
  {
    hide Node.Send, BuildDelta, Node.Envelope, Epoch.Packet;
  }

  /** Every epoch belongs on the channel of the safety theorem. */
  ghost predicate Proper(tx0: Node, schema: SchemaDef, e: Epoch)
  {
    e.schema == schema && e.Fitting() && e.AllReady(tx0)
  }

  ghost predicate AllProper(tx0: Node, schema: SchemaDef, epochs: seq<Epoch>)
  {
    forall i :: 0 <= i < |epochs| ==> Proper(tx0, schema, epochs[i])
  }

  lemma ProperCons(tx0: Node, schema: SchemaDef, e: Epoch, epochs: seq<Epoch>)
    requires Proper(tx0, schema, e) && AllProper(tx0, schema, epochs)
    ensures AllProper(tx0, schema, [e] + epochs)
  {
    hide Proper;
  }

  lemma ProperLonger(tx0: Node, schema: SchemaDef, e: Epoch, payload: Payload)
    requires Proper(tx0, schema, e) && Ready(tx0, schema, payload)
    ensures Proper(tx0, schema, Longer(e, payload))
  {
    ReadyParts(tx0, schema, payload);
    hide Ready, Fits, Sendable;
  }

  lemma ProperNew(tx0: Node, schema: SchemaDef, payload: Payload)
    requires Ready(tx0, schema, payload)
    ensures Proper(tx0, schema, Anew(schema, payload))
  {
    ReadyParts(tx0, schema, payload);
    hide Ready, Fits, Sendable;
  }

  /** Of a name there is one registered schema. */
  lemma OneSchema(tx0: Node, a: SchemaDef, p: Payload, b: SchemaDef, q: Payload)
    requires Ready(tx0, a, p) && Ready(tx0, b, q) && a.name == b.name
    ensures a == b
  {
    hide Sendable, ClearOfMarker;
  }

  /** What the theorem says of a run that starts within an epoch. */
  ghost predicate Splits(tx0: Node, e: Epoch, emitted: seq<Packet>, sent: seq<Payload>, epochs: seq<Epoch>)
  {
    && Packets(tx0, e) + emitted == AllPackets(tx0, epochs)
    && e.payloads + sent == AllPayloads(epochs)
    && AllProper(tx0, e.schema, epochs)
  }

  lemma SplitEnd(tx0: Node, e: Epoch)
    requires Proper(tx0, e.schema, e)
    ensures Splits(tx0, e, [], [], [e])
  {
    hide Proper, Packets;
    assert AllPackets(tx0, [e][1..]) == [] && AllPayloads([e][1..]) == [];
  }

  lemma SplitLonger(tx0: Node, e: Epoch, payload: Payload, emitted: seq<Packet>, sent: seq<Payload>, epochs: seq<Epoch>)
    requires Splits(tx0, Longer(e, payload), emitted, sent, epochs)
    ensures Splits(tx0, e, [tx0.Envelope(Longer(e, payload).Packet(tx0, |e.payloads|))] + emitted, [payload] + sent,
              epochs)
  {
    hide AllProper, Packets, AllPackets, AllPayloads, Node.Envelope, Epoch.Packet;
    LongerPackets(tx0, e, payload);
    Assoc(Packets(tx0, e), [tx0.Envelope(Longer(e, payload).Packet(tx0, |e.payloads|))], emitted);
    Assoc(e.payloads, [payload], sent);
  }

  lemma SplitNew(tx0: Node, e: Epoch, payload: Payload, emitted: seq<Packet>, sent: seq<Payload>, epochs: seq<Epoch>)
    requires Proper(tx0, e.schema, e) && Splits(tx0, Anew(e.schema, payload), emitted, sent, epochs)
    ensures Splits(tx0, e, [tx0.Envelope(Anew(e.schema, payload).Packet(tx0, 0))] + emitted, [payload] + sent,
              [e] + epochs)
  {
    hide Proper, AllProper, Packets, Node.Envelope, Epoch.Packet;
    NewPackets(tx0, e.schema, payload);
    ProperCons(tx0, e.schema, e, epochs);
    assert ([e] + epochs)[1..] == epochs;
  }

  /** The run theorem, from within an epoch. */
  lemma {:induction false} RunFromEpoch(tx0: Node, tx: Node, e: Epoch, records: seq<Sent>)
    requires Sending(tx0, tx, e) && Proper(tx0, e.schema, e) && AllReady(tx0, records)
    requires tx0.dict.Inv() && !tx0.dict.config.Active()
    ensures Splits(tx0, e, Emissions(tx, e.schema.name, records), PayloadsOf(e.schema.name, records),
              EpochsFrom(tx, e, records))
    decreases |records|
  {
    hide *;
    if records == [] {
      NoRecords(tx, e);
      SplitEnd(tx0, e);
    } else {
      var r := records[0];
      AllReadyLater(tx0, tx0, records);
      SendingParts(tx0, tx, e);
      StreamAlone(tx0, tx, r);
      FirstRecord(tx, e, records);
      var tx1 := tx.SendStream(r.schema.name, r.payload, r.lowChange).0;
      if r.schema.name != e.schema.name {
        OtherSchema(tx0, tx, e, r);
        RunFromEpoch(tx0, tx1, e, records[1..]);
      } else {
        ProperReady(tx0, e);
        OneSchema(tx0, r.schema, r.payload, e.schema, e.payloads[0]);
        SenderInEpoch(tx0, tx, e, r);
        if EmissionOf(tx, r).delta {
          ProperLonger(tx0, e.schema, e, r.payload);
          LongerSchema(e, r.payload);
          RunFromEpoch(tx0, tx1, Longer(e, r.payload), records[1..]);
          SplitLonger(tx0, e, r.payload, Emissions(tx1, e.schema.name, records[1..]),
            PayloadsOf(e.schema.name, records[1..]), EpochsFrom(tx1, Longer(e, r.payload), records[1..]));
        } else {
          ProperNew(tx0, e.schema, r.payload);
          LongerSchema(e, r.payload);
          RunFromEpoch(tx0, tx1, Anew(e.schema, r.payload), records[1..]);
          SplitNew(tx0, e, r.payload, Emissions(tx1, e.schema.name, records[1..]),
            PayloadsOf(e.schema.name, records[1..]), EpochsFrom(tx1, Anew(e.schema, r.payload), records[1..]));
        }
      }
    }
  }

  lemma LongerSchema(e: Epoch, payload: Payload)
    ensures Longer(e, payload).schema == e.schema && Anew(e.schema, payload).schema == e.schema
  {
  }

  lemma AnewSchema(schema: SchemaDef, payload: Payload)
    ensures Anew(schema, payload).schema == schema
  {
  }

  lemma ProperReady(tx0: Node, e: Epoch)
    requires Proper(tx0, e.schema, e)
    ensures e.payloads != [] && Ready(tx0, e.schema, e.payloads[0])
  {
    hide Ready, Fits;
  }

  lemma NoRecords(tx: Node, e: Epoch)
    ensures Emissions(tx, e.schema.name, []) == [] && PayloadsOf(e.schema.name, []) == []
    ensures EpochsFrom(tx, e, []) == [e]
  {
  }

  lemma FirstRecord(tx: Node, e: Epoch, records: seq<Sent>)
    requires records != []
    requires tx.SendStream(records[0].schema.name, records[0].payload, records[0].lowChange).2.Some?
    ensures var r, name := records[0], e.schema.name;
      var (tx1, _, wire) := tx.SendStream(r.schema.name, r.payload, r.lowChange);
      var mine := r.schema.name == name;
      && Emissions(tx, name, records) == (if mine then [wire.value] else []) + Emissions(tx1, name, records[1..])
      && PayloadsOf(name, records) == (if mine then [r.payload] else []) + PayloadsOf(name, records[1..])
      && EpochsFrom(tx, e, records) ==
         (if !mine then EpochsFrom(tx1, e, records[1..])
          else if EmissionOf(tx, r).delta then EpochsFrom(tx1, Longer(e, r.payload), records[1..])
          else [e] + EpochsFrom(tx1, Anew(e.schema, r.payload), records[1..]))
    ensures records[0].schema.name != e.schema.name ==>
      var tx1 := tx.SendStream(records[0].schema.name, records[0].payload, records[0].lowChange).0;
      && Emissions(tx, e.schema.name, records) == Emissions(tx1, e.schema.name, records[1..])
      && PayloadsOf(e.schema.name, records) == PayloadsOf(e.schema.name, records[1..])
  {
    hide Node.SendStream, EmissionOf;
  }

  /**
   * Whatever records of whatever schemas a sender in delta mode is given, what it emits for one schema is, packet by
   * packet, the packets of proper epochs, one epoch after the other, and their payloads are those of its records.
   */
  lemma {:induction false} EmissionsAreEpochs(tx0: Node, tx: Node, schema: SchemaDef, records: seq<Sent>)
    requires tx == tx0.(stream := tx.stream) && tx.stream.config.DeltaMode() && schema.name !in tx.stream.lastPayload
    requires tx0.registry.FindByName(schema.name) == Some(schema)
    requires tx0.dict.Inv() && !tx0.dict.config.Active() && AllReady(tx0, records)
    ensures var epochs := Epochs(tx, schema, records);
      && Emissions(tx, schema.name, records) == AllPackets(tx0, epochs)
      && PayloadsOf(schema.name, records) == AllPayloads(epochs)
      && AllProper(tx0, schema, epochs) && Channel(tx0, epochs)
    decreases |records|
  {
    hide *;
    if records == [] {
      NothingEmitted(tx0, tx, schema);
    } else {
      var r := records[0];
      AllReadyLater(tx0, tx0, records);
      StreamAlone(tx0, tx, r);
      var tx1 := tx.SendStream(r.schema.name, r.payload, r.lowChange).0;
      MovedParts(tx, tx1, r, EmissionOf(tx, r).delta);
      FirstOfSchema(tx, schema, records);
      if r.schema.name != schema.name {
        EmissionsAreEpochs(tx0, tx1, schema, records[1..]);
      } else {
        ReadyParts(tx0, r.schema, r.payload);
        DeltaIsImmediate(tx);
        EmissionIs(tx, r);
        SendIgnoresStream(tx0, tx, r.schema.name, r.payload);
        NewEpoch(tx0, tx, tx1, r);
        ProperNew(tx0, schema, r.payload);
        AnewSchema(schema, r.payload);
        RunFromEpoch(tx0, tx1, Anew(schema, r.payload), records[1..]);
        FirstEpoch(tx0, tx1, schema, r.payload, records[1..]);
        ProperChannel(tx0, schema, Epochs(tx, schema, records));
      }
    }
  }

  lemma NothingEmitted(tx0: Node, tx: Node, schema: SchemaDef)
    ensures Emissions(tx, schema.name, []) == [] && PayloadsOf(schema.name, []) == [] && Epochs(tx, schema, []) == []
    ensures AllPackets(tx0, []) == [] && AllPayloads([]) == [] && AllProper(tx0, schema, []) && Channel(tx0, [])
  {
  }

  lemma ProperChannel(tx0: Node, schema: SchemaDef, epochs: seq<Epoch>)
    requires AllProper(tx0, schema, epochs)
    ensures Channel(tx0, epochs)
  {
    hide Epoch.Fitting, Epoch.AllReady;
    forall i | 0 <= i < |epochs| ensures epochs[i].Fitting() && epochs[i].AllReady(tx0) {
      assert Proper(tx0, schema, epochs[i]);
    }
  }

  lemma FirstOfSchema(tx: Node, schema: SchemaDef, records: seq<Sent>)
    requires records != []
    requires tx.SendStream(records[0].schema.name, records[0].payload, records[0].lowChange).2.Some?
    ensures var r, name := records[0], schema.name;
      var (tx1, _, wire) := tx.SendStream(r.schema.name, r.payload, r.lowChange);
      if r.schema.name != name then
        && Emissions(tx, name, records) == Emissions(tx1, name, records[1..])
        && PayloadsOf(name, records) == PayloadsOf(name, records[1..])
        && Epochs(tx, schema, records) == Epochs(tx1, schema, records[1..])
      else
        && Emissions(tx, name, records) == [wire.value] + Emissions(tx1, name, records[1..])
        && PayloadsOf(name, records) == [r.payload] + PayloadsOf(name, records[1..])
        && Epochs(tx, schema, records) == EpochsFrom(tx1, Anew(schema, r.payload), records[1..])
  {
    hide Node.SendStream, EmissionOf;
  }

  lemma FirstEpoch(tx0: Node, tx1: Node, schema: SchemaDef, payload: Payload, records: seq<Sent>)
    requires var e := Anew(schema, payload);
      Splits(tx0, e, Emissions(tx1, e.schema.name, records), PayloadsOf(e.schema.name, records),
        EpochsFrom(tx1, e, records))
    ensures var epochs := EpochsFrom(tx1, Anew(schema, payload), records);
      && [tx0.Envelope(Anew(schema, payload).Packet(tx0, 0))] + Emissions(tx1, schema.name, records)
         == AllPackets(tx0, epochs)
      && [payload] + PayloadsOf(schema.name, records) == AllPayloads(epochs)
      && AllProper(tx0, schema, epochs)
  {
    NewPackets(tx0, schema, payload);
    hide Packets, AllPackets, AllPayloads, AllProper, Emissions, PayloadsOf, EpochsFrom, Node.Envelope, Epoch.Packet;
  }
}
