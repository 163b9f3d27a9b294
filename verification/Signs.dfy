/**
 * When a run is delivered exactly. The stream compares floats with IEEE equality, so it does not tell +0 from -0;
 * here is the exact condition on the sender's records under which no zero sign is lost.
 */
module Signs {
  import opened Wire
  import opened Schema
  import opened Registry
  import D = Dictionary
  import opened Codec
  import opened Delta
  import opened StreamOptimizer
  import opened Runtime
  import opened Delivery
  import opened Fidelity

  // Exactly delivered runs.

  /**
   * A record that leaves as a delta or as a re-sent packet changes no zero sign of the previous record of its schema.
   */
  predicate KeepsSigns(tx: Node, r: Sent)
  {
    var e, name := EmissionOf(tx, r), r.schema.name;
    (e.delta || e.reused) && name in tx.stream.lastPayload ==>
      ZeroSignsKept(r.schema.fields, tx.stream.lastPayload[name], r.payload)
  }

  /** The same for every record of a run; it concerns the sender and its records alone. */
  predicate RunKeepsSigns(tx: Node, records: seq<Sent>)
    decreases |records|
  {
    records == [] ||
    (&& KeepsSigns(tx, records[0])
     && RunKeepsSigns(tx.SendStream(records[0].schema.name, records[0].payload, records[0].lowChange).0, records[1..]))
  }

  /** The record is delivered as the very payload that was sent. */
  predicate Exactly(r: Sent, outcome: (Status, seq<Message>))
  {
    outcome == (Status.Ok, [Message(r.schema.name, r.payload)])
  }

  predicate AllExactly(records: seq<Sent>, outcomes: seq<(Status, seq<Message>)>)
  {
    |outcomes| == |records| && forall i :: 0 <= i < |records| ==> Exactly(records[i], outcomes[i])
  }

  /** One record over equal bases: exact if and only if it keeps the signs, and then the bases stay equal. */
  lemma ExactRecord(tx: Node, rx: Node, kept: Kept, r: Sent, tx1: Node, rx1: Node, received: Status,
                    messages: seq<Message>)
    requires Coupled(tx, rx, kept) && EqualBases(tx, rx) && Ready(tx, r.schema, r.payload)
    requires Carries(tx, rx, kept, r, tx1, rx1, received, messages)
    ensures Exactly(r, (received, messages)) <==> KeepsSigns(tx, r)
    ensures Exactly(r, (received, messages)) ==> EqualBases(tx1, rx1)
  {
    hide *;
    CarriesParts(tx, rx, kept, r, tx1, rx1, received, messages);
    ArrivesExactly(tx, rx, kept, r, EmissionOf(tx, r), messages[0].payload);
    SignsOf(tx, r);
    EqualBasesLater(tx, rx, kept, r, tx1, rx1, received, messages);
  }

  lemma CarriesParts(tx: Node, rx: Node, kept: Kept, r: Sent, tx1: Node, rx1: Node, received: Status,
                     messages: seq<Message>)
    requires Carries(tx, rx, kept, r, tx1, rx1, received, messages)
    ensures |messages| == 1 && ArrivesAs(tx, rx, r, EmissionOf(tx, r), messages[0].payload)
    ensures Exactly(r, (received, messages)) <==> messages[0].payload == r.payload
    ensures received == Status.Ok && messages == [Message(r.schema.name, messages[0].payload)]
    ensures tx1.stream.lastPayload == tx.stream.lastPayload[r.schema.name := r.payload]
    ensures rx1.stream.lastDecoded == rx.stream.lastDecoded[r.schema.name := messages[0].payload]
  {
    hide Coupled, ArrivesAs, EmissionOf, SamePayload, Keep;
    assert messages == [Message(r.schema.name, messages[0].payload)];
  }

  lemma SignsOf(tx: Node, r: Sent)
    ensures var e, name := EmissionOf(tx, r), r.schema.name;
      KeepsSigns(tx, r) <==> ((e.delta || e.reused) && name in tx.stream.lastPayload ==>
        ZeroSignsKept(r.schema.fields, tx.stream.lastPayload[name], r.payload))
  {
  }

  lemma ArrivesExactly(tx: Node, rx: Node, kept: Kept, r: Sent, e: Emission, m: Payload)
    requires Coupled(tx, rx, kept) && EqualBases(tx, rx) && Ready(tx, r.schema, r.payload) && ArrivesAs(tx, rx, r, e, m)
    ensures (e.delta || e.reused) ==> r.schema.name in tx.stream.lastPayload
    ensures m == r.payload <==> ((e.delta || e.reused) ==>
      ZeroSignsKept(r.schema.fields, tx.stream.lastPayload[r.schema.name], r.payload))
  {
    var fields, name := r.schema.fields, r.schema.name;
    ReadyParts(tx, r.schema, r.payload);
    hide Ready, ZeroSignsKept, Merge, Changed, PayloadEquals, KeptPacket;
    if e.delta || e.reused {
      var last := tx.stream.lastPayload[name];
      assert CoupledAt(tx, rx, kept, r.schema);
      SendableFits(fields, last);
      hide Fits;
      if e.delta { DeltaExactlyWhen(fields, last, r.payload); } else { EqualForStream(fields, last, r.payload); }
    }
  }

  lemma EqualBasesLater(tx: Node, rx: Node, kept: Kept, r: Sent, tx1: Node, rx1: Node, received: Status,
                        messages: seq<Message>)
    requires EqualBases(tx, rx) && Carries(tx, rx, kept, r, tx1, rx1, received, messages)
    ensures Exactly(r, (received, messages)) ==> EqualBases(tx1, rx1)
  {
    hide Coupled, ArrivesAs, EmissionOf, SamePayload, Keep;
  }

  /**
   * Exact delivery over whole runs. From a coupled pair with equal bases, every record is delivered as the very payload
   * that was sent if and only if every packet that is sent again binds and every record that leaves as a delta or as a
   * packet sent again keeps the zero signs of the previous record of its schema.
   */
  lemma {:induction false} ExactRun(tx: Node, rx: Node, kept: Kept, records: seq<Sent>)
    requires Coupled(tx, rx, kept) && EqualBases(tx, rx) && AllReady(tx, records)
    ensures AllExactly(records, Run(tx, rx, records).2)
      <==> RunBinds(tx, kept, records) && RunKeepsSigns(tx, records)
    ensures RunBinds(tx, kept, records) && RunKeepsSigns(tx, records) ==>
      EqualBases(Run(tx, rx, records).0, Run(tx, rx, records).1)
    decreases |records|
  {
    hide *;
    if records == [] {
      EmptyRun(tx, rx, kept);
      NothingToKeep(tx);
    } else {
      var r := records[0];
      AllReadyLater(tx, tx, records);
      BindsFirst(tx, kept, records);
      KeepsFirst(tx, records);
      if Binds(tx, kept, r) {
        var tx1, rx1, received, messages := RunStep(tx, rx, kept, records);
        ExactRecord(tx, rx, kept, r, tx1, rx1, received, messages);
        ExactlyFirst(records, (received, messages), Run(tx1, rx1, records[1..]).2);
        if Exactly(r, (received, messages)) { ExactRun(tx1, rx1, Keep(tx, kept, r), records[1..]); }
      } else {
        OneLost(tx, rx, kept, r);
        RunUnfolds(tx, rx, records);
        ReadyParts(tx, r.schema, r.payload);
        ExactIsDelivered(records, Run(tx, rx, records).2);
      }
    }
  }

  lemma ExactIsDelivered(records: seq<Sent>, outcomes: seq<(Status, seq<Message>)>)
    requires records != [] && outcomes != [] && Fits(records[0].schema.fields, records[0].payload)
    ensures AllExactly(records, outcomes) ==> DeliveredAs(records[0], outcomes[0])
  {
    SameAsItself(records[0].schema.fields, records[0].payload);
    hide SamePayload, Fits;
    if AllExactly(records, outcomes) { assert Exactly(records[0], outcomes[0]); }
  }

  lemma NothingToKeep(tx: Node)
    ensures RunKeepsSigns(tx, []) && AllExactly([], [])
  {
  }

  lemma KeepsFirst(tx: Node, records: seq<Sent>)
    requires records != []
    ensures RunKeepsSigns(tx, records) <==>
      KeepsSigns(tx, records[0]) && RunKeepsSigns(
        tx.SendStream(records[0].schema.name, records[0].payload, records[0].lowChange).0, records[1..])
  {
    hide Node.SendStream, KeepsSigns;
  }

  lemma ExactlyFirst(records: seq<Sent>, first: (Status, seq<Message>), rest: seq<(Status, seq<Message>)>)
    requires records != []
    ensures AllExactly(records, [first] + rest) <==> Exactly(records[0], first) && AllExactly(records[1..], rest)
  {
    hide Exactly;
    if AllExactly(records, [first] + rest) {
      assert ([first] + rest)[0] == first;
      forall i | 0 <= i < |rest| ensures Exactly(records[1..][i], rest[i]) {
        assert Exactly(records[i + 1], ([first] + rest)[i + 1]);
      }
    }
    if Exactly(records[0], first) && AllExactly(records[1..], rest) {
      forall i | 1 <= i < |records| ensures Exactly(records[i], ([first] + rest)[i]) {
        assert Exactly(records[1..][i - 1], rest[i - 1]);
      }
    }
  }

  /** No last payload of the sender holds a negative zero. */
  ghost predicate PlusBases(tx: Node)
  {
    forall name :: name in tx.stream.lastPayload && tx.registry.FindByName(name).Some? ==>
      PlusZeros(tx.registry.FindByName(name).value.fields, tx.stream.lastPayload[name])
  }

  ghost predicate AllPlus(records: seq<Sent>)
  {
    forall i :: 0 <= i < |records| ==> PlusZeros(records[i].schema.fields, records[i].payload)
  }

  /** In particular a run without negative zeros, in which all packets sent again bind, keeps every sign. */
  lemma {:induction false} PlusRunKeepsSigns(tx: Node, rx: Node, kept: Kept, records: seq<Sent>)
    requires Coupled(tx, rx, kept) && AllReady(tx, records) && PlusBases(tx) && AllPlus(records)
    requires RunBinds(tx, kept, records)
    ensures RunKeepsSigns(tx, records)
    decreases |records|
  {
    hide *;
    if records == [] {
      NothingToKeep(tx);
    } else {
      AllReadyLater(tx, tx, records);
      BindsFirst(tx, kept, records);
      PlusKeepsSigns(tx, rx, kept, records);
      KeepsFirst(tx, records);
      var tx1, rx1, received, messages := RunStep(tx, rx, kept, records);
      CarriesCoupled(tx, rx, kept, records[0], tx1, rx1, received, messages);
      PlusLater(tx, rx, kept, records, tx1, rx1, received, messages);
      PlusRunKeepsSigns(tx1, rx1, Keep(tx, kept, records[0]), records[1..]);
    }
  }

  lemma PlusKeepsSigns(tx: Node, rx: Node, kept: Kept, records: seq<Sent>)
    requires Coupled(tx, rx, kept) && PlusBases(tx) && AllPlus(records) && records != []
    requires Ready(tx, records[0].schema, records[0].payload)
    ensures KeepsSigns(tx, records[0])
  {
    var r := records[0];
    ReadyParts(tx, r.schema, r.payload);
    hide Ready, EmissionOf, PlusZeros, ZeroSignsKept, SamePayload, KeptPacket;
    if r.schema.name in tx.stream.lastPayload {
      assert CoupledAt(tx, rx, kept, r.schema);
      SendableFits(r.schema.fields, tx.stream.lastPayload[r.schema.name]);
      hide Fits, Sendable;
      PlusZerosKept(r.schema.fields, tx.stream.lastPayload[r.schema.name], r.payload);
    }
  }

  lemma PlusLater(tx: Node, rx: Node, kept: Kept, records: seq<Sent>, tx1: Node, rx1: Node, received: Status,
                  messages: seq<Message>)
    requires PlusBases(tx) && AllPlus(records) && records != [] && tx1.registry == tx.registry
    requires Ready(tx, records[0].schema, records[0].payload)
    requires Carries(tx, rx, kept, records[0], tx1, rx1, received, messages)
    ensures PlusBases(tx1) && AllPlus(records[1..])
  {
    hide *;
    var r := records[0];
    ReadyParts(tx, r.schema, r.payload);
    CarriesParts(tx, rx, kept, r, tx1, rx1, received, messages);
    PlusBasesLater(tx, tx1, r.schema, r.payload, records);
    AllPlusLater(records);
  }

  lemma PlusBasesLater(tx: Node, tx1: Node, schema: SchemaDef, payload: Payload, records: seq<Sent>)
    requires PlusBases(tx) && AllPlus(records) && records != [] && tx1.registry == tx.registry
    requires schema == records[0].schema && payload == records[0].payload
    requires tx.registry.FindByName(schema.name) == Some(schema)
    requires tx1.stream.lastPayload == tx.stream.lastPayload[schema.name := payload]
    ensures PlusBases(tx1)
  {
    hide PlusZeros, Registry.FindByName;
    assert PlusZeros(schema.fields, payload);
  }

  lemma AllPlusLater(records: seq<Sent>)
    requires AllPlus(records) && records != []
    ensures AllPlus(records[1..])
  {
    hide PlusZeros;
    forall i | 0 <= i < |records[1..]| ensures PlusZeros(records[1..][i].schema.fields, records[1..][i].payload) {
      assert records[1..][i] == records[i + 1];
    }
  }

  // The signs a run loses.

  const ONE_FLOAT := SchemaDef("t", 1, [FieldDef("x", F32, false, 0)])
  const PLUS: Payload := map["x" := Number(F32, 0)]
  const MINUS: Payload := map["x" := Number(F32, 0x8000_0000)]

  lemma ZerosCompareEqual()
    ensures ValueEq(Number(F32, 0), Number(F32, 0x8000_0000))
    ensures ValueEq(Number(F32, 0x8000_0000), Number(F32, 0x8000_0000))
    ensures ValueEq(Number(F32, 0), Number(F32, 0))
  {
    var sign := 0x8000_0000;
    assert sign % 8388608 == 0;
  }

  lemma ZerosSendable()
    ensures Sendable(ONE_FLOAT.fields, PLUS) && Sendable(ONE_FLOAT.fields, MINUS)
    ensures Ordered(ONE_FLOAT.fields, PLUS) == [PLUS["x"]] && Ordered(ONE_FLOAT.fields, MINUS) == [MINUS["x"]]
  {
    var fields := ONE_FLOAT.fields;
    assert fields[0].name == "x" && "x" in Names(fields);
    assert Names(fields) == {"x"};
    assert Ordered(fields, PLUS) == [PLUS["x"]] && Ordered(fields, MINUS) == [MINUS["x"]];
  }

  lemma ZerosReady(side: Node, p: Payload)
    requires side.registry.Valid() && side.registry.FindByName("t") == Some(ONE_FLOAT) && p in {PLUS, MINUS}
    ensures Ready(side, ONE_FLOAT, p)
  {
    ZerosSendable();
    ZeroStartsWithZero(p["x"]);
    PlainStarts([p["x"]]);
    hide Sendable, PlainValues, PlainValue;
  }

  /** What a delta from one zero to another leaves of the receiver's. */
  lemma ZeroMerged(last: Payload, next: Payload)
    requires last in {PLUS, MINUS} && next in {PLUS, MINUS}
    ensures PayloadEquals(last, next) && Fits(ONE_FLOAT.fields, PLUS) && Fits(ONE_FLOAT.fields, next)
    ensures Named(ONE_FLOAT.fields, Merge(ONE_FLOAT.fields, PLUS, last, next)) == PLUS
  {
    ZerosSendable();
    ZerosCompareEqual();
    var fields := ONE_FLOAT.fields;
    assert !Changed(last, next, "x");
    hide ValueEq, Changed;
    assert fields[0].name == "x";
    assert Merge(fields, PLUS, last, next) == [PLUS["x"]];
    assert Named(fields, [PLUS["x"]]) == PLUS;
  }

  /** In delta mode a payload that is found equal leaves as a delta. */
  lemma EqualLeavesAsDelta(tx: Node, rx: Node, kept: Kept, r: Sent)
    requires Coupled(tx, rx, kept) && Ready(tx, r.schema, r.payload)
    requires tx.stream.config.DeltaMode() && tx.stream.Identical(r.schema.name, r.payload)
    ensures EmissionOf(tx, r).delta
  {
    hide *;
    CoupledParts(tx, rx, kept);
    ReadyParts(tx, r.schema, r.payload);
    IdenticalParts(tx, r.schema, r.payload);
    LastIsReady(tx, rx, kept, r);
    RepeatIsDelta(tx, r);
  }

  /** There is always a delta between two payloads that may be sent. */
  lemma LastIsReady(tx: Node, rx: Node, kept: Kept, r: Sent)
    requires Coupled(tx, rx, kept) && Ready(tx, r.schema, r.payload) && r.schema.name in tx.stream.lastPayload
    ensures tx.stream.NextDelta(r.schema, r.payload).Some?
  {
    ReadyParts(tx, r.schema, r.payload);
    FieldCount(tx, r.schema, r.payload);
    tx.registry.FoundById(r.schema);
    hide Ready, KeptPacket, BuildDelta, ExpandDelta, Sendable, SamePayload, Rebase;
    assert CoupledAt(tx, rx, kept, r.schema);
    var last := tx.stream.lastPayload[r.schema.name];
    SendableFits(r.schema.fields, last);
    DeltaOverBase(r.schema, last, last, r.payload, Get(tx.stream.deltaSeq, r.schema.name, 0));
  }

  lemma RepeatIsDelta(tx: Node, r: Sent)
    requires tx.stream.config.DeltaMode() && tx.stream.Identical(r.schema.name, r.payload)
    requires tx.stream.NextDelta(r.schema, r.payload).Some?
    ensures EmissionOf(tx, r).delta
  {
    hide Node.Send, PayloadEquals, BuildDelta;
  }

  /** A receiver that holds +0 goes on delivering +0 for every zero that follows. */
  lemma ZeroFollows(tx: Node, rx: Node, kept: Kept, next: Payload, tx1: Node, rx1: Node, received: Status,
                    messages: seq<Message>)
    requires Coupled(tx, rx, kept) && tx.stream.config.DeltaMode() && tx.stream.config.reuse
    requires tx.registry.FindByName("t") == Some(ONE_FLOAT) && next in {PLUS, MINUS}
    requires "t" in tx.stream.lastPayload && tx.stream.lastPayload["t"] in {PLUS, MINUS}
    requires "t" in rx.stream.lastDecoded && rx.stream.lastDecoded["t"] == PLUS
    requires Carries(tx, rx, kept, Sent(ONE_FLOAT, next, false), tx1, rx1, received, messages)
    ensures (received, messages) == (Status.Ok, [Message("t", PLUS)])
    ensures tx1.stream.lastPayload == tx.stream.lastPayload["t" := next]
    ensures rx1.stream.lastDecoded == rx.stream.lastDecoded["t" := PLUS]
  {
    hide *;
    var r := Sent(ONE_FLOAT, next, false);
    OneFloatName();
    CoupledParts(tx, rx, kept);
    ZerosReady(tx, next);
    ZeroMerged(tx.stream.lastPayload["t"], next);
    FoundEqual(tx, next);
    EqualLeavesAsDelta(tx, rx, kept, r);
    CarriesParts(tx, rx, kept, r, tx1, rx1, received, messages);
    MergedAs(tx, rx, r, EmissionOf(tx, r), messages[0].payload);
  }

  lemma OneFloatName()
    ensures ONE_FLOAT.name == "t"
  {
  }

  lemma FoundEqual(tx: Node, next: Payload)
    requires "t" in tx.stream.lastPayload && tx.stream.config.reuse && PayloadEquals(tx.stream.lastPayload["t"], next)
    ensures tx.stream.Identical("t", next)
  {
    hide PayloadEquals;
  }

  /** What a delta is delivered as. */
  lemma MergedAs(tx: Node, rx: Node, r: Sent, e: Emission, m: Payload)
    requires ArrivesAs(tx, rx, r, e, m) && e.delta
    ensures r.schema.name in tx.stream.lastPayload && r.schema.name in rx.stream.lastDecoded
    ensures Fits(r.schema.fields, r.payload) && Fits(r.schema.fields, rx.stream.lastDecoded[r.schema.name])
    ensures m == Named(r.schema.fields,
      Merge(r.schema.fields, rx.stream.lastDecoded[r.schema.name], tx.stream.lastPayload[r.schema.name], r.payload))
  {
    hide Merge, Named;
  }

  /** Two freshly configured sides are coupled, on equal bases. */
  lemma FreshSides(side: Node, config: StreamConfig)
    requires side.registry.Valid() && side.dict.Inv() && side.stream == Fresh(config) && config.Immediate()
    ensures Coupled(side, side, map[]) && EqualBases(side, side)
  {
    hide D.Dict.Inv, CoupledAt;
  }

  lemma DeltaModeIsImmediate(config: StreamConfig)
    requires config.DeltaMode()
    ensures config.Immediate() && !config.Resends()
  {
  }

  lemma FirstZero(tx: Node, rx: Node, kept: Kept, config: StreamConfig, tx1: Node, rx1: Node, received: Status,
                  messages: seq<Message>)
    requires tx.stream == Fresh(config)
    requires Carries(tx, rx, kept, Sent(ONE_FLOAT, PLUS, false), tx1, rx1, received, messages)
    ensures (received, messages) == (Status.Ok, [Message("t", PLUS)])
    ensures tx1.stream.lastPayload == map["t" := PLUS] && tx1.stream.config == config && tx1.registry == tx.registry
    ensures "t" in rx1.stream.lastDecoded && rx1.stream.lastDecoded["t"] == PLUS
    ensures Coupled(tx1, rx1, Keep(tx, kept, Sent(ONE_FLOAT, PLUS, false)))
  {
    hide *;
    OneFloatName();
    var r := Sent(ONE_FLOAT, PLUS, false);
    CarriesParts(tx, rx, kept, r, tx1, rx1, received, messages);
    CarriesCoupled(tx, rx, kept, r, tx1, rx1, received, messages);
    FreshIsEmpty(tx, config);
    FirstIsItself(tx, rx, r, EmissionOf(tx, r), messages[0].payload);
  }

  lemma FreshIsEmpty(tx: Node, config: StreamConfig)
    requires tx.stream == Fresh(config)
    ensures tx.stream.lastPayload == map[] && tx.stream.config == config
  {
  }

  lemma FirstIsItself(tx: Node, rx: Node, r: Sent, e: Emission, m: Payload)
    requires ArrivesAs(tx, rx, r, e, m) && r.schema.name !in tx.stream.lastPayload
    ensures m == r.payload
  {
    hide Merge, Named, PayloadEquals, Fits;
  }

  lemma ZeroRecordsReady(side: Node, records: seq<Sent>)
    requires side.registry.Valid() && side.registry.FindByName("t") == Some(ONE_FLOAT)
    requires records == [Sent(ONE_FLOAT, PLUS, false), Sent(ONE_FLOAT, MINUS, false), Sent(ONE_FLOAT, MINUS, false)]
    ensures AllReady(side, records)
    ensures records[1..] == [records[1], records[2]] && records[1..][1..] == [records[2]]
    ensures records[1..][1..][1..] == []
  {
    hide Ready, Registry.FindByName, Registry.Valid;
    ZerosReady(side, PLUS);
    ZerosReady(side, MINUS);
  }

  /** The two zeros are different payloads, and a constant one changes no sign. */
  lemma TwoZeros()
    ensures PLUS != MINUS && ZeroSignsKept(ONE_FLOAT.fields, MINUS, MINUS)
  {
    assert PLUS["x"] != MINUS["x"];
  }

  /**
   * The concrete loss. In delta mode the records +0, -0, -0 of one float field are all delivered as +0: the second
   * changes the sign, and the third, which changes nothing, finds the receiver still holding +0.
   */
  lemma NegativeZeroLost(side: Node, config: StreamConfig)
    requires side.registry.Valid() && side.registry.FindByName("t") == Some(ONE_FLOAT) && side.dict.Inv()
    requires side.stream == Fresh(config) && config.DeltaMode() && config.reuse
    ensures var zero := (Status.Ok, [Message("t", PLUS)]);
      Run(side, side, [Sent(ONE_FLOAT, PLUS, false), Sent(ONE_FLOAT, MINUS, false), Sent(ONE_FLOAT, MINUS, false)]).2
        == [zero, zero, zero]
    ensures PLUS != MINUS && ZeroSignsKept(ONE_FLOAT.fields, MINUS, MINUS)
  {
    hide *;
    var plus, minus := Sent(ONE_FLOAT, PLUS, false), Sent(ONE_FLOAT, MINUS, false);
    var records := [plus, minus, minus];
    DeltaModeIsImmediate(config);
    FreshSides(side, config);
    FreshIsEmpty(side, config);
    TwoZeros();
    ZeroRecordsReady(side, records);
    NothingUnbound(side, side, map[], records);
    BindsFirst(side, map[], records);
    var tx1, rx1, received1, messages1 := RunStep(side, side, map[], records);
    FirstZero(side, side, map[], config, tx1, rx1, received1, messages1);
    var kept1 := Keep(side, map[], plus);
    BindsFirst(tx1, kept1, records[1..]);
    var tx2, rx2, received2, messages2 := RunStep(tx1, rx1, kept1, records[1..]);
    ZeroFollows(tx1, rx1, kept1, MINUS, tx2, rx2, received2, messages2);
    CarriesCoupled(tx1, rx1, kept1, minus, tx2, rx2, received2, messages2);
    var kept2 := Keep(tx1, kept1, minus);
    BindsFirst(tx2, kept2, records[1..][1..]);
    var tx3, rx3, received3, messages3 := RunStep(tx2, rx2, kept2, records[1..][1..]);
    ZeroFollows(tx2, rx2, kept2, MINUS, tx3, rx3, received3, messages3);
    EmptyRun(tx3, rx3, kept2);
  }
}
