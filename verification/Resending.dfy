/** A packet sent again with a dictionary in use: the run in which it no longer binds. */
module Resending {
  import opened Wire
  import opened Schema
  import opened Registry
  import opened Dictionary
  import opened Codec
  import opened Delta
  import opened StreamOptimizer
  import opened Runtime
  import opened Delivery
  import opened Fidelity

  const FIRST := SchemaDef("a", 1, [FieldDef("s", String, false, 0)])
  const SECOND := SchemaDef("b", 2, [FieldDef("s", String, false, 0)])

  function Saying(text: Str): Payload { map["s" := Text(text)] }

  const X: Str := [120]
  const Y: Str := [121]

  const ONE_ENTRY := Config(true, true, 1)

  /** The dictionary of one entry that holds the string under the id. */
  function Holding(text: Str, id: u16): Dict
  {
    Dict(ONE_ENTRY, Next(id), map[text := id], map[id := text], [id])
  }

  lemma Learns()
    ensures EncodeValues(Empty(ONE_ENTRY), [Text(X)]).1 == Holding(X, 1)
    ensures EncodeValues(Holding(X, 1), [Text(X)]).1 == Holding(X, 1)
    ensures EncodeValues(Holding(X, 1), [Text(Y)]).1 == Holding(Y, 2)
    ensures !StillBound(Holding(X, 1), Holding(Y, 2), [Text(X)])
  {
    assert X[0] != Y[0];
    assert [Text(X)][1..] == [] && [Text(Y)][1..] == [];
    var d := Holding(X, 1);
    assert d.EvictOldest() == Dict(ONE_ENTRY, 2, map[], map[], []) by {
      assert d.order[1..] == [];
      assert d.idOf - {X} == map[] && d.valueOf - {1} == map[];
    }
    assert Empty(ONE_ENTRY).Insert(X) == Holding(X, 1);
    assert d.EvictOldest().Insert(Y) == Holding(Y, 2);
  }

  lemma SayingFits(schema: SchemaDef, text: Str)
    requires schema in {FIRST, SECOND} && |text| == 1
    ensures Sendable(schema.fields, Saying(text)) && Ordered(schema.fields, Saying(text)) == [Text(text)]
    ensures PlainValues([Text(text)]) != [] && PlainValues([Text(text)])[0] == 1
  {
    var fields := schema.fields;
    assert fields[0].name == "s" && "s" in Names(fields);
    assert Names(fields) == {"s"};
    assert Ordered(fields, Saying(text)) == [Text(text)];
    PlainStarts([Text(text)]);
    assert LE(1, 2)[0] == 1;
  }

  /** A node with the two schemas. */
  ghost predicate Registered(tx: Node)
  {
    && tx.registry.Valid() && tx.registry.FindByName("a") == Some(FIRST) && tx.registry.FindByName("b") == Some(SECOND)
  }

  lemma SayingReady(tx: Node, schema: SchemaDef, text: Str)
    requires Registered(tx) && schema in {FIRST, SECOND} && |text| == 1
    ensures Ready(tx, schema, Saying(text))
  {
    SayingFits(schema, text);
    hide Sendable, PlainValues, Registry.Valid;
  }

  /** What one record does to the sender's dictionary and its last payloads. */
  lemma SenderStep(tx: Node, schema: SchemaDef, text: Str, after: Dict)
    requires Registered(tx) && tx.dict.Inv() && tx.stream.config.Immediate()
    requires schema in {FIRST, SECOND} && |text| == 1 && EncodeValues(tx.dict, [Text(text)]).1 == after
    ensures var tx1 := tx.SendStream(schema.name, Saying(text), false).0;
      && tx1.dict == after && after.Inv() && Registered(tx1) && tx1.stream.config == tx.stream.config
      && tx1.stream.lastPayload == tx.stream.lastPayload[schema.name := Saying(text)]
  {
    hide *;
    var r := Sent(schema, Saying(text), false);
    SayingReady(tx, schema, text);
    SayingFits(schema, text);
    SenderMoves(tx, r);
    SentDict(tx, schema, Saying(text));
    var tx1 := tx.SendStream(schema.name, Saying(text), false).0;
    MovedParts(tx, tx1, r, EmissionOf(tx, r).delta);
    StillRegistered(tx, tx1);
  }

  lemma StillRegistered(tx: Node, tx1: Node)
    requires Registered(tx) && tx1.registry == tx.registry
    ensures Registered(tx1)
  {
  }

  lemma SentAgain(tx: Node, text: Str)
    requires tx.stream.config.Resends() && "a" in tx.stream.lastPayload && tx.stream.lastPayload["a"] == Saying(text)
    ensures EmissionOf(tx, Sent(FIRST, Saying(text), false)).reused
  {
    assert PayloadEquals(Saying(text), Saying(text));
    hide Node.Send, PayloadEquals, BuildDelta;
  }

  lemma NotBound(tx: Node, kept: Kept, text: Str)
    requires EmissionOf(tx, Sent(FIRST, Saying(text), false)).reused && "a" in kept && |text| == 1
    requires "a" in tx.stream.lastPayload && tx.stream.lastPayload["a"] == Saying(text)
    requires !StillBound(kept["a"], tx.dict, [Text(text)])
    ensures !Binds(tx, kept, Sent(FIRST, Saying(text), false))
  {
    SayingFits(FIRST, text);
    hide EmissionOf, StillBound;
  }

  /** One record of the run: both what it leaves and that the rest of the run binds if the run does. */
  lemma Step(tx: Node, kept: Kept, records: seq<Sent>, schema: SchemaDef, text: Str, after: Dict)
    returns (tx1: Node, kept1: Kept)
    requires Registered(tx) && tx.dict.Inv() && tx.stream.config.Immediate() && records != []
    requires schema in {FIRST, SECOND} && |text| == 1 && records[0] == Sent(schema, Saying(text), false)
    requires EncodeValues(tx.dict, [Text(text)]).1 == after
    ensures tx1.dict == after && after.Inv() && Registered(tx1) && tx1.stream.config == tx.stream.config
    ensures tx1.stream.lastPayload == tx.stream.lastPayload[schema.name := Saying(text)]
    ensures kept1 == kept[schema.name := tx.dict]
    ensures RunBinds(tx, kept, records) ==> RunBinds(tx1, kept1, records[1..])
  {
    hide *;
    SenderStep(tx, schema, text, after);
    BindsFirst(tx, kept, records);
    tx1, kept1 := tx.SendStream(schema.name, Saying(text), false).0, kept[schema.name := tx.dict];
    KeepIs(tx, kept, records[0]);
  }

  lemma KeepIs(tx: Node, kept: Kept, r: Sent)
    ensures Keep(tx, kept, r) == kept[r.schema.name := tx.dict]
  {
  }

  lemma NamesAre()
    ensures FIRST.name == "a" && SECOND.name == "b" && |X| == 1 && |Y| == 1
  {
  }

  lemma FreshSide(side: Node, config: StreamConfig)
    requires Registered(side) && side.dict == Empty(ONE_ENTRY) && side.stream == Fresh(config) && config.Immediate()
    ensures side.dict.Inv() && Coupled(side, side, map[])
    ensures side.stream.lastPayload == map[] && side.stream.config == config
  {
    hide CoupledAt;
  }

  lemma AllSayingReady(side: Node, records: seq<Sent>)
    requires Registered(side)
    requires var a, b := Sent(FIRST, Saying(X), false), Sent(SECOND, Saying(Y), false); records == [a, a, b, a]
    ensures AllReady(side, records)
  {
    SayingReady(side, FIRST, X);
    SayingReady(side, SECOND, Y);
    hide Ready, Registered;
  }

  /**
   * The concrete loss. With re-sending on and a dictionary of one entry, the records a "x", a "x", b "y", a "x" are not
   * all delivered: the third evicts "x", and the fourth sends again a packet that refers to it.
   */
  lemma EvictedReferenceLost(side: Node, config: StreamConfig)
    requires Registered(side) && side.dict == Empty(ONE_ENTRY)
    requires side.stream == Fresh(config) && config.Resends() && config.Immediate()
    ensures var a, b := Sent(FIRST, Saying(X), false), Sent(SECOND, Saying(Y), false);
      !AllDelivered([a, a, b, a], Fidelity.Run(side, side, [a, a, b, a]).2)
  {
    hide *;
    var a, b := Sent(FIRST, Saying(X), false), Sent(SECOND, Saying(Y), false);
    var records := [a, a, b, a];
    Learns();
    NamesAre();
    FreshSide(side, config);
    AllSayingReady(side, records);
    assert records[1..] == [a, b, a] && records[1..][1..] == [b, a] && records[1..][1..][1..] == [a];
    var tx1, kept1 := Step(side, map[], records, FIRST, X, Holding(X, 1));
    var tx2, kept2 := Step(tx1, kept1, records[1..], FIRST, X, Holding(X, 1));
    var tx3, kept3 := Step(tx2, kept2, records[1..][1..], SECOND, Y, Holding(Y, 2));
    SentAgain(tx3, X);
    NotBound(tx3, kept3, X);
    BindsFirst(tx3, kept3, records[1..][1..][1..]);
    LosslessRun(side, side, map[], records);
  }
}
