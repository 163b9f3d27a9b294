/** Two runtime objects on an in-order channel: the end-to-end statement about the imperative code. */
module Session {
  import opened Wire
  import opened Runtime
  import opened Fidelity
  import opened Signs
  import opened RuntimeMachine

  /** Two runtimes that share no dictionary and no stream optimizer. */
  predicate Separate(a: SchemaRuntime, b: SchemaRuntime)
  {
    a != b && a.dictionary != b.dictionary && a.stream != b.stream
  }

  /**
   * Sends every record, receives every packet at once and returns what each reception delivered. The objects end in
   * the states of the specified run, so what is proved of that run holds of them.
   */
  method Exchange(tx: SchemaRuntime, rx: SchemaRuntime, records: seq<Sent>, ghost kept: Kept)
    returns (outcomes: seq<(Status, seq<Message>)>)
    requires Separate(tx, rx) && tx.Valid() && rx.Valid()
    modifies tx.dictionary, tx.stream, rx.dictionary, rx.stream
    ensures (tx.State(), rx.State(), outcomes) == Run(old(tx.State()), old(rx.State()), records)
    ensures Coupled(old(tx.State()), old(rx.State()), kept) && AllReady(old(tx.State()), records) ==>
      (AllDelivered(records, outcomes) <==> RunBinds(old(tx.State()), kept, records))
    ensures Together(old(tx.State()), old(rx.State()), kept) && AllReady(old(tx.State()), records) ==>
      (AllExactly(records, outcomes) <==> BindsAndKeeps(old(tx.State()), kept, records))
  {
    hide *;
    ghost var tx0, rx0 := tx.State(), rx.State();
    outcomes := [];
    EmptyPrefix(tx0, rx0, records);
    for i := 0 to |records|
      invariant |outcomes| == i && tx.Valid() && rx.Valid()
      invariant Run(tx0, rx0, records) == After(outcomes, Run(tx.State(), rx.State(), records[i..]))
    {
      RunUnrolls(tx.State(), rx.State(), records[i..], outcomes);
      Suffix(records, i);
      var outcome := One(tx, rx, records[i]);
      outcomes := outcomes + [outcome];
    }
    FullPrefix(tx.State(), rx.State(), records, outcomes);
    if Coupled(tx0, rx0, kept) && AllReady(tx0, records) { LosslessRun(tx0, rx0, kept, records); }
    if Together(tx0, rx0, kept) && AllReady(tx0, records) { ExactOutcomes(tx0, rx0, kept, records); }
  }

  ghost predicate Together(tx: Node, rx: Node, kept: Kept) { Coupled(tx, rx, kept) && EqualBases(tx, rx) }

  ghost predicate BindsAndKeeps(tx: Node, kept: Kept, records: seq<Sent>)
  {
    RunBinds(tx, kept, records) && RunKeepsSigns(tx, records)
  }

  lemma ExactOutcomes(tx: Node, rx: Node, kept: Kept, records: seq<Sent>)
    requires Together(tx, rx, kept) && AllReady(tx, records)
    ensures AllExactly(records, Run(tx, rx, records).2) <==> BindsAndKeeps(tx, kept, records)
  {
    hide Run, Coupled, AllReady, RunKeepsSigns, RunBinds, AllExactly;
    ExactRun(tx, rx, kept, records);
  }

  /** A run's result with what earlier records delivered in front. */
  function After(earlier: seq<(Status, seq<Message>)>, run: (Node, Node, seq<(Status, seq<Message>)>))
    : (Node, Node, seq<(Status, seq<Message>)>)
  {
    (run.0, run.1, earlier + run.2)
  }

  lemma EmptyPrefix(tx: Node, rx: Node, records: seq<Sent>)
    ensures Run(tx, rx, records) == After([], Run(tx, rx, records[0..]))
  {
    hide Run;
    assert records[0..] == records;
    var run := Run(tx, rx, records);
    assert [] + run.2 == run.2;
    assert run == (run.0, run.1, run.2);
  }

  lemma Suffix(records: seq<Sent>, i: nat)
    requires i < |records|
    ensures records[i..] != [] && records[i..][0] == records[i] && records[i..][1..] == records[i + 1..]
  {
  }

  lemma FullPrefix(tx: Node, rx: Node, records: seq<Sent>, outcomes: seq<(Status, seq<Message>)>)
    ensures After(outcomes, Run(tx, rx, records[|records|..])) == (tx, rx, outcomes)
  {
    assert records[|records|..] == [];
    assert Run(tx, rx, []) == (tx, rx, []);
    hide Run;
    assert outcomes + [] == outcomes;
  }

  lemma RunUnrolls(tx: Node, rx: Node, records: seq<Sent>, earlier: seq<(Status, seq<Message>)>)
    requires records != []
    ensures var (tx1, rx1, outcome) := Next(tx, rx, records[0]);
      After(earlier, Run(tx, rx, records)) == After(earlier + [outcome], Run(tx1, rx1, records[1..]))
  {
    hide Node.SendStream, Node.ReceiveStream;
    var (tx1, rx1, outcome) := Next(tx, rx, records[0]);
    var rest := Run(tx1, rx1, records[1..]).2;
    assert Run(tx, rx, records).2 == [outcome] + rest;
    assert earlier + ([outcome] + rest) == earlier + [outcome] + rest;
  }

  /** One record, sent and received. */
  function Next(tx: Node, rx: Node, r: Sent): (Node, Node, (Status, seq<Message>))
  {
    var (tx1, status, wire) := tx.SendStream(r.schema.name, r.payload, r.lowChange);
    if wire.None? then (tx1, rx, (status, []))
    else
      var (rx1, received, messages) := rx.ReceiveStream(wire.value);
      (tx1, rx1, (received, messages))
  }

  method One(tx: SchemaRuntime, rx: SchemaRuntime, r: Sent) returns (outcome: (Status, seq<Message>))
    requires Separate(tx, rx) && tx.Valid() && rx.Valid()
    modifies tx.dictionary, tx.stream, rx.dictionary, rx.stream
    ensures tx.Valid() && rx.Valid()
    ensures (tx.State(), rx.State(), outcome) == Next(old(tx.State()), old(rx.State()), r)
  {
    hide Node.SendStream, Node.ReceiveStream;
    var status, wire := tx.SendStream(r.schema.name, r.payload, r.lowChange);
    assert rx.State() == old(rx.State());
    if wire.None? { return (status, []); }
    var received, messages := rx.ReceiveStream(wire.value);
    return (received, messages);
  }
}
