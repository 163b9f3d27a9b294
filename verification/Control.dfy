/** The control packet that resets the receiver's dictionary, and runs in which the dictionary is reset. */
module Control {
  import opened Wire
  import opened Schema
  import opened Registry
  import opened Dictionary
  import opened Codec
  import opened Crc
  import opened Delta
  import opened StreamOptimizer
  import opened Runtime
  import opened Delivery
  import opened Fidelity

  /** Byte 0 alone makes a control packet. */
  predicate IsControl(p: Packet) { p != [] && p[0] == 0xFA }

  /**
   * A control packet, bare or in an intact envelope: nothing is delivered, the stream and all settings stay, every
   * string and every id is forgotten, and the next string that is stored gets id 1.
   */
  lemma ControlForgets(rx: Node, p: Packet, enclosed: bool, value: Str, id: u16)
    requires IsControl(p)
    ensures var (after, status, messages) := rx.ReceiveStream(if enclosed then Wrap(p) else p);
      && status == Status.Ok && messages == []
      && after == rx.(dict := after.dict) && after.dict.config == rx.dict.config
      && after.dict.Size() == 0 && after.dict.order == []
      && after.dict.LookupId(value) == None && after.dict.LookupValue(id) == None
      && (rx.dict.config.maxEntries >= 1 ==> after.dict.CreateOrGet(value).1 == Found(1, value))
  {
    EnvelopeTransparent(rx, enclosed, p);
    hide Wrap, Node.ReceiveStream;
    rx.dict.ResetForgets(value, id);
  }

  /** What `send_dictionary_reset` writes is such a packet, and so it is in an envelope. */
  lemma ResetTaken(rx: Node, enclosed: bool)
    ensures rx.ReceiveStream(if enclosed then Wrap(RESET_PACKET) else RESET_PACKET)
      == (rx.ResetDictionary(), Status.Ok, [])
    ensures RESET_PACKET == [0xFA, 0] && IsControl(RESET_PACKET)
  {
    EnvelopeTransparent(rx, enclosed, RESET_PACKET);
    hide Wrap, Node.ReceiveStream;
  }

  /** The two sides agree on everything but what their dictionaries hold. */
  ghost predicate CoupledButDicts(tx: Node, rx: Node, kept: Kept)
  {
    Coupled(tx, rx.(dict := tx.dict), kept) && rx.dict.config == tx.dict.config
  }

  lemma ResetEmpties(tx: Node, rx: Node)
    requires rx.dict.config == tx.dict.config
    ensures tx.ResetDictionary().dict == rx.ResetDictionary().dict == Empty(tx.dict.config)
    ensures tx.dict.Inv() ==> Empty(tx.dict.config).Inv()
  {
  }

  /**
   * Resetting both dictionaries couples the two sides again, whatever the receiver's dictionary held before: so every
   * theorem about coupled sides holds from there on.
   */
  lemma ResetCouples(tx: Node, rx: Node, kept: Kept)
    requires CoupledButDicts(tx, rx, kept)
    ensures Coupled(tx.ResetDictionary(), rx.ResetDictionary(), kept)
  {
    hide *;
    var rx0, tx1, rx1 := rx.(dict := tx.dict), tx.ResetDictionary(), rx.ResetDictionary();
    ButDictsParts(tx, rx, kept);
    ResetEmpties(tx, rx);
    CoupledParts(tx, rx0, kept);
    forall name | name in tx.stream.lastPayload ensures Somewhere(tx1, rx1, kept, name) {
      WasSomewhere(tx, rx0, kept, name);
      StillCoupledAt(tx, rx, kept, tx.registry.FindByName(name).value);
      ResetKeepsRest(tx, rx);
      IsSomewhere(tx1, rx1, kept, tx.registry.FindByName(name).value);
    }
    ResetKeepsRest(tx, rx);
    CoupledAgainFrom(tx, tx1, rx1, kept);
  }

  lemma ButDictsParts(tx: Node, rx: Node, kept: Kept)
    requires CoupledButDicts(tx, rx, kept)
    ensures Coupled(tx, rx.(dict := tx.dict), kept) && rx.dict.config == tx.dict.config
  {
    hide Coupled;
  }

  lemma ResetKeepsRest(tx: Node, rx: Node)
    ensures tx.ResetDictionary() == tx.(dict := tx.ResetDictionary().dict)
    ensures rx.ResetDictionary() == rx.(dict := rx.ResetDictionary().dict)
  {
  }

  lemma StillCoupledAt(tx: Node, rx: Node, kept: Kept, schema: SchemaDef)
    requires CoupledAt(tx, rx.(dict := tx.dict), kept, schema)
    ensures CoupledAt(tx.ResetDictionary(), rx.ResetDictionary(), kept, schema)
  {
    var tx1 := tx.ResetDictionary();
    assert tx1.dict.config == tx.dict.config;
    if tx.stream.config.Resends() {
      var name := schema.name;
      assert KeptPacket(tx, kept, schema);
      ReadyElsewhere(tx, tx1, schema, tx.stream.lastPayload[name]);
      assert tx.(dict := kept[name]) == tx1.(dict := kept[name]);
      hide Ready, Node.Send, Dict.Inv;
      assert KeptPacket(tx1, kept, schema);
    }
    hide Sendable, SamePayload, KeptPacket;
  }

  lemma CoupledAgainFrom(tx: Node, tx1: Node, rx1: Node, kept: Kept)
    requires tx1.registry.Valid() && rx1.registry == tx1.registry && rx1.optimizer == tx1.optimizer
    requires rx1.dict == tx1.dict && tx1.dict.Inv() && tx1.stream == tx.stream && tx.stream.config.Immediate()
    requires forall name :: name in tx.stream.lastPayload ==> Somewhere(tx1, rx1, kept, name)
    ensures Coupled(tx1, rx1, kept)
  {
    hide CoupledAt, Dict.Inv, Registry.FindByName;
    forall name | name in tx1.stream.lastPayload
      ensures tx1.registry.FindByName(name).Some?
      ensures CoupledAt(tx1, rx1, kept, tx1.registry.FindByName(name).value)
    {
      assert Somewhere(tx1, rx1, kept, name);
    }
  }

  // Runs in which the dictionary is reset.

  /** A record, or a reset of the sender's dictionary announced by a control packet, bare or enclosed. */
  datatype Step = Deliver(sent: Sent) | Restart(enclosed: bool)

  /** What one step does to both sides, and what the receiver answers. */
  function TakeStep(tx: Node, rx: Node, step: Step): (Node, Node, (Status, seq<Message>))
  {
    match step
    case Deliver(r) =>
      var (tx1, status, wire) := tx.SendStream(r.schema.name, r.payload, r.lowChange);
      if wire.None? then (tx1, rx, (status, []))
      else
        var (rx1, received, messages) := rx.ReceiveStream(wire.value);
        (tx1, rx1, (received, messages))
    case Restart(enclosed) =>
      var (rx1, received, messages) := rx.ReceiveStream(if enclosed then Wrap(RESET_PACKET) else RESET_PACKET);
      (tx.ResetDictionary(), rx1, (received, messages))
  }

  function RunSteps(tx: Node, rx: Node, steps: seq<Step>): (Node, Node, seq<(Status, seq<Message>)>)
    decreases |steps|
  {
    if steps == [] then (tx, rx, [])
    else
      var (tx1, rx1, outcome) := TakeStep(tx, rx, steps[0]);
      var (a, b, rest) := RunSteps(tx1, rx1, steps[1..]);
      (a, b, [outcome] + rest)
  }

  /** A record is delivered; a reset is answered with no message. */
  predicate Answered(step: Step, outcome: (Status, seq<Message>))
  {
    match step
    case Deliver(r) => DeliveredAs(r, outcome)
    case Restart(_) => outcome == (Status.Ok, [])
  }

  predicate AllAnswered(steps: seq<Step>, outcomes: seq<(Status, seq<Message>)>)
  {
    |outcomes| == |steps| && forall i :: 0 <= i < |steps| ==> Answered(steps[i], outcomes[i])
  }

  ghost predicate StepReady(tx: Node, step: Step)
  {
    step.Deliver? ==> Ready(tx, step.sent.schema, step.sent.payload)
  }

  ghost predicate AllStepsReady(tx: Node, steps: seq<Step>)
  {
    forall i :: 0 <= i < |steps| ==> StepReady(tx, steps[i])
  }

  /** The sender after a step, and what it has kept. */
  function SenderAfter(tx: Node, step: Step): Node
  {
    match step
    case Deliver(r) => tx.SendStream(r.schema.name, r.payload, r.lowChange).0
    case Restart(_) => tx.ResetDictionary()
  }

  function KeptWith(tx: Node, kept: Kept, step: Step): Kept
  {
    match step case Deliver(r) => Keep(tx, kept, r) case Restart(_) => kept
  }

  predicate StepBinds(tx: Node, kept: Kept, step: Step) { step.Deliver? ==> Binds(tx, kept, step.sent) }

  /** Every packet of the run that is sent again binds, to the dictionary as the resets have left it. */
  predicate StepsBind(tx: Node, kept: Kept, steps: seq<Step>)
    decreases |steps|
  {
    steps == [] ||
    (StepBinds(tx, kept, steps[0]) && StepsBind(SenderAfter(tx, steps[0]), KeptWith(tx, kept, steps[0]), steps[1..]))
  }

  function KeptAtEnd(tx: Node, kept: Kept, steps: seq<Step>): Kept
    decreases |steps|
  {
    if steps == [] then kept else KeptAtEnd(SenderAfter(tx, steps[0]), KeptWith(tx, kept, steps[0]), steps[1..])
  }

  /** One step keeps the coupling if it binds, and is not answered as it should be if it does not. */
  lemma OneStep(tx: Node, rx: Node, kept: Kept, step: Step)
    requires Coupled(tx, rx, kept) && StepReady(tx, step)
    ensures var (tx1, rx1, outcome) := TakeStep(tx, rx, step);
      && (Answered(step, outcome) <==> StepBinds(tx, kept, step))
      && (StepBinds(tx, kept, step) ==>
            tx1 == SenderAfter(tx, step) && Coupled(tx1, rx1, KeptWith(tx, kept, step))
            && tx1.registry == tx.registry && tx1.optimizer == tx.optimizer)
  {
    hide *;
    match step
    case Restart(enclosed) =>
      ResetTaken(rx, enclosed);
      WhollyCoupled(tx, rx, kept);
      ResetCouples(tx, rx, kept);
      ResetKeepsRest(tx, rx);
      RestartIs(tx, rx, kept, enclosed);
    case Deliver(r) =>
      DeliverIs(tx, rx, kept, r);
      assert Ready(tx, r.schema, r.payload) by { ReadyOf(tx, r); }
      if Binds(tx, kept, r) {
        OneRecord(tx, rx, kept, r);
        var sent := tx.SendStream(r.schema.name, r.payload, r.lowChange);
        var got := rx.ReceiveStream(sent.2.value);
        CarriesCoupled(tx, rx, kept, r, sent.0, got.0, got.1, got.2);
      } else {
        OneLost(tx, rx, kept, r);
      }
  }

  lemma ReadyOf(tx: Node, r: Sent)
    requires StepReady(tx, Deliver(r))
    ensures Ready(tx, r.schema, r.payload)
  {
    hide Ready;
  }

  lemma WhollyCoupled(tx: Node, rx: Node, kept: Kept)
    requires Coupled(tx, rx, kept)
    ensures CoupledButDicts(tx, rx, kept)
  {
    assert rx.(dict := tx.dict) == rx;
    hide CoupledAt, Dict.Inv;
  }

  lemma RestartIs(tx: Node, rx: Node, kept: Kept, enclosed: bool)
    requires rx.ReceiveStream(if enclosed then Wrap(RESET_PACKET) else RESET_PACKET)
      == (rx.ResetDictionary(), Status.Ok, [])
    ensures TakeStep(tx, rx, Restart(enclosed)) == (tx.ResetDictionary(), rx.ResetDictionary(), (Status.Ok, []))
    ensures SenderAfter(tx, Restart(enclosed)) == tx.ResetDictionary()
    ensures KeptWith(tx, kept, Restart(enclosed)) == kept && StepBinds(tx, kept, Restart(enclosed))
    ensures Answered(Restart(enclosed), (Status.Ok, []))
  {
    hide Node.ReceiveStream, Wrap, Node.ResetDictionary;
  }

  lemma DeliverIs(tx: Node, rx: Node, kept: Kept, r: Sent)
    ensures var (tx1, status, wire) := tx.SendStream(r.schema.name, r.payload, r.lowChange);
      && SenderAfter(tx, Deliver(r)) == tx1
      && (wire.Some? ==>
            var (rx1, received, messages) := rx.ReceiveStream(wire.value);
            TakeStep(tx, rx, Deliver(r)) == (tx1, rx1, (received, messages)))
    ensures KeptWith(tx, kept, Deliver(r)) == Keep(tx, kept, r)
    ensures StepBinds(tx, kept, Deliver(r)) <==> Binds(tx, kept, r)
    ensures forall outcome :: Answered(Deliver(r), outcome) <==> DeliveredAs(r, outcome)
  {
    hide Node.ReceiveStream, Node.SendStream, Keep, Binds, DeliveredAs;
  }

  lemma StepsReadyElsewhere(tx: Node, tx1: Node, steps: seq<Step>)
    requires AllStepsReady(tx, steps) && tx1.registry == tx.registry && tx1.optimizer == tx.optimizer
    ensures AllStepsReady(tx1, steps)
  {
    hide Ready;
    forall i | 0 <= i < |steps| ensures StepReady(tx1, steps[i]) {
      assert StepReady(tx, steps[i]);
      if steps[i].Deliver? { ReadyElsewhere(tx, tx1, steps[i].sent.schema, steps[i].sent.payload); }
    }
  }

  lemma StepsReadyLater(tx: Node, tx1: Node, steps: seq<Step>)
    requires AllStepsReady(tx, steps) && steps != []
    requires tx1.registry == tx.registry && tx1.optimizer == tx.optimizer
    ensures StepReady(tx, steps[0]) && AllStepsReady(tx1, steps[1..])
  {
    StepsReadyElsewhere(tx, tx1, steps);
    hide StepReady;
    forall i | 0 <= i < |steps[1..]| ensures StepReady(tx1, steps[1..][i]) {
      assert steps[1..][i] == steps[i + 1] && StepReady(tx1, steps[i + 1]);
    }
  }

  lemma AnsweredFirst(steps: seq<Step>, first: (Status, seq<Message>), rest: seq<(Status, seq<Message>)>)
    requires steps != []
    ensures AllAnswered(steps, [first] + rest) <==> Answered(steps[0], first) && AllAnswered(steps[1..], rest)
  {
    hide Answered;
    if AllAnswered(steps, [first] + rest) {
      assert Answered(steps[0], ([first] + rest)[0]);
      forall i | 0 <= i < |rest| ensures Answered(steps[1..][i], rest[i]) {
        assert Answered(steps[i + 1], ([first] + rest)[i + 1]);
      }
    }
    if Answered(steps[0], first) && AllAnswered(steps[1..], rest) {
      forall i | 0 <= i < |steps| ensures Answered(steps[i], ([first] + rest)[i]) {
        if i > 0 { assert Answered(steps[1..][i - 1], rest[i - 1]); }
      }
    }
  }

  lemma StepsUnfold(tx: Node, rx: Node, kept: Kept, steps: seq<Step>)
    requires steps != []
    ensures var (tx1, rx1, outcome) := TakeStep(tx, rx, steps[0]);
      var rest := RunSteps(tx1, rx1, steps[1..]);
      RunSteps(tx, rx, steps) == (rest.0, rest.1, [outcome] + rest.2)
    ensures var tx1, kept1 := SenderAfter(tx, steps[0]), KeptWith(tx, kept, steps[0]);
      && (StepsBind(tx, kept, steps) <==> StepBinds(tx, kept, steps[0]) && StepsBind(tx1, kept1, steps[1..]))
      && KeptAtEnd(tx, kept, steps) == KeptAtEnd(tx1, kept1, steps[1..])
  {
    hide TakeStep, SenderAfter, KeptWith, StepBinds;
  }

  lemma NoSteps(tx: Node, rx: Node, kept: Kept)
    ensures RunSteps(tx, rx, []) == (tx, rx, []) && StepsBind(tx, kept, []) && KeptAtEnd(tx, kept, []) == kept
    ensures AllAnswered([], [])
  {
  }

  /**
   * Runs of records and dictionary resets in any order: every record is delivered, as `LosslessRun` says, and every
   * reset answered, if and only if every packet that is sent again still binds; and then both sides end coupled.
   */
  lemma {:induction false} RunWithResets(tx: Node, rx: Node, kept: Kept, steps: seq<Step>)
    requires Coupled(tx, rx, kept) && AllStepsReady(tx, steps)
    ensures AllAnswered(steps, RunSteps(tx, rx, steps).2) <==> StepsBind(tx, kept, steps)
    ensures StepsBind(tx, kept, steps) ==>
      Coupled(RunSteps(tx, rx, steps).0, RunSteps(tx, rx, steps).1, KeptAtEnd(tx, kept, steps))
    decreases |steps|
  {
    hide *;
    if steps == [] {
      NoSteps(tx, rx, kept);
    } else {
      StepsReadyLater(tx, tx, steps);
      StepsUnfold(tx, rx, kept, steps);
      OneStep(tx, rx, kept, steps[0]);
      var (tx1, rx1, outcome) := TakeStep(tx, rx, steps[0]);
      AnsweredFirst(steps, outcome, RunSteps(tx1, rx1, steps[1..]).2);
      if StepBinds(tx, kept, steps[0]) {
        StepsReadyLater(tx, tx1, steps);
        RunWithResets(tx1, rx1, KeptWith(tx, kept, steps[0]), steps[1..]);
      }
    }
  }

  /**
   * The same from sides whose dictionaries have drifted apart: once the sender has reset its own and the receiver has
   * taken the control packet, every run that follows is answered if and only if it binds.
   */
  lemma FreshStart(tx: Node, rx: Node, kept: Kept, enclosed: bool, steps: seq<Step>)
    requires CoupledButDicts(tx, rx, kept) && AllStepsReady(tx, steps)
    ensures var (rx1, status, messages) :=
        rx.ReceiveStream(if enclosed then Wrap(RESET_PACKET) else RESET_PACKET);
      var tx1 := tx.ResetDictionary();
      && status == Status.Ok && messages == [] && Coupled(tx1, rx1, kept)
      && (AllAnswered(steps, RunSteps(tx1, rx1, steps).2) <==> StepsBind(tx1, kept, steps))
  {
    hide *;
    ResetTaken(rx, enclosed);
    ResetCouples(tx, rx, kept);
    ResetKeepsRest(tx, rx);
    StepsReadyElsewhere(tx, tx.ResetDictionary(), steps);
    RunWithResets(tx.ResetDictionary(), rx.ResetDictionary(), kept, steps);
  }

  // What a reset does to packets that are kept, and what becomes of a reset that is missed.

  /** Encoding with this dictionary writes every string in full. */
  predicate NoReferences(kept: Dict, values: seq<FieldValue>)
    decreases |values|
  {
    values == [] || (!GoesByReference(kept, values[0]) && NoReferences(EncodeValue(kept, values[0]).1, values[1..]))
  }

  /** A kept packet without references binds whatever has become of the dictionary, also after a reset. */
  lemma {:induction false} UnreferencedBinds(kept: Dict, now: Dict, values: seq<FieldValue>)
    requires NoReferences(kept, values)
    ensures StillBound(kept, now, values)
    decreases |values|
  {
    hide EncodeValue, GoesByReference;
    if values != [] { UnreferencedBinds(EncodeValue(kept, values[0]).1, EncodeValue(now, values[0]).1, values[1..]); }
  }

  /** One that refers to a string no other string of the packet precedes is lost by a reset. */
  lemma ReferenceLostByReset(kept: Dict, now: Dict, values: seq<FieldValue>, k: nat)
    requires k < |values| && (forall i :: 0 <= i < k ==> !values[i].Text?) && GoesByReference(kept, values[k])
    ensures !StillBound(kept, now.Reset(), values)
  {
    if k > 0 { ReferenceLostByReset(kept, now, values[1..], k - 1); }
  }

  /** Storing a string in a dictionary with room leaves what it held. */
  lemma StoredBeside(d: Dict, value: Str, id: u16)
    requires d.Inv() && |d.order| < d.config.maxEntries && value !in d.idOf && id in d.valueOf
    ensures d.CreateOrGet(value).0.LookupValue(id) == d.LookupValue(id)
  {
    NextIsFresh(d.order, d.nextId);
  }

  /** Two records of one string field, encoded one after the other, and read one after the other. */
  function ReadTwice(f: FieldDef, tx: Dict, rx: Dict, value: Str): (seq<FieldValue>, seq<FieldValue>)
  {
    var (first, tx1) := EncodeValues(tx, [Text(value)]);
    var second := EncodeValues(tx1, [Text(value)]).0;
    var read := DecodeValues([f], rx, first);
    (read.values, DecodeValues([f], read.dict, second).values)
  }

  /**
   * A receiver that misses the control packet: after the sender's reset the next new string is read rightly once, in
   * full, but sent again it is read as whatever the receiver still holds under id 1.
   */
  lemma MissedReset(f: FieldDef, tx: Dict, rx: Dict, value: Str, stale: Str)
    requires f.ftype.String? && |value| <= 65534 && tx.Inv() && tx.config.Active()
    requires rx.Inv() && rx.config == tx.config && |rx.order| < rx.config.maxEntries
    requires rx.LookupValue(1) == Some(stale) && value !in rx.idOf
    ensures ReadTwice(f, tx.Reset(), rx, value) == ([Text(value)], [Text(stale)]) && stale != value
  {
    var reset, v := tx.Reset(), Text(value);
    OneEncoded(reset, v);
    var tx1 := EncodeValue(reset, v).1;
    OneEncoded(tx1, v);
    assert tx1.idOf == map[value := 1];
    hide Dict.Reset;
    StoredBeside(rx, value, 1);
    var rx1 := Learn(rx, v);
    ReadsBack(f, rx, v, []);
    OneDecoded(f, rx, PlainValue(v), v, rx1);
    ReferenceReads(f, rx1, 1, []);
    OneDecoded(f, rx1, LE(REFERENCE, 2) + LE(1, 2), Text(stale), rx1);
  }

  lemma OneEncoded(d: Dict, v: FieldValue)
    ensures EncodeValues(d, [v]) == EncodeValue(d, v)
  {
    hide EncodeValue;
    assert [v][1..] == [];
    var (wire, next) := EncodeValue(d, v);
    assert EncodeValues(next, []) == ([], next);
    assert wire + [] == wire;
  }

  lemma OneDecoded(f: FieldDef, d: Dict, wire: seq<byte>, v: FieldValue, next: Dict)
    requires DecodeField(f, d, wire + []) == Read(v, |wire|, next)
    ensures DecodeValues([f], d, wire).values == [v] && DecodeValues([f], d, wire).dict == next
  {
    hide DecodeField;
    assert wire + [] == wire && [f][1..] == [];
  }
}
