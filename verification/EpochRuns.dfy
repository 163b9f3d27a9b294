/**
 * Epoch safety over whole runs: the packets of any number of epochs of any schemas, over a channel that may drop,
 * repeat, reorder and interleave them.
 */
module EpochRuns {
  import opened Wire
  import opened Schema
  import opened Registry
  import opened Codec
  import opened Delta
  import opened StreamOptimizer
  import opened Runtime
  import opened Delivery
  import opened Fidelity
  import opened Epoch

  /**
   * Packet k of one of the epochs reaches the receiver. Dropping, repeating and reordering are the choice of arrivals.
   */
  datatype Arrival = Arrival(epoch: nat, k: nat)

  /** For every schema, the packet its receiver took last. */
  type Positions = map<string, Arrival>

  ghost predicate Channel(tx: Node, epochs: seq<Epoch>)
  {
    forall e :: 0 <= e < |epochs| ==> epochs[e].Fitting() && epochs[e].AllReady(tx)
  }

  predicate Known(epochs: seq<Epoch>, a: Arrival)
  {
    a.epoch < |epochs| && a.k < |epochs[a.epoch].payloads|
  }

  ghost predicate AllKnown(epochs: seq<Epoch>, arrivals: seq<Arrival>)
  {
    forall i :: 0 <= i < |arrivals| ==> Known(epochs, arrivals[i])
  }

  /** The receiver stands where the positions say, for one schema. */
  ghost predicate Stands(rx: Node, epochs: seq<Epoch>, at: Positions, name: string)
    requires forall e :: 0 <= e < |epochs| ==> epochs[e].Fitting()
  {
    if name in at then
      && Known(epochs, at[name]) && epochs[at[name].epoch].schema.name == name
      && At(rx, epochs[at[name].epoch], at[name].k)
    else name !in rx.stream.lastDecoded
  }

  ghost predicate Synced(tx: Node, rx: Node, epochs: seq<Epoch>, at: Positions)
    requires Channel(tx, epochs)
  {
    Peers(tx, rx) && forall e :: 0 <= e < |epochs| ==> Stands(rx, epochs, at, epochs[e].schema.name)
  }

  function NameOf(epochs: seq<Epoch>, a: Arrival): string
    requires Known(epochs, a)
  {
    epochs[a.epoch].schema.name
  }

  /** A full packet, or the delta next to the packet taken last of its schema. */
  predicate Next(epochs: seq<Epoch>, at: Positions, a: Arrival)
    requires Known(epochs, a)
  {
    a.k == 0 || (NameOf(epochs, a) in at && at[NameOf(epochs, a)] == Arrival(a.epoch, a.k - 1))
  }

  /** A delta that carries the number the receiver expects. */
  predicate Numbered(epochs: seq<Epoch>, at: Positions, a: Arrival)
    requires Known(epochs, a)
  {
    a.k > 0 && NameOf(epochs, a) in at && (a.k - 1) % 65536 == at[NameOf(epochs, a)].k % 65536
  }

  /** No arrival is mistaken for the next one: only that one carries the expected number. */
  predicate Unmistaken(epochs: seq<Epoch>, at: Positions, a: Arrival)
    requires Known(epochs, a)
  {
    Numbered(epochs, at, a) ==> Next(epochs, at, a)
  }

  function Move(epochs: seq<Epoch>, at: Positions, a: Arrival): Positions
    requires Known(epochs, a)
  {
    if Next(epochs, at, a) then at[NameOf(epochs, a) := a] else at
  }

  ghost predicate AllUnmistaken(epochs: seq<Epoch>, at: Positions, arrivals: seq<Arrival>)
    requires AllKnown(epochs, arrivals)
    decreases |arrivals|
  {
    arrivals == [] ||
    (KnownLater(epochs, arrivals);
     Unmistaken(epochs, at, arrivals[0]) && AllUnmistaken(epochs, Move(epochs, at, arrivals[0]), arrivals[1..]))
  }

  lemma KnownLater(epochs: seq<Epoch>, arrivals: seq<Arrival>)
    requires AllKnown(epochs, arrivals) && arrivals != []
    ensures Known(epochs, arrivals[0]) && AllKnown(epochs, arrivals[1..])
  {
    forall i | 0 <= i < |arrivals[1..]| ensures Known(epochs, arrivals[1..][i]) {
      assert arrivals[1..][i] == arrivals[i + 1];
    }
  }

  // One arrival.

  /** Nothing but the stream state of one schema differs. */
  ghost predicate OnlyMoved(a: Node, b: Node, name: string)
  {
    b == a.(stream := b.stream) && forall other :: other != name ==> Elsewhere(a, b, other)
  }

  lemma RecordedMoves(rx: Node, name: string, p: Payload)
    ensures OnlyMoved(rx, rx, name)
    ensures OnlyMoved(rx, rx.(stream := rx.stream.RecordDecoded(name, p)), name)
    ensures OnlyMoved(rx, rx.(stream := rx.stream.RecordDecodedDelta(name, p)), name)
  {
  }

  /** The stream state of a schema is the same on both. */
  predicate Elsewhere(a: Node, b: Node, name: string)
  {
    && (name in a.stream.lastDecoded <==> name in b.stream.lastDecoded)
    && (name in a.stream.lastDecoded ==> a.stream.lastDecoded[name] == b.stream.lastDecoded[name])
    && Get(a.stream.expected, name, 0) == Get(b.stream.expected, name, 0)
  }

  function Reception(tx: Node, rx: Node, epochs: seq<Epoch>, a: Arrival): (Node, Status, seq<Message>)
    requires Known(epochs, a)
  {
    rx.ReceiveStream(tx.Envelope(epochs[a.epoch].Packet(tx, a.k)))
  }

  lemma ReceptionIs(tx: Node, rx: Node, epochs: seq<Epoch>, a: Arrival)
    requires Known(epochs, a)
    ensures Reception(tx, rx, epochs, a) == rx.ReceiveStream(tx.Envelope(epochs[a.epoch].Packet(tx, a.k)))
  {
  }

  /**
   * The step of the safety theorem: what is next is taken and moves the receiver there, anything else leaves no trace.
   */
  lemma OneArrives(tx: Node, rx: Node, epochs: seq<Epoch>, at: Positions, a: Arrival)
    requires Channel(tx, epochs) && Synced(tx, rx, epochs, at) && Known(epochs, a) && Unmistaken(epochs, at, a)
    ensures var (rx1, status, messages) := Reception(tx, rx, epochs, a);
      && OnlyMoved(rx, rx1, NameOf(epochs, a))
      && (Next(epochs, at, a) ==>
            && epochs[a.epoch].Fitting() && At(rx1, epochs[a.epoch], a.k)
            && (status, messages) == (Status.Ok, [Message(NameOf(epochs, a), epochs[a.epoch].Held(a.k))]))
      && (!Next(epochs, at, a) ==> (rx1, status, messages) == (rx, DecodeFailed, []))
  {
    hide *;
    SyncedAt(tx, rx, epochs, at, a);
    var e := epochs[a.epoch];
    ReceptionIs(tx, rx, epochs, a);
    if a.k == 0 {
      FullArrives(tx, rx, e);
      NextIs(epochs, at, a);
      RecordedMoves(rx, e.schema.name, e.Held(0));
    } else if Next(epochs, at, a) {
      NextIs(epochs, at, a);
      NextArrives(tx, rx, e, a.k - 1);
      RecordedMoves(rx, e.schema.name, e.Held(a.k));
    } else {
      NotNumbered(rx, epochs, at, a);
      OtherRejected(tx, rx, e, a.k);
      RecordedMoves(rx, e.schema.name, map[]);
    }
  }

  lemma SyncedAt(tx: Node, rx: Node, epochs: seq<Epoch>, at: Positions, a: Arrival)
    requires Channel(tx, epochs) && Synced(tx, rx, epochs, at) && Known(epochs, a)
    ensures Peers(tx, rx) && a.epoch < |epochs| && a.k < |epochs[a.epoch].payloads|
    ensures epochs[a.epoch].Fitting() && epochs[a.epoch].AllReady(tx)
    ensures NameOf(epochs, a) == epochs[a.epoch].schema.name
    ensures forall e :: 0 <= e < |epochs| ==> epochs[e].Fitting()
    ensures Stands(rx, epochs, at, NameOf(epochs, a))
    ensures Next(epochs, at, a) && a.k > 0 ==> At(rx, epochs[a.epoch], a.k - 1)
  {
    hide Peers, At, Epoch.Fitting, Epoch.AllReady;
  }

  lemma NextIs(epochs: seq<Epoch>, at: Positions, a: Arrival)
    requires Known(epochs, a)
    ensures a.k == 0 ==> Next(epochs, at, a)
  {
  }

  lemma NotNumbered(rx: Node, epochs: seq<Epoch>, at: Positions, a: Arrival)
    requires forall e :: 0 <= e < |epochs| ==> epochs[e].Fitting()
    requires Known(epochs, a) && Stands(rx, epochs, at, NameOf(epochs, a))
    requires Unmistaken(epochs, at, a) && !Next(epochs, at, a)
    ensures a.k > 0
    ensures NameOf(epochs, a) in rx.stream.lastDecoded ==>
      (a.k - 1) % 65536 != Get(rx.stream.expected, NameOf(epochs, a), 0)
  {
    hide Epoch.Fitting, Epoch.Held;
  }

  lemma ArrivalKeepsSynced(tx: Node, rx: Node, epochs: seq<Epoch>, at: Positions, a: Arrival)
    requires Channel(tx, epochs) && Synced(tx, rx, epochs, at) && Known(epochs, a) && Unmistaken(epochs, at, a)
    ensures Synced(tx, Reception(tx, rx, epochs, a).0, epochs, Move(epochs, at, a))
  {
    hide *;
    var rx1 := Reception(tx, rx, epochs, a).0;
    OneArrives(tx, rx, epochs, at, a);
    SyncedAt(tx, rx, epochs, at, a);
    forall e | 0 <= e < |epochs| ensures Stands(rx1, epochs, Move(epochs, at, a), epochs[e].schema.name) {
      StandsNow(tx, rx, rx1, epochs, at, a, e);
    }
    StillPeers(tx, rx, rx1, NameOf(epochs, a));
    SyncedFrom(tx, rx1, epochs, Move(epochs, at, a));
  }

  lemma StillPeers(tx: Node, rx: Node, rx1: Node, name: string)
    requires Peers(tx, rx) && OnlyMoved(rx, rx1, name)
    ensures Peers(tx, rx1)
  {
    hide Elsewhere;
  }

  lemma SyncedFrom(tx: Node, rx: Node, epochs: seq<Epoch>, at: Positions)
    requires Channel(tx, epochs) && Peers(tx, rx)
    requires forall e :: 0 <= e < |epochs| ==> epochs[e].Fitting()
    requires forall e :: 0 <= e < |epochs| ==> Stands(rx, epochs, at, epochs[e].schema.name)
    ensures Synced(tx, rx, epochs, at)
  {
    hide Stands, Peers, Epoch.Fitting, Epoch.AllReady;
  }

  lemma StandsNow(tx: Node, rx: Node, rx1: Node, epochs: seq<Epoch>, at: Positions, a: Arrival, e: nat)
    requires Channel(tx, epochs) && Synced(tx, rx, epochs, at) && Known(epochs, a) && e < |epochs|
    requires forall f :: 0 <= f < |epochs| ==> epochs[f].Fitting()
    requires OnlyMoved(rx, rx1, NameOf(epochs, a))
    requires Next(epochs, at, a) ==> At(rx1, epochs[a.epoch], a.k)
    requires !Next(epochs, at, a) ==> rx1 == rx
    ensures Stands(rx1, epochs, Move(epochs, at, a), epochs[e].schema.name)
  {
    hide Epoch.Fitting, Epoch.AllReady, Epoch.Held, Peers, Next;
    var name := epochs[e].schema.name;
    assert Stands(rx, epochs, at, name);
    if name != NameOf(epochs, a) { assert Elsewhere(rx, rx1, name); }
  }

  // Whole runs.

  /** The receiver's run: its final state and what every arrival delivered. */
  ghost function Receptions(tx: Node, rx: Node, epochs: seq<Epoch>, arrivals: seq<Arrival>)
    : (Node, seq<(Status, seq<Message>)>)
    requires AllKnown(epochs, arrivals)
    decreases |arrivals|
  {
    if arrivals == [] then (rx, [])
    else
      KnownLater(epochs, arrivals);
      var (rx1, status, messages) := Reception(tx, rx, epochs, arrivals[0]);
      var (last, rest) := Receptions(tx, rx1, epochs, arrivals[1..]);
      (last, [(status, messages)] + rest)
  }

  /** Where the receiver stands after the arrivals. */
  ghost function After(epochs: seq<Epoch>, at: Positions, arrivals: seq<Arrival>): Positions
    requires AllKnown(epochs, arrivals)
    decreases |arrivals|
  {
    if arrivals == [] then at
    else
      KnownLater(epochs, arrivals);
      After(epochs, Move(epochs, at, arrivals[0]), arrivals[1..])
  }

  /**
   * What an arrival does: when it is taken, the payload the sender gave for it is delivered, up to the sign of float
   * zeros and exactly if the epoch so far has no negative zero; otherwise nothing.
   */
  ghost predicate Outcome(e: Epoch, taken: bool, k: nat, outcome: (Status, seq<Message>))
    requires e.Fitting() && k < |e.payloads|
  {
    if !taken then outcome == (DecodeFailed, [])
    else
      && outcome.0 == Status.Ok && |outcome.1| == 1 && outcome.1[0].name == e.schema.name
      && SamePayload(e.schema.fields, outcome.1[0].payload, e.payloads[k])
      && ((forall i :: 0 <= i <= k ==> PlusZeros(e.schema.fields, e.payloads[i])) ==>
            outcome.1[0].payload == e.payloads[k])
  }

  lemma HeldOutcome(tx: Node, e: Epoch, k: nat)
    requires e.Fitting() && e.AllReady(tx) && k < |e.payloads|
    ensures Outcome(e, true, k, (Status.Ok, [Message(e.schema.name, e.Held(k))]))
  {
    e.ReadyAt(tx, k);
    e.HeldIsSent(tx, k);
    hide Sendable, SamePayload, PlusZeros, Epoch.AllReady, Fits, Epoch.Held, Distinct;
    if forall i :: 0 <= i <= k ==> PlusZeros(e.schema.fields, e.payloads[i]) { e.HeldExactly(k); }
  }

  /** Every arrival is accepted exactly when it is next, and delivers what was sent. */
  ghost predicate AllRight(epochs: seq<Epoch>, at: Positions, arrivals: seq<Arrival>,
                           outcomes: seq<(Status, seq<Message>)>)
    requires forall e :: 0 <= e < |epochs| ==> epochs[e].Fitting()
    requires AllKnown(epochs, arrivals)
    decreases |arrivals|
  {
    if arrivals == [] then outcomes == []
    else
      KnownLater(epochs, arrivals);
      var a := arrivals[0];
      && outcomes != [] && Outcome(epochs[a.epoch], Next(epochs, at, a), a.k, outcomes[0])
      && AllRight(epochs, Move(epochs, at, a), arrivals[1..], outcomes[1..])
  }

  /**
   * Epoch safety. Over every sequence of arrivals of packets of any epochs, dropped, repeated, reordered and
   * interleaved at will, of which only next deltas carry the expected number: an arrival is accepted exactly when it is
   * a full packet or the delta next to what was last taken of its schema, and what is accepted is what was sent.
   */
  lemma {:induction false} EpochSafety(tx: Node, rx: Node, epochs: seq<Epoch>, at: Positions, arrivals: seq<Arrival>)
    requires Channel(tx, epochs) && Synced(tx, rx, epochs, at)
    requires AllKnown(epochs, arrivals) && AllUnmistaken(epochs, at, arrivals)
    ensures forall e :: 0 <= e < |epochs| ==> epochs[e].Fitting()
    ensures var (last, outcomes) := Receptions(tx, rx, epochs, arrivals);
      && Synced(tx, last, epochs, After(epochs, at, arrivals))
      && AllRight(epochs, at, arrivals, outcomes)
    decreases |arrivals|
  {
    hide *;
    AllFitting(tx, epochs);
    if arrivals == [] {
      NoArrivals(tx, rx, epochs, at);
    } else {
      var a := arrivals[0];
      KnownLater(epochs, arrivals);
      UnmistakenLater(epochs, at, arrivals);
      ArrivalOutcome(tx, rx, epochs, at, a);
      ArrivalKeepsSynced(tx, rx, epochs, at, a);
      var rx1 := Reception(tx, rx, epochs, a).0;
      EpochSafety(tx, rx1, epochs, Move(epochs, at, a), arrivals[1..]);
      RunLater(tx, rx, epochs, at, arrivals);
    }
  }

  lemma AllFitting(tx: Node, epochs: seq<Epoch>)
    requires Channel(tx, epochs)
    ensures forall e :: 0 <= e < |epochs| ==> epochs[e].Fitting()
  {
    hide Epoch.Fitting, Epoch.AllReady;
  }

  lemma NoArrivals(tx: Node, rx: Node, epochs: seq<Epoch>, at: Positions)
    requires AllKnown(epochs, []) && forall e :: 0 <= e < |epochs| ==> epochs[e].Fitting()
    ensures Receptions(tx, rx, epochs, []) == (rx, []) && After(epochs, at, []) == at && AllRight(epochs, at, [], [])
  {
  }

  lemma UnmistakenLater(epochs: seq<Epoch>, at: Positions, arrivals: seq<Arrival>)
    requires AllKnown(epochs, arrivals) && AllUnmistaken(epochs, at, arrivals) && arrivals != []
    requires Known(epochs, arrivals[0]) && AllKnown(epochs, arrivals[1..])
    ensures Unmistaken(epochs, at, arrivals[0])
    ensures AllUnmistaken(epochs, Move(epochs, at, arrivals[0]), arrivals[1..])
  {
    hide Unmistaken, Move, Known;
  }

  lemma ArrivalOutcome(tx: Node, rx: Node, epochs: seq<Epoch>, at: Positions, a: Arrival)
    requires Channel(tx, epochs) && Synced(tx, rx, epochs, at) && Known(epochs, a) && Unmistaken(epochs, at, a)
    ensures epochs[a.epoch].Fitting()
    ensures var (rx1, status, messages) := Reception(tx, rx, epochs, a);
      Outcome(epochs[a.epoch], Next(epochs, at, a), a.k, (status, messages))
  {
    hide *;
    OneArrives(tx, rx, epochs, at, a);
    SyncedAt(tx, rx, epochs, at, a);
    HeldOutcome(tx, epochs[a.epoch], a.k);
    RejectedOutcome(epochs[a.epoch], a.k);
  }

  lemma RejectedOutcome(e: Epoch, k: nat)
    requires e.Fitting() && k < |e.payloads|
    ensures Outcome(e, false, k, (DecodeFailed, []))
  {
  }

  lemma RunLater(tx: Node, rx: Node, epochs: seq<Epoch>, at: Positions, arrivals: seq<Arrival>)
    requires forall e :: 0 <= e < |epochs| ==> epochs[e].Fitting()
    requires AllKnown(epochs, arrivals) && arrivals != []
    requires Known(epochs, arrivals[0]) && AllKnown(epochs, arrivals[1..])
    ensures var a := arrivals[0];
      var (rx1, status, messages) := Reception(tx, rx, epochs, a);
      var (last, later) := Receptions(tx, rx1, epochs, arrivals[1..]);
      && Receptions(tx, rx, epochs, arrivals) == (last, [(status, messages)] + later)
      && After(epochs, at, arrivals) == After(epochs, Move(epochs, at, a), arrivals[1..])
      && (AllRight(epochs, at, arrivals, [(status, messages)] + later) <==>
            && Outcome(epochs[a.epoch], Next(epochs, at, a), a.k, (status, messages))
            && AllRight(epochs, Move(epochs, at, a), arrivals[1..], later))
  {
    hide Reception, Outcome, Move, Next, Epoch.Fitting;
    var a := arrivals[0];
    var (rx1, status, messages) := Reception(tx, rx, epochs, a);
    var later := Receptions(tx, rx1, epochs, arrivals[1..]).1;
    assert ([(status, messages)] + later)[1..] == later;
  }

  // When nothing is mistaken.

  /** A delta arrives while the last full packet taken of its schema, if any, is that of its own epoch. */
  predicate InSeason(epochs: seq<Epoch>, at: Positions, a: Arrival)
    requires Known(epochs, a)
  {
    a.k > 0 && NameOf(epochs, a) in at ==> at[NameOf(epochs, a)].epoch == a.epoch
  }

  ghost predicate AllInSeason(epochs: seq<Epoch>, at: Positions, arrivals: seq<Arrival>)
    requires AllKnown(epochs, arrivals)
    decreases |arrivals|
  {
    arrivals == [] ||
    (KnownLater(epochs, arrivals);
     InSeason(epochs, at, arrivals[0]) && AllInSeason(epochs, Move(epochs, at, arrivals[0]), arrivals[1..]))
  }

  /** At most 65535 deltas, so that no two of one epoch have the same number. */
  predicate Short(epochs: seq<Epoch>)
  {
    forall e :: 0 <= e < |epochs| ==> |epochs[e].payloads| <= 65536
  }

  predicate Placed(epochs: seq<Epoch>, at: Positions)
  {
    forall name :: name in at ==> Known(epochs, at[name]) && NameOf(epochs, at[name]) == name
  }

  /** Short epochs whose deltas arrive in season are never mistaken, however else they are disturbed. */
  lemma {:induction false} InSeasonIsUnmistaken(epochs: seq<Epoch>, at: Positions, arrivals: seq<Arrival>)
    requires Short(epochs) && Placed(epochs, at) && AllKnown(epochs, arrivals) && AllInSeason(epochs, at, arrivals)
    ensures AllUnmistaken(epochs, at, arrivals)
    decreases |arrivals|
  {
    if arrivals != [] {
      KnownLater(epochs, arrivals);
      InSeasonIsUnmistaken(epochs, Move(epochs, at, arrivals[0]), arrivals[1..]);
    }
  }

  /** With one epoch of each schema everything is in season. */
  lemma {:induction false} OneEpochEach(epochs: seq<Epoch>, at: Positions, arrivals: seq<Arrival>)
    requires forall e, f :: 0 <= e < f < |epochs| ==> epochs[e].schema.name != epochs[f].schema.name
    requires Placed(epochs, at) && AllKnown(epochs, arrivals)
    ensures AllInSeason(epochs, at, arrivals)
    decreases |arrivals|
  {
    if arrivals != [] {
      KnownLater(epochs, arrivals);
      OneEpochEach(epochs, Move(epochs, at, arrivals[0]), arrivals[1..]);
    }
  }

  // What a mistaken arrival does.

  lemma SameSchema(tx: Node, e: Epoch, f: Epoch)
    requires e.Fitting() && e.AllReady(tx) && f.Fitting() && f.AllReady(tx) && e.schema.name == f.schema.name
    ensures e.schema == f.schema
  {
    hide Epoch.Held, Sendable, ClearOfMarker, Fits;
    assert Ready(tx, e.schema, e.payloads[0]) && Ready(tx, f.schema, f.payloads[0]);
  }

  /** A delta that carries the expected number is accepted, next or not. */
  lemma NumberedIsAccepted(tx: Node, rx: Node, epochs: seq<Epoch>, at: Positions, a: Arrival)
    requires Channel(tx, epochs) && Synced(tx, rx, epochs, at) && Known(epochs, a) && !tx.optimizer
    requires Numbered(epochs, at, a)
    ensures Reception(tx, rx, epochs, a).1 == Status.Ok
  {
    hide *;
    SyncedAt(tx, rx, epochs, at, a);
    NumberedParts(tx, rx, epochs, at, a);
    PeersParts(tx, rx);
    var held := at[NameOf(epochs, a)];
    SameSchema(tx, epochs[held.epoch], epochs[a.epoch]);
    Unmarked(rx, Left(epochs[held.epoch], held.k, epochs[a.epoch], a.k));
    ForeignDelta(tx, rx, epochs[held.epoch], held.k, epochs[a.epoch], a.k);
    ReceptionIs(tx, rx, epochs, a);
  }

  lemma NumberedParts(tx: Node, rx: Node, epochs: seq<Epoch>, at: Positions, a: Arrival)
    requires Channel(tx, epochs) && Synced(tx, rx, epochs, at) && Known(epochs, a) && Numbered(epochs, at, a)
    ensures a.k > 0 && NameOf(epochs, a) in at && (a.k - 1) % 65536 == at[NameOf(epochs, a)].k % 65536
    ensures var held := at[NameOf(epochs, a)];
      && held.epoch < |epochs| && held.k < |epochs[held.epoch].payloads|
      && epochs[held.epoch].Fitting() && epochs[held.epoch].AllReady(tx)
      && epochs[held.epoch].schema.name == epochs[a.epoch].schema.name && At(rx, epochs[held.epoch], held.k)
  {
    hide Peers, At, Epoch.Fitting, Epoch.AllReady;
    assert Stands(rx, epochs, at, epochs[a.epoch].schema.name);
  }

  lemma Unmarked(rx: Node, values: seq<FieldValue>)
    requires !rx.optimizer
    ensures ClearOfMarker(rx, values)
  {
  }

  /** The condition of the safety theorem is exact: without it something is accepted out of turn. */
  lemma {:induction false} SafetyExactly(tx: Node, rx: Node, epochs: seq<Epoch>, at: Positions, arrivals: seq<Arrival>)
    requires Channel(tx, epochs) && Synced(tx, rx, epochs, at) && AllKnown(epochs, arrivals) && !tx.optimizer
    ensures forall e :: 0 <= e < |epochs| ==> epochs[e].Fitting()
    ensures AllUnmistaken(epochs, at, arrivals)
      <==> AllRight(epochs, at, arrivals, Receptions(tx, rx, epochs, arrivals).1)
    decreases |arrivals|
  {
    hide *;
    AllFitting(tx, epochs);
    if arrivals == [] {
      NoArrivals(tx, rx, epochs, at);
      NothingMistaken(epochs, at);
    } else {
      var a := arrivals[0];
      KnownLater(epochs, arrivals);
      MistakenFirst(epochs, at, arrivals);
      RunLater(tx, rx, epochs, at, arrivals);
      var rx1 := Reception(tx, rx, epochs, a).0;
      if Unmistaken(epochs, at, a) {
        ArrivalOutcome(tx, rx, epochs, at, a);
        ArrivalKeepsSynced(tx, rx, epochs, at, a);
        SafetyExactly(tx, rx1, epochs, Move(epochs, at, a), arrivals[1..]);
      } else {
        NumberedIsAccepted(tx, rx, epochs, at, a);
        AcceptedOutOfTurn(epochs[a.epoch], a.k, Reception(tx, rx, epochs, a));
      }
    }
  }

  lemma NothingMistaken(epochs: seq<Epoch>, at: Positions)
    requires AllKnown(epochs, [])
    ensures AllUnmistaken(epochs, at, [])
  {
  }

  lemma MistakenFirst(epochs: seq<Epoch>, at: Positions, arrivals: seq<Arrival>)
    requires AllKnown(epochs, arrivals) && arrivals != []
    requires Known(epochs, arrivals[0]) && AllKnown(epochs, arrivals[1..])
    ensures AllUnmistaken(epochs, at, arrivals) <==>
      Unmistaken(epochs, at, arrivals[0]) && AllUnmistaken(epochs, Move(epochs, at, arrivals[0]), arrivals[1..])
    ensures !Unmistaken(epochs, at, arrivals[0]) ==>
      Numbered(epochs, at, arrivals[0]) && !Next(epochs, at, arrivals[0])
  {
    hide Numbered, Next, Move, Known;
  }

  lemma AcceptedOutOfTurn(e: Epoch, k: nat, reception: (Node, Status, seq<Message>))
    requires e.Fitting() && k < |e.payloads| && reception.1 == Status.Ok
    ensures !Outcome(e, false, k, (reception.1, reception.2))
  {
  }

  // Two inputs that break it.

  /** A receiver that has decoded nothing stands nowhere. */
  lemma FreshIsSynced(tx: Node, rx: Node, epochs: seq<Epoch>)
    requires Channel(tx, epochs) && Peers(tx, rx) && rx.stream.lastDecoded == map[]
    ensures Synced(tx, rx, epochs, map[])
  {
    hide Peers, At, Epoch.Fitting, Epoch.AllReady;
  }

  function Two(x: int, y: int): Payload { map["x" := Number(U8, x), "y" := Number(U8, y)] }

  const TWO_FIELDS := SchemaDef("t", 1, [FieldDef("x", U8, false, 0), FieldDef("y", U8, false, 0)])

  predicate Bit(x: int) { x == 0 || x == 1 }

  lemma TwoFits(x: int, y: int)
    requires Bit(x) && Bit(y)
    ensures Fits(TWO_FIELDS.fields, Two(x, y)) && Sendable(TWO_FIELDS.fields, Two(x, y))
    ensures PlusZeros(TWO_FIELDS.fields, Two(x, y))
    ensures Ordered(TWO_FIELDS.fields, Two(x, y)) == [Number(U8, x), Number(U8, y)]
  {
    hide *;
    TwoKeys(x, y);
    TwoValues(x, y);
    TwoCarried([Number(U8, x), Number(U8, y)], x, y);
    SendableFrom(TWO_FIELDS.fields, Two(x, y));
  }

  lemma TwoKeys(x: int, y: int)
    ensures Fits(TWO_FIELDS.fields, Two(x, y))
  {
    var fields := TWO_FIELDS.fields;
    assert fields[0].name == "x" && fields[1].name == "y";
    assert Names(fields) == {"x", "y"};
  }

  lemma TwoValues(x: int, y: int)
    requires Fits(TWO_FIELDS.fields, Two(x, y))
    ensures Ordered(TWO_FIELDS.fields, Two(x, y)) == [Number(U8, x), Number(U8, y)]
    ensures PlusZeros(TWO_FIELDS.fields, Two(x, y))
  {
    var fields := TWO_FIELDS.fields;
    assert fields[0].name == "x" && fields[1].name == "y" && fields[0].name != fields[1].name;
    hide Fits;
  }

  lemma TwoCarried(values: seq<FieldValue>, x: int, y: int)
    requires Bit(x) && Bit(y) && values == [Number(U8, x), Number(U8, y)]
    ensures AllCarried(TWO_FIELDS.fields, values) && Validated(TWO_FIELDS.fields, values)
  {
  }

  lemma SendableFrom(fields: seq<FieldDef>, p: Payload)
    requires Fits(fields, p) && AllCarried(fields, Ordered(fields, p)) && Validated(fields, Ordered(fields, p))
    ensures Sendable(fields, p)
  {
    hide AllCarried, Validated;
  }

  lemma BitsClear(node: Node, x: int, y: int)
    requires Bit(x)
    ensures ClearOfMarker(node, [Number(U8, x), Number(U8, y)])
  {
    var values := [Number(U8, x), Number(U8, y)];
    PlainStarts(values);
    assert LE(x, 1) == [x % 256] + LE(x / 256, 0);
    hide PlainValues, LE;
  }

  /** The node has the schema of these examples registered. */
  ghost predicate Registered(tx: Node)
  {
    tx.registry.Valid() && tx.registry.FindByName("t") == Some(TWO_FIELDS)
  }

  lemma TwoReady(tx: Node, x: int, y: int)
    requires Registered(tx) && Bit(x) && Bit(y)
    ensures Ready(tx, TWO_FIELDS, Two(x, y))
  {
    TwoFits(x, y);
    BitsClear(tx, x, y);
    hide ClearOfMarker, Sendable, Registry.Valid;
  }

  /** The epochs of these examples change the two bits only. */
  predicate Bits(e: Epoch)
  {
    && e.schema == TWO_FIELDS && e.payloads != []
    && forall k :: 0 <= k < |e.payloads| ==> BitsOf(e.payloads[k])
  }

  predicate BitsOf(p: Payload)
  {
    p == Two(0, 0) || p == Two(0, 1) || p == Two(1, 0) || p == Two(1, 1)
  }

  lemma BitsFit(p: Payload)
    requires BitsOf(p)
    ensures Fits(TWO_FIELDS.fields, p) && PlusZeros(TWO_FIELDS.fields, p)
  {
    hide Fits, PlusZeros, Two, Sendable;
    TwoFits(0, 0);
    TwoFits(0, 1);
    TwoFits(1, 0);
    TwoFits(1, 1);
  }

  lemma BitsAreReady(tx: Node, p: Payload)
    requires Registered(tx) && BitsOf(p)
    ensures Ready(tx, TWO_FIELDS, p)
  {
    hide Ready, Two, Registered;
    TwoReady(tx, 0, 0);
    TwoReady(tx, 0, 1);
    TwoReady(tx, 1, 0);
    TwoReady(tx, 1, 1);
  }

  lemma BitsReady(tx: Node, e: Epoch)
    requires Registered(tx) && Bits(e)
    ensures e.Fitting() && e.AllReady(tx)
  {
    hide Registered, BitsOf, Fits, Ready;
    forall k | 0 <= k < |e.payloads|
      ensures Fits(e.schema.fields, e.payloads[k]) && Ready(tx, e.schema, e.payloads[k])
    {
      BitsFit(e.payloads[k]);
      BitsAreReady(tx, e.payloads[k]);
    }
  }

  lemma BitsPlus(e: Epoch, k: nat)
    requires Bits(e) && k < |e.payloads|
    ensures forall i :: 0 <= i <= k ==> PlusZeros(e.schema.fields, e.payloads[i])
    ensures e.schema == TWO_FIELDS && Distinct(e.schema.fields)
  {
    hide BitsOf, Fits, PlusZeros;
    forall i | 0 <= i <= k ensures PlusZeros(e.schema.fields, e.payloads[i]) { BitsFit(e.payloads[i]); }
  }

  lemma BitsHeld(tx: Node, e: Epoch, k: nat)
    requires Registered(tx) && Bits(e) && k < |e.payloads|
    ensures e.Fitting() && e.AllReady(tx) && e.Held(k) == e.payloads[k]
  {
    hide *;
    BitsReady(tx, e);
    BitsPlus(e, k);
    e.HeldExactly(k);
  }

  /** A delta that sets `x` alone leaves the `y` of the payload held. */
  lemma SetsX(x: int, y: int, z: int)
    requires Bit(x) && Bit(y) && Bit(z)
    ensures Fits(TWO_FIELDS.fields, Two(x, y)) && Fits(TWO_FIELDS.fields, Two(0, z))
    ensures Fits(TWO_FIELDS.fields, Two(1, z))
    ensures Rebase(TWO_FIELDS.fields, Two(x, y), Two(0, z), Two(1, z)) == [Number(U8, 1), Number(U8, y)]
    ensures Named(TWO_FIELDS.fields, [Number(U8, 1), Number(U8, y)]) == Two(1, y)
  {
    hide Fits, Sendable, PlusZeros, Named, Changed;
    TwoFits(x, y);
    TwoFits(0, z);
    TwoFits(1, z);
    TwoFits(1, y);
    NamedOfOrdered(TWO_FIELDS.fields, Two(1, y));
    XChanges(z);
    XRebased(x, y, z);
  }

  lemma XRebased(x: int, y: int, z: int)
    requires Fits(TWO_FIELDS.fields, Two(x, y)) && Fits(TWO_FIELDS.fields, Two(0, z))
    requires Fits(TWO_FIELDS.fields, Two(1, z))
    requires Changed(Two(0, z), Two(1, z), "x") && !Changed(Two(0, z), Two(1, z), "y")
    ensures Rebase(TWO_FIELDS.fields, Two(x, y), Two(0, z), Two(1, z)) == [Number(U8, 1), Number(U8, y)]
  {
    hide Fits, Changed;
    var fields := TWO_FIELDS.fields;
    assert fields[0].name == "x" && fields[1].name == "y";
  }

  lemma XChanges(z: int)
    ensures Changed(Two(0, z), Two(1, z), "x") && !Changed(Two(0, z), Two(1, z), "y")
  {
  }

  /**
   * A receiver whose last packet has another `y` takes such a delta and delivers a payload that was not sent for it.
   */
  lemma Confused(tx: Node, rx: Node, epochs: seq<Epoch>, at: Positions, a: Arrival, x: int, y: int, z: int)
    requires Channel(tx, epochs) && Synced(tx, rx, epochs, at) && Known(epochs, a) && Numbered(epochs, at, a)
    requires Registered(tx) && forall e :: 0 <= e < |epochs| ==> Bits(epochs[e])
    requires Bit(x) && Bit(y) && Bit(z)
    requires epochs[a.epoch].payloads[a.k - 1] == Two(0, z) && epochs[a.epoch].payloads[a.k] == Two(1, z)
    requires var held := at[NameOf(epochs, a)];
      Known(epochs, held) && epochs[held.epoch].payloads[held.k] == Two(x, y)
    ensures Delivers(Reception(tx, rx, epochs, a), Message("t", Two(1, y)))
  {
    hide *;
    SyncedAt(tx, rx, epochs, at, a);
    NumberedParts(tx, rx, epochs, at, a);
    PeersParts(tx, rx);
    var held := at[NameOf(epochs, a)];
    var e, f := epochs[held.epoch], epochs[a.epoch];
    SameSchema(tx, e, f);
    BitsHeld(tx, e, held.k);
    BitsSchema(f);
    LeftIs(e, held.k, f, a.k);
    SetsX(x, y, z);
    OneIsBit();
    BitsClear(rx, 1, y);
    ForeignDelta(tx, rx, e, held.k, f, a.k);
    ReceptionIs(tx, rx, epochs, a);
    DeliversIs(Reception(tx, rx, epochs, a), Message("t", Two(1, y)));
  }

  lemma DeliversIs(reception: (Node, Status, seq<Message>), m: Message)
    requires reception.1 == Status.Ok && reception.2 == [m]
    ensures Delivers(reception, m)
  {
  }

  lemma OneIsBit()
    ensures Bit(0) && Bit(1)
  {
  }

  lemma BitsSchema(e: Epoch)
    requires Bits(e)
    ensures e.schema == TWO_FIELDS && e.schema.name == "t"
  {
    hide BitsOf;
  }

  /** The packets of the first epoch in order. */
  function InOrder(first: nat, count: nat): (arrivals: seq<Arrival>)
    ensures |arrivals| == count
    ensures forall i :: 0 <= i < count ==> arrivals[i].epoch == 0 && first <= arrivals[i].k < first + count
    decreases count
  {
    if count == 0 then [] else [Arrival(0, first)] + InOrder(first + 1, count - 1)
  }

  /** In order nothing is mistaken, however long the epoch, and the receiver ends at the last packet. */
  lemma {:induction false} InOrderUnmistaken(e: Epoch, at: Positions, first: nat, count: nat)
    requires first + count == |e.payloads|
    requires first > 0 ==> e.schema.name in at && at[e.schema.name] == Arrival(0, first - 1)
    ensures AllKnown([e], InOrder(first, count)) && AllUnmistaken([e], at, InOrder(first, count))
    ensures After([e], at, InOrder(first, count))
      == if count == 0 then at else at[e.schema.name := Arrival(0, |e.payloads| - 1)]
    decreases count
  {
    hide *;
    InOrderKnown(e, first, count);
    if count == 0 {
      NoneInOrder(e, at, first);
    } else {
      var a := Arrival(0, first);
      InOrderParts(first, count);
      KnownLater([e], InOrder(first, count));
      NextInOrder(e, at, a);
      InOrderUnmistaken(e, Move([e], at, a), first + 1, count - 1);
      UnmistakenCons(e, at, InOrder(first, count));
    }
  }

  lemma InOrderKnown(e: Epoch, first: nat, count: nat)
    requires first + count == |e.payloads|
    ensures AllKnown([e], InOrder(first, count))
  {
    hide InOrder;
  }

  lemma NoneInOrder(e: Epoch, at: Positions, first: nat)
    requires AllKnown([e], InOrder(first, 0))
    ensures AllUnmistaken([e], at, InOrder(first, 0)) && After([e], at, InOrder(first, 0)) == at
  {
  }

  lemma InOrderParts(first: nat, count: nat)
    requires count > 0
    ensures InOrder(first, count) != [] && InOrder(first, count)[0] == Arrival(0, first)
    ensures InOrder(first, count)[1..] == InOrder(first + 1, count - 1)
  {
  }

  lemma NextInOrder(e: Epoch, at: Positions, a: Arrival)
    requires Known([e], a) && a.epoch == 0
    requires a.k > 0 ==> e.schema.name in at && at[e.schema.name] == Arrival(0, a.k - 1)
    ensures Unmistaken([e], at, a) && Move([e], at, a) == at[e.schema.name := a]
  {
  }

  lemma UnmistakenCons(e: Epoch, at: Positions, arrivals: seq<Arrival>)
    requires AllKnown([e], arrivals) && arrivals != [] && Known([e], arrivals[0]) && AllKnown([e], arrivals[1..])
    requires Unmistaken([e], at, arrivals[0]) && AllUnmistaken([e], Move([e], at, arrivals[0]), arrivals[1..])
    ensures AllUnmistaken([e], at, arrivals)
    ensures After([e], at, arrivals) == After([e], Move([e], at, arrivals[0]), arrivals[1..])
  {
    hide Unmistaken, Move, Known;
  }

  function LongEpoch(): (e: Epoch)
    ensures |e.payloads| == 65537 && Bits(e)
    ensures e.payloads[0] == Two(0, 0) && e.payloads[1] == Two(1, 0) && e.payloads[65536] == Two(1, 1)
  {
    Epoch(TWO_FIELDS, seq(65537, k => if k == 0 then Two(0, 0) else if k == 1 then Two(1, 0) else Two(1, 1)))
  }

  /** All packets of the epoch arrive in order, each is right, and then one of them arrives again and delivers this. */
  ghost predicate TakesAgain(tx: Node, rx: Node, e: Epoch, again: Arrival, delivered: Payload)
  {
    var epochs, run := [e], InOrder(0, |e.payloads|);
    && e.Fitting() && AllKnown(epochs, run) && Known(epochs, again)
    && AllRight(epochs, map[], run, Receptions(tx, rx, epochs, run).1)
    && Delivers(Reception(tx, Receptions(tx, rx, epochs, run).0, epochs, again), Message(e.schema.name, delivered))
  }

  predicate Delivers(reception: (Node, Status, seq<Message>), m: Message)
  {
    reception.1 == Status.Ok && reception.2 == [m]
  }

  /**
   * With 65536 deltas in an epoch the sequence numbers wrap: a fresh receiver that took them all, in order, accepts the
   * first one again and delivers a payload that the sender did not give for it.
   */
  lemma LongerEpochsConfuse(tx: Node, rx: Node)
    requires Peers(tx, rx) && Registered(tx) && rx.stream.lastDecoded == map[]
    ensures TakesAgain(tx, rx, LongEpoch(), Arrival(0, 1), Two(1, 1)) && LongEpoch().payloads[1] != Two(1, 1)
  {
    hide *;
    var e := LongEpoch();
    BitsReady(tx, e);
    BitsSchema(e);
    LongRun(tx, rx, e);
    TwoDiffer(1);
  }

  lemma LongRun(tx: Node, rx: Node, e: Epoch)
    requires Peers(tx, rx) && Registered(tx) && rx.stream.lastDecoded == map[]
    requires Bits(e) && e.Fitting() && e.AllReady(tx) && |e.payloads| == 65537
    requires e.payloads[0] == Two(0, 0) && e.payloads[1] == Two(1, 0) && e.payloads[65536] == Two(1, 1)
    ensures TakesAgain(tx, rx, e, Arrival(0, 1), Two(1, 1))
  {
    hide *;
    var run, again := InOrder(0, |e.payloads|), Arrival(0, 1);
    var at: Positions := map["t" := Arrival(0, 65536)];
    OneIsBit();
    BitsSchema(e);
    LongChannel(tx, e);
    FreshIsSynced(tx, rx, [e]);
    InOrderUnmistaken(e, map[], 0, |e.payloads|);
    EpochSafety(tx, rx, [e], map[], run);
    Wrapped(e, at);
    var last := Receptions(tx, rx, [e], run).0;
    Confused(tx, last, [e], at, again, 1, 1, 0);
    TakenAgain(tx, rx, e, last, again, Two(1, 1));
  }

  lemma TakenAgain(tx: Node, rx: Node, e: Epoch, last: Node, again: Arrival, delivered: Payload)
    requires e.Fitting() && AllKnown([e], InOrder(0, |e.payloads|)) && Known([e], again)
    requires AllRight([e], map[], InOrder(0, |e.payloads|), Receptions(tx, rx, [e], InOrder(0, |e.payloads|)).1)
    requires last == Receptions(tx, rx, [e], InOrder(0, |e.payloads|)).0
    requires Delivers(Reception(tx, last, [e], again), Message(e.schema.name, delivered))
    ensures TakesAgain(tx, rx, e, again, delivered)
  {
    hide AllRight, Receptions, Reception, InOrder, Epoch.Fitting, AllKnown, Known;
  }

  lemma TwoDiffer(x: int)
    ensures Two(x, 0) != Two(x, 1)
  {
    assert Two(x, 0)["y"] != Two(x, 1)["y"];
  }

  lemma LongChannel(tx: Node, e: Epoch)
    requires e.Fitting() && e.AllReady(tx)
    ensures Channel(tx, [e]) && forall i :: 0 <= i < |[e]| ==> [e][i] == e
  {
    hide Epoch.Fitting, Epoch.AllReady;
  }

  lemma Wrapped(e: Epoch, at: Positions)
    requires |e.payloads| == 65537 && e.schema.name == "t" && at == map["t" := Arrival(0, 65536)]
    ensures Known([e], Arrival(0, 1)) && Known([e], Arrival(0, 65536)) && NameOf([e], Arrival(0, 1)) == "t"
    ensures Numbered([e], at, Arrival(0, 1))
  {
  }

  /**
   * One lost full packet is enough: the receiver takes the first delta of the epoch it missed over the payload it
   * still holds, and delivers one that was never sent.
   */
  lemma LostFullPacketConfuses(tx: Node, rx: Node)
    requires Peers(tx, rx) && Registered(tx) && rx.stream.lastDecoded == map[]
    ensures var first, second := Epoch(TWO_FIELDS, [Two(0, 0)]), Epoch(TWO_FIELDS, [Two(0, 1), Two(1, 1)]);
      var epochs := [first, second];
      && Known(epochs, Arrival(0, 0)) && Known(epochs, Arrival(1, 1))
      && Delivers(Reception(tx, Reception(tx, rx, epochs, Arrival(0, 0)).0, epochs, Arrival(1, 1)),
                  Message("t", Two(1, 0)))
      && Two(1, 0) != second.payloads[1]
  {
    hide *;
    var first, second := Epoch(TWO_FIELDS, [Two(0, 0)]), Epoch(TWO_FIELDS, [Two(0, 1), Two(1, 1)]);
    var epochs := [first, second];
    var at: Positions := map["t" := Arrival(0, 0)];
    ShortEpochs(first, second, at);
    OneIsBit();
    BitsReady(tx, first);
    BitsReady(tx, second);
    TwoEpochs(tx, first, second);
    FreshIsSynced(tx, rx, epochs);
    ArrivalKeepsSynced(tx, rx, epochs, map[], Arrival(0, 0));
    Confused(tx, Reception(tx, rx, epochs, Arrival(0, 0)).0, epochs, at, Arrival(1, 1), 0, 0, 1);
    TwoDiffer(1);
  }

  lemma ShortEpochs(first: Epoch, second: Epoch, at: Positions)
    requires first == Epoch(TWO_FIELDS, [Two(0, 0)]) && second == Epoch(TWO_FIELDS, [Two(0, 1), Two(1, 1)])
    requires at == map["t" := Arrival(0, 0)]
    ensures Bits(first) && Bits(second)
    ensures var epochs := [first, second];
      && Known(epochs, Arrival(0, 0)) && Known(epochs, Arrival(1, 1)) && NameOf(epochs, Arrival(1, 1)) == "t"
      && Unmistaken(epochs, map[], Arrival(0, 0)) && Numbered(epochs, at, Arrival(1, 1))
      && Move(epochs, map[], Arrival(0, 0)) == at
  {
    hide Two;
  }

  lemma TwoEpochs(tx: Node, first: Epoch, second: Epoch)
    requires first.Fitting() && first.AllReady(tx) && second.Fitting() && second.AllReady(tx)
    ensures Channel(tx, [first, second])
  {
    hide Epoch.Fitting, Epoch.AllReady;
  }
}
