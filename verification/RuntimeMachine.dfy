/** The runtime as the object it is: a registry, a dictionary and a stream optimizer that its methods update. */
module RuntimeMachine {
  import opened Wire
  import opened Schema
  import opened Registry
  import opened Dictionary
  import opened Core
  import opened Codec
  import opened GeneralCodec
  import opened Corruption
  import opened Crc
  import opened Delta
  import opened StreamOptimizer
  import opened StreamMachine
  import opened Runtime
  import opened Resync
  import opened Synchronizer
  import Recovery
  import Omission = RuntimeOptimizer

  class SchemaRuntime {
    var registry: Registry
    var optimizer: bool
    var omission: bool
    var crc: bool
    const dictionary: AdaptiveDictionary
    const stream: Optimizer

    function State(): Node
      reads this, dictionary, stream
    {
      Node(registry, optimizer, omission, crc, dictionary.State(), stream.State())
    }

    ghost predicate Valid()
      reads this
    {
      registry.Valid()
    }

    constructor ()
      ensures Valid() && fresh(dictionary) && fresh(stream)
      ensures State() == Node(NoSchemas(), false, true, false,
        Empty(Config(false, true, 256)), Fresh(StreamConfig(false, true, true, true, false, 100, 8, 4)))
    {
      registry, optimizer, omission, crc := NoSchemas(), false, true, false;
      dictionary := new AdaptiveDictionary();
      stream := new Optimizer();
    }

    method RegisterSchema(schema: SchemaDef) returns (r: Registration)
      requires Valid()
      modifies this
      ensures Valid()
      ensures (registry, r) == old(registry).Register(schema)
      ensures State() == old(State()).(registry := registry)
    {
      registry.RegisterKeeps(schema);
      var (next, outcome) := registry.Register(schema);
      registry := next;
      return outcome;
    }

    method Encode(schema: SchemaDef, values: seq<FieldValue>) returns (status: Status, packet: Packet)
      modifies dictionary
      ensures (State(), status, packet) == old(State()).Encode(schema, values)
    {
      hide EncodeValues, Validated;
      var valid := ValidatePayloadValues(schema, values);
      if !valid { return SchemaMismatch, []; }
      packet := EncodeOrdered(schema, values, dictionary);
      if !optimizer || !omission { return Status.Ok, packet; }
      var q := Omission.OptimizePacket(schema, packet);
      if !q.ok { return DecodeFailed, []; }
      return Status.Ok, q.packet;
    }

    method Send(name: string, payload: Payload) returns (status: Status, packet: Packet)
      requires Valid()
      modifies dictionary
      ensures (State(), status, packet) == old(State()).Send(name, payload)
    {
      hide Node.Encode;
      if name !in registry.byName { return SchemaNotFound, []; }
      var schema := registry.byName[name];
      var mapped := MapNamedToOrdered(schema, payload);
      if !mapped.Ok? { return MappingFailed, []; }
      status, packet := Encode(schema, mapped.value);
    }

    /** The CRC envelope around an emission, when it is enabled. */
    method Enclose(p: Packet) returns (q: Packet)
      ensures q == if crc then Wrap(p) else p
    {
      if !crc { return p; }
      var sum := Crc32Range(p);
      return [ENVELOPE] + CrcBytes(sum) + p;
    }

    method SendStream(name: string, payload: Payload, lowChange: bool) returns (status: Status, packet: Option<Packet>)
      requires Valid()
      modifies dictionary, stream
      ensures (State(), status, packet) == old(State()).SendStream(name, payload, lowChange)
    {
      hide Node.Send, Stream.Outgoing, Wrap;
      var base;
      SentIsKnown(State(), name, payload);
      status, base := Send(name, payload);
      if status != Status.Ok { return status, None; }
      var e := stream.OptimizeOutgoing(registry.byName[name], payload, base, lowChange);
      if !e.emitNow { return Status.Ok, None; }
      var wire := Enclose(e.packet);
      return Status.Ok, Some(wire);
    }

    method ResetDictionary()
      modifies dictionary
      ensures State() == old(State()).ResetDictionary()
    {
      dictionary.Reset();
    }

    /** The control packet; the sender's own dictionary is reset by a separate call. */
    method SendDictionaryReset() returns (packet: Packet)
      ensures packet == RESET_PACKET
    {
      return [CONTROL, 0x00];
    }

    method FlushStream() returns (packet: Option<Packet>)
      modifies stream
      ensures (State(), packet) == old(State()).FlushStream()
    {
      hide Wrap, BuildBatch;
      var batch := stream.FlushBatched();
      if batch.None? { return None; }
      var wire := Enclose(batch.value);
      return Some(wire);
    }

    /** The packet to decode, rebuilt when it is optimized. */
    method PlainPacket(schema: SchemaDef, p: Packet) returns (plain: Option<Packet>)
      ensures plain == State().Plain(schema, p)
    {
      if !optimizer || !(|p| >= 3 && p[2] == Omission.MARKER) { return Some(p); }
      var r := Omission.DeoptimizePacket(schema, p);
      return if r.ok then Some(r.packet) else None;
    }

    method ReceiveWithSchema(schema: SchemaDef, p: Packet) returns (status: Status, payload: Payload)
      modifies dictionary
      ensures (State(), status, payload) == old(State()).ReceiveWithSchema(schema, p)
    {
      hide Node.Plain, Check, DecodeValues, Named, LayoutOf;
      var plain := PlainPacket(schema, p);
      if plain.None? { return DecodeFailed, map[]; }
      var layout := BuildPacketLayout(schema);
      var verdict := CheckKeydropPacket(plain.value, schema, layout);
      if verdict.Rejected? { return CorruptionDetected, map[]; }
      LongEnough(schema, plain.value);
      var reader := new PacketReader(plain.value);
      var _ := reader.ReadWord();
      assert reader.Rest() == plain.value[2..];
      var ending, values := DecodeOrdered(schema.fields, reader, dictionary);
      if !ending.Complete? { return DecodeFailed, map[]; }
      var valid := ValidatePayloadValues(schema, values);
      if !valid { return SchemaMismatch, map[]; }
      var mapped := MapOrderedToNamed(schema, values);
      var empty := reader.AtEnd();
      if !empty { return CorruptionDetected, map[]; }
      return Status.Ok, mapped.value;
    }

    method Receive(p: Packet) returns (status: Status, m: Message)
      requires Valid()
      modifies dictionary
      ensures (State(), status, m) == old(State()).Receive(p)
    {
      hide Node.ReceiveWithSchema;
      if |p| < 2 { return PacketTooSmall, Message("", map[]); }
      var schema := registry.FindById(p[0] as int + 256 * p[1] as int);
      if schema.None? { return SchemaNotFound, Message("", map[]); }
      registry.FoundIsRegistered(Word(p));
      var payload;
      status, payload := ReceiveWithSchema(schema.value, p);
      return status, Message(schema.value.name, payload);
    }

    /** The loop over the packets of one envelope. */
    method ReceiveEach(packets: seq<Packet>) returns (status: Status, messages: seq<Message>)
      requires Valid()
      modifies dictionary, stream
      ensures (State(), status, messages) == old(State()).ReceiveEach(packets)
    {
      hide Node.ReceiveEach, Node.Receive, EachLeft, Stream.RecordDecoded, AdaptiveDictionary.State, Optimizer.State;
      ghost var whole := State().ReceiveEach(packets);
      messages := [];
      EachEnds(State(), packets, [], whole);
      for i := 0 to |packets|
        invariant Valid()
        invariant EachLeft(State(), packets, i, messages, whole)
      {
        EachStep(State(), packets, i, messages, whole);
        var one, m := Receive(packets[i]);
        if one != Status.Ok { return one, messages; }
        ghost var after := State();
        stream.RecordDecoded(m.name, m.payload);
        assert State() == after.(stream := after.stream.RecordDecoded(m.name, m.payload));
        messages := messages + [m];
      }
      EachEnds(State(), packets, messages, whole);
      return Status.Ok, messages;
    }

    method ReceiveDelta(p: Packet) returns (status: Status, messages: seq<Message>)
      requires Valid() && p != []
      modifies dictionary, stream
      ensures (State(), status, messages) == old(State()).ReceiveDelta(p)
    {
      hide Node.Receive, Stream.Expand;
      if |p| < 6 { return DecodeFailed, []; }
      var schema := registry.FindById(Word(p[1..]));
      if schema.None? { return SchemaNotFound, []; }
      var r := stream.Expand(schema.value, p);
      if r.Refused? { return DecodeFailed, []; }
      if r.Exception? { return Status.Threw, []; }
      var m;
      status, m := Receive(r.full);
      if status != Status.Ok { return status, []; }
      stream.RecordDecodedDelta(m.name, m.payload);
      return Status.Ok, [m];
    }

    method ReceiveOpened(p: Packet) returns (status: Status, messages: seq<Message>)
      requires Valid()
      modifies dictionary, stream
      ensures (State(), status, messages) == old(State()).ReceiveOpened(p)
    {
      hide Node.ReceiveDelta, Node.ReceiveEach, ExpandIncoming;
      if p == [] { return DecodeFailed, []; }
      if p[0] == CONTROL {
        dictionary.Reset();
        return Status.Ok, [];
      }
      if p[0] == DELTA {
        status, messages := ReceiveDelta(p);
        return;
      }
      var packets := ExpandPackets(p);
      if packets.None? { return DecodeFailed, []; }
      status, messages := ReceiveEach(packets.value);
    }

    method ReceiveStream(p: Packet) returns (status: Status, messages: seq<Message>)
      requires Valid()
      modifies dictionary, stream
      ensures (State(), status, messages) == old(State()).ReceiveStream(p)
    {
      hide Node.ReceiveOpened;
      if p == [] { return DecodeFailed, []; }
      if p[0] != ENVELOPE {
        status, messages := ReceiveOpened(p);
        return;
      }
      if |p| < 5 { return CorruptionDetected, []; }
      var actual := Crc32Range(p[5..]);
      if CrcOfBytes(p[1..5]) != actual { return CorruptionDetected, []; }
      status, messages := ReceiveOpened(p[5..]);
    }

    /** Recovers the packets of an unframed stream and decodes them, up to the limit. */
    method ReceiveRecoveredStream(bytes: seq<byte>, limit: nat)
      returns (status: Status, messages: seq<Message>, skipped: nat)
      requires Valid()
      modifies dictionary
      ensures (State(), status, messages) == ReceiveRecovered(old(State()), bytes, limit)
      ensures SkippedUpTo(Limited(RecoverFrom(registry, bytes, 0), limit), status, |messages|, skipped)
    {
      var found := Recovery.RecoverAllPackets(bytes, registry);
      if found == [] { return SynchronizationFailed, [], 0; }
      hide ReceiveFound, RecoverFrom, Limited;
      status, messages, skipped := DecodeFound(Limited(found, limit));
    }

    /** The loop over the recovered packets. */
    method DecodeFound(found: seq<Recovered>) returns (status: Status, messages: seq<Message>, skipped: nat)
      requires Valid()
      modifies dictionary
      ensures (State(), status, messages) == ReceiveFound(old(State()), found)
      ensures SkippedUpTo(found, status, |messages|, skipped)
    {
      messages, skipped := [], 0;
      ghost var whole := ReceiveFound(State(), found);
      hide Node.Receive, ReceiveFound, FoundLeft, AdaptiveDictionary.State, Optimizer.State;
      FoundEnds(State(), found, [], whole);
      for i := 0 to |found|
        invariant Valid()
        invariant FoundLeft(State(), found, i, messages, whole)
        invariant |messages| == i && skipped == SkippedBytes(found[..i])
      {
        FoundNext(State(), found, i, messages, whole);
        SkippedStep(found, i);
        hide SkippedBytes;
        skipped := skipped + found[i].skipped;
        var one, m := Receive(found[i].packet);
        if one != Status.Ok { return one, messages, skipped; }
        messages := messages + [m];
      }
      assert found[..|found|] == found;
      FoundEnds(State(), found, messages, whole);
      return Status.Ok, messages, skipped;
    }
  }

  /** The bytes passed over before each packet that was decoded, the one that failed to decode included. */
  predicate SkippedUpTo(found: seq<Recovered>, status: Status, decoded: nat, skipped: nat)
  {
    if found == [] then skipped == 0
    else if status == Status.Ok then decoded == |found| && skipped == SkippedBytes(found)
    else decoded < |found| && skipped == SkippedBytes(found[..decoded + 1])
  }

  lemma SkippedStep(found: seq<Recovered>, i: nat)
    requires i < |found|
    ensures SkippedBytes(found[..i + 1]) == SkippedBytes(found[..i]) + found[i].skipped
  {
    assert found[..i + 1][..i] == found[..i];
  }

  lemma SentIsKnown(node: Node, name: string, payload: Payload)
    ensures node.Send(name, payload).1 == Status.Ok ==> name in node.registry.byName
  {
  }

  lemma LongEnough(schema: SchemaDef, p: Packet)
    requires Check(schema, p).Accepted?
    ensures |p| >= 2
  {
  }

  type Reception = (Node, Status, seq<Message>)

  /** What is still to come of the reception of an envelope, after the messages already delivered. */
  ghost predicate EachLeft(node: Node, packets: seq<Packet>, i: nat, done: seq<Message>, whole: Reception)
    requires i <= |packets|
  {
    var rest := node.ReceiveEach(packets[i..]);
    whole == (rest.0, rest.1, done + rest.2)
  }

  lemma EachStep(node: Node, packets: seq<Packet>, i: nat, done: seq<Message>, whole: Reception)
    requires i < |packets| && EachLeft(node, packets, i, done, whole)
    ensures var (after, status, m) := node.Receive(packets[i]);
      && (status != Status.Ok ==> whole == (after, status, done))
      && (status == Status.Ok ==>
            EachLeft(after.(stream := after.stream.RecordDecoded(m.name, m.payload)), packets, i + 1, done + [m],
                     whole))
  {
    assert packets[i..][1..] == packets[i + 1..];
    hide Node.Receive;
    var (after, status, m) := node.Receive(packets[i]);
    assert done + [] == done;
    if status == Status.Ok {
      var rest := after.(stream := after.stream.RecordDecoded(m.name, m.payload)).ReceiveEach(packets[i + 1..]);
      assert done + ([m] + rest.2) == done + [m] + rest.2;
    }
  }

  lemma EachEnds(node: Node, packets: seq<Packet>, done: seq<Message>, whole: Reception)
    ensures EachLeft(node, packets, 0, [], node.ReceiveEach(packets))
    ensures EachLeft(node, packets, |packets|, done, whole) ==> whole == (node, Status.Ok, done)
  {
    assert packets[0..] == packets;
    assert [] + node.ReceiveEach(packets).2 == node.ReceiveEach(packets).2;
    assert done + [] == done;
  }

  /** What is still to come of the decoding of recovered packets. */
  ghost predicate FoundLeft(node: Node, found: seq<Recovered>, i: nat, done: seq<Message>, whole: Reception)
    requires i <= |found|
  {
    var rest := ReceiveFound(node, found[i..]);
    whole == (rest.0, rest.1, done + rest.2)
  }

  lemma FoundNext(node: Node, found: seq<Recovered>, i: nat, done: seq<Message>, whole: Reception)
    requires i < |found| && FoundLeft(node, found, i, done, whole)
    ensures var (after, status, m) := node.Receive(found[i].packet);
      && (status != Status.Ok ==> whole == (after, status, done))
      && (status == Status.Ok ==> FoundLeft(after, found, i + 1, done + [m], whole))
  {
    assert found[i..][1..] == found[i + 1..];
    hide Node.Receive;
    var (after, status, m) := node.Receive(found[i].packet);
    assert done + [] == done;
    if status == Status.Ok {
      var rest := ReceiveFound(after, found[i + 1..]);
      assert done + ([m] + rest.2) == done + [m] + rest.2;
    }
  }

  lemma FoundEnds(node: Node, found: seq<Recovered>, done: seq<Message>, whole: Reception)
    ensures FoundLeft(node, found, 0, [], ReceiveFound(node, found))
    ensures FoundLeft(node, found, |found|, done, whole) ==> whole == (node, Status.Ok, done)
  {
    assert found[0..] == found;
    assert [] + ReceiveFound(node, found).2 == ReceiveFound(node, found).2;
    assert done + [] == done;
  }
}
