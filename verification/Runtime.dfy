/** The runtime as functions of its state: sending, receiving, streaming. */
module Runtime {
  import opened Wire
  import opened Schema
  import opened Registry
  import opened Dictionary
  import opened Codec
  import opened RuntimeOptimizer
  import opened Corruption
  import opened Crc
  import opened Delta
  import opened StreamOptimizer

  const CONTROL: byte := 0xFA

  /** What `send_dictionary_reset` writes. */
  const RESET_PACKET: Packet := [CONTROL, 0]

  datatype Status = Ok | SchemaNotFound | SchemaMismatch | MappingFailed | DecodeFailed | CorruptionDetected
    | PacketTooSmall | Threw | SynchronizationFailed

  datatype Message = Message(name: string, payload: Payload)

  /**
   * One side's state. The four switches are the optimizer's two, the CRC envelope's, and those inside `dict` and
   * `stream`.
   */
  datatype Node = Node(registry: Registry, optimizer: bool, omission: bool, crc: bool, dict: Dict, stream: Stream) {

    function Encode(schema: SchemaDef, values: seq<FieldValue>): (Node, Status, Packet)
    {
      if !Validated(schema.fields, values) then (this, SchemaMismatch, [])
      else
        var (wire, next) := EncodeValues(dict, values);
        var packet := LE(schema.messageId, 2) + wire;
        var after := this.(dict := next);
        if optimizer && omission then
          var q := Optimize(schema.fields, packet);
          if q.ok then (after, Status.Ok, q.packet) else (after, DecodeFailed, [])
        else (after, Status.Ok, packet)
    }

    function Send(name: string, payload: Payload): (Node, Status, Packet)
    {
      match registry.FindByName(name)
      case None => (this, SchemaNotFound, [])
      case Some(schema) =>
        if !Fits(schema.fields, payload) then (this, MappingFailed, [])
        else Encode(schema, Ordered(schema.fields, payload))
    }

    function Envelope(p: Packet): Packet { if crc then Wrap(p) else p }

    function SendStream(name: string, payload: Payload, lowChange: bool): (Node, Status, Option<Packet>)
    {
      var (after, status, base) := Send(name, payload);
      if status != Status.Ok then (after, status, None)
      else
        var schema := registry.byName[name];
        var (next, e) := stream.Outgoing(schema, payload, base, lowChange);
        (after.(stream := next), Status.Ok, if e.emitNow then Some(Envelope(e.packet)) else None)
    }

    function ResetDictionary(): Node { this.(dict := dict.Reset()) }

    function FlushStream(): (Node, Option<Packet>)
    {
      var (next, p) := stream.Flush();
      (this.(stream := next), match p case None => None case Some(b) => Some(Envelope(b)))
    }

    /** The plain packet to decode: the packet itself, or what it stands for when it is optimized. */
    function Plain(schema: SchemaDef, p: Packet): Option<Packet>
    {
      if optimizer && IsOptimized(p) then
        var r := Deoptimize(schema.fields, p);
        if r.ok then Some(r.packet) else None
      else Some(p)
    }

    function ReceiveWithSchema(schema: SchemaDef, p: Packet): (Node, Status, Payload)
    {
      match Plain(schema, p)
      case None => (this, DecodeFailed, map[])
      case Some(plain) =>
        if Check(schema, plain).Rejected? then (this, CorruptionDetected, map[])
        else
          var r := DecodeValues(schema.fields, dict, if |plain| >= 2 then plain[2..] else []);
          var after := this.(dict := r.dict);
          if !r.ending.Complete? then (after, DecodeFailed, map[])
          else if !Validated(schema.fields, r.values) then (after, SchemaMismatch, map[])
          else if r.rest != [] then (after, CorruptionDetected, map[])
          else (after, Status.Ok, Named(schema.fields, r.values))
    }

    function Receive(p: Packet): (Node, Status, Message)
    {
      if |p| < 2 then (this, PacketTooSmall, Message("", map[]))
      else
        match registry.FindById(Word(p))
        case None => (this, SchemaNotFound, Message("", map[]))
        case Some(schema) =>
          var (after, status, payload) := ReceiveWithSchema(schema, p);
          (after, status, Message(schema.name, payload))
    }

    /** Decodes the packets of one envelope in order, stopping at the first failure. */
    function ReceiveEach(packets: seq<Packet>): (Node, Status, seq<Message>)
      decreases |packets|
    {
      if packets == [] then (this, Status.Ok, [])
      else
        var (after, status, m) := Receive(packets[0]);
        if status != Status.Ok then (after, status, [])
        else
          var recorded := after.(stream := after.stream.RecordDecoded(m.name, m.payload));
          var (last, s, ms) := recorded.ReceiveEach(packets[1..]);
          (last, s, [m] + ms)
    }

    function ReceiveDelta(p: Packet): (Node, Status, seq<Message>)
      requires p != []
    {
      if |p| < 6 then (this, DecodeFailed, [])
      else
        match registry.FindById(Word(p[1..]))
        case None => (this, SchemaNotFound, [])
        case Some(schema) =>
          match stream.Expand(schema, p)
          case Refused => (this, DecodeFailed, [])
          case Exception => (this, Status.Threw, [])
          case Expanded(full, _) =>
            var (after, status, m) := Receive(full);
            if status != Status.Ok then (after, status, [])
            else (after.(stream := after.stream.RecordDecodedDelta(m.name, m.payload)), Status.Ok, [m])
    }

    function ReceiveOpened(p: Packet): (Node, Status, seq<Message>)
    {
      if p == [] then (this, DecodeFailed, [])
      else if p[0] == CONTROL then (ResetDictionary(), Status.Ok, [])
      else if p[0] == DELTA then ReceiveDelta(p)
      else
        match ExpandIncoming(p)
        case None => (this, DecodeFailed, [])
        case Some(packets) => ReceiveEach(packets)
    }

    function ReceiveStream(p: Packet): (Node, Status, seq<Message>)
    {
      if p == [] then (this, DecodeFailed, [])
      else if p[0] == ENVELOPE then
        match Unwrap(p)
        case TooSmall => (this, CorruptionDetected, [])
        case Mismatch => (this, CorruptionDetected, [])
        case Packet(inner) => ReceiveOpened(inner)
      else ReceiveOpened(p)
    }
  }

  /**
   * A packet damaged inside four consecutive bytes of its envelope's content is refused: nothing is delivered or
   * changed.
   */
  lemma DamagedEnvelopeRefused(node: Node, p: Packet, damaged: Packet, k: nat)
    requires SameOutside(p, damaged, k, 4) && p != damaged
    ensures node.ReceiveStream([ENVELOPE] + CrcBytes(Crc32(p)) + damaged) == (node, CorruptionDetected, [])
  {
    DamagedPacketRefused(p, damaged, k);
    hide Crc32, CrcBytes, Unwrap;
  }

  /** An intact envelope is transparent, and so is no envelope for a packet that does not begin like one. */
  lemma EnvelopeTransparent(node: Node, crc: bool, p: Packet)
    requires p != [] && p[0] != ENVELOPE
    ensures node.ReceiveStream(if crc then Wrap(p) else p) == node.ReceiveOpened(p)
  {
    if crc {
      hide Crc32, CrcBytes, Unwrap, Node.ReceiveOpened;
      UnwrapOfWrap(p);
      assert Wrap(p)[0] == ENVELOPE;
      hide Wrap;
    }
  }

  /**
   * Checked packets decode totally: once the check accepts a packet, the decode neither runs out of bytes nor
   * leaves any. The reception succeeds, or a reference is unknown, or a string that came from a reference is
   * longer than its field allows.
   */
  lemma CheckedDecodes(node: Node, schema: SchemaDef, p: Packet)
    requires node.Plain(schema, p).Some? && Check(schema, node.Plain(schema, p).value).Accepted?
    ensures var (after, status, payload) := node.ReceiveWithSchema(schema, p);
      var plain := node.Plain(schema, p).value;
      |plain| >= 2 &&
      var r := DecodeValues(schema.fields, node.dict, plain[2..]);
      && (status == Status.Ok || status == DecodeFailed || status == SchemaMismatch)
      && (status == DecodeFailed <==> r.ending.UnknownReference?)
      && (status == SchemaMismatch ==> r.ending.Complete?)
      && (status == SchemaMismatch ==>
            exists i :: 0 <= i < |schema.fields| && !WithinLimit(schema.fields[i], r.values[i])
                        && ReferenceAt(schema.fields, plain[2..], i))
  {
    var plain := node.Plain(schema, p).value;
    CheckIsGrammar(schema, plain);
    SpannedDecodes(schema.fields, node.dict, plain[2..]);
    hide Check, Span, Node.Plain;
    var r := DecodeValues(schema.fields, node.dict, plain[2..]);
    hide DecodeValues;
    if r.ending.Complete? && !Validated(schema.fields, r.values) {
      var i :| 0 <= i < |schema.fields| && !WithinLimit(schema.fields[i], r.values[i]);
      OverLimitOnlyByReference(schema.fields, node.dict, plain[2..], i);
    }
  }

  /** A received packet, reduced to what its plain form decodes to. */
  lemma ReceivedPlain(node: Node, schema: SchemaDef, p: Packet, plain: Packet, values: seq<FieldValue>, next: Dict)
    requires |p| >= 2 && node.registry.FindById(Word(p)) == Some(schema)
    requires node.Plain(schema, p) == Some(plain) && WellFormed(schema, plain)
    requires DecodeValues(schema.fields, node.dict, plain[2..]) == Decoded(Complete, values, [], next)
    requires Validated(schema.fields, values)
    ensures node.Receive(p) == (node.(dict := next), Status.Ok, Message(schema.name, Named(schema.fields, values)))
  {
    CheckIsGrammar(schema, plain);
    hide Check, Span, DecodeValues, Node.Plain;
  }

  /** Encoding does not look at the stream. */
  lemma SendIgnoresStream(tx0: Node, tx: Node, name: string, payload: Payload)
    requires tx == tx0.(stream := tx.stream)
    ensures tx.Send(name, payload).1 == tx0.Send(name, payload).1
    ensures tx.Send(name, payload).2 == tx0.Send(name, payload).2
    ensures tx.Send(name, payload).0 == tx0.Send(name, payload).0.(stream := tx.stream)
  {
    hide EncodeValues, Validated, Fits;
  }
}
