/** The WebSocket adapter as an object over a byte stream that arrives in arbitrary non-empty chunks. */
module WebSocketMachine {
  import opened Wire
  import opened WebSocket

  function Flatten(chunks: seq<seq<byte>>): seq<byte>
  {
    if chunks == [] then [] else chunks[0] + Flatten(chunks[1..])
  }

  predicate NonEmpty(chunks: seq<seq<byte>>) { forall i :: 0 <= i < |chunks| ==> chunks[i] != [] }

  const CRLF_TWICE: seq<byte> := [13, 10, 13, 10]

  const MAX_HANDSHAKE := 8192

  predicate TerminatorAt(d: seq<byte>, i: nat) { i + 4 <= |d| && d[i..i + 4] == CRLF_TWICE }

  class WebSocketAdapter {
    var inbound: seq<byte>
    var chunks: seq<seq<byte>>
    var outbound: seq<byte>
    var connected: bool
    var clientSide: bool
    var limit: nat
    var seed: nat
    var fragmented: bool
    var message: seq<byte>

    /** Every byte still to come, whatever chunks it comes in. */
    function Wire(): seq<byte>
      reads this
    {
      inbound + Flatten(chunks)
    }

    function State(): Assembly
      reads this
    {
      Assembly(fragmented, message)
    }

    ghost predicate Valid()
      reads this
    {
      NonEmpty(chunks) && State().Within(limit) && limit < Pow256(8)
    }

    constructor (limit: nat, clientSide: bool, chunks: seq<seq<byte>>)
      requires limit < Pow256(8) && NonEmpty(chunks)
      ensures Valid() && Wire() == Flatten(chunks) && State() == Assembly(false, []) && outbound == []
      ensures this.limit == limit && this.clientSide == clientSide && connected
    {
      this.inbound, this.chunks, this.outbound := [], chunks, [];
      this.connected, this.clientSide, this.limit, this.seed := true, clientSide, limit, 0x9E3779B9;
      this.fragmented, this.message := false, [];
    }

    /** Takes the next chunk off the socket. */
    method ReceiveRaw() returns (chunk: Option<seq<byte>>)
      requires NonEmpty(chunks)
      modifies `chunks
      ensures NonEmpty(chunks)
      ensures chunk.None? <==> old(chunks) == []
      ensures chunk.None? ==> chunks == old(chunks)
      ensures chunk.Some? ==> chunk.value != [] && chunk.value + Flatten(chunks) == Flatten(old(chunks))
      ensures chunk.Some? ==> |chunks| < |old(chunks)|
    {
      if chunks == [] { return None; }
      chunk := Some(chunks[0]);
      chunks := chunks[1..];
    }

    method ReadExact(size: nat) returns (out: Option<seq<byte>>)
      requires NonEmpty(chunks)
      modifies `inbound, `chunks
      ensures NonEmpty(chunks)
      ensures out.Some? <==> |old(Wire())| >= size
      ensures out.Some? ==> out.value == old(Wire())[..size] && Wire() == old(Wire())[size..]
    {
      var got: seq<byte> := [];
      ghost var whole := Wire();
      assert [] + Wire() == whole;
      while |got| < size
        invariant NonEmpty(chunks) && |got| <= size
        invariant got + Wire() == whole
        decreases size - |got|, if inbound == [] then 1 else 0
      {
        ghost var before := inbound;
        if inbound != [] {
          var take := if |inbound| < size - |got| then |inbound| else size - |got|;
          TakeFrom(got, inbound, take, Flatten(chunks));
          got := got + inbound[..take];
          inbound := inbound[take..];
        } else {
          assert [] + Flatten(chunks) == Flatten(chunks);
          var chunk := ReceiveRaw();
          if chunk.None? {
            assert Wire() == [];
            return None;
          }
          inbound := chunk.value;
        }
      }
      SplitAt(whole, got, Wire());
      return Some(got);
    }

    /** Reads the header block of the handshake; what came after it stays to be read. */
    method ReadUntilDoubleCrlf() returns (block: Option<seq<byte>>)
      requires NonEmpty(chunks)
      modifies `inbound, `chunks
      ensures NonEmpty(chunks)
      ensures block.Some? ==> old(Wire()) == block.value + CRLF_TWICE + Wire()
      ensures block.Some? ==> forall i :: 0 <= i < |block.value| ==> !TerminatorAt(old(Wire()), i)
      ensures block.None? ==> forall i :: 0 <= i && TerminatorAt(old(Wire()), i) ==> i + 4 > MAX_HANDSHAKE
    {
      var out: seq<byte> := [];
      ghost var whole := Wire();
      while |out| < MAX_HANDSHAKE
        invariant NonEmpty(chunks) && out + Wire() == whole
        invariant forall i :: 0 <= i ==> !TerminatorAt(out, i)
        decreases |Wire()|
      {
        if inbound == [] {
          assert [] + Flatten(chunks) == Flatten(chunks);
          var chunk := ReceiveRaw();
          if chunk.None? {
            assert out == whole;
            return None;
          }
          inbound := chunk.value;
        }
        Assoc(out, inbound, Flatten(chunks));
        out := out + inbound;
        inbound := [];
        assert [] + Flatten(chunks) == Flatten(chunks);
        var end := FindTerminator(out);
        if end.Some? {
          inbound := out[end.value + 4..];
          FirstInWhole(whole, out, Flatten(chunks), end.value);
          return Some(out[..end.value]);
        }
      }
      NoneInPrefix(whole, out, Wire());
      return None;
    }

    /** A big-endian number of the next bytes. */
    method ReadNumber(size: nat) returns (n: Option<nat>)
      requires NonEmpty(chunks)
      modifies `inbound, `chunks
      ensures NonEmpty(chunks)
      ensures n.Some? <==> |old(Wire())| >= size
      ensures n.Some? ==> n.value == FromBE(old(Wire())[..size]) && Wire() == old(Wire())[size..]
    {
      var d := ReadExact(size);
      if d.None? { return None; }
      var value := 0;
      for i := 0 to size
        invariant value == FromBE(d.value[..i])
      {
        assert d.value[..i + 1][..i] == d.value[..i];
        value := 256 * value + d.value[i] as int;
      }
      assert d.value[..size] == d.value;
      return Some(value);
    }

    method ReadFrameHeader() returns (h: Option<Header>)
      requires NonEmpty(chunks)
      modifies `inbound, `chunks
      ensures NonEmpty(chunks)
      ensures h == ParseHeader(old(Wire()), limit)
      ensures h.Some? ==> Wire() == old(Wire())[h.value.size..]
    {
      ghost var w := Wire();
      var head := ReadExact(2);
      if head.None? { return None; }
      var masked, length := head.value[1] >= 128, (head.value[1] % 128) as nat;
      var extra := if length == 126 then 2 else if length == 127 then 8 else 0;
      HeaderSlices(w, extra, if masked then 4 else 0);
      hide FromBE;
      if extra > 0 {
        var extended := ReadNumber(extra);
        if extended.None? { return None; }
        length := extended.value;
      }
      assert Wire() == w[2 + extra..];
      if length > limit { return None; }
      var key: seq<byte> := [0, 0, 0, 0];
      if masked {
        var k := ReadExact(4);
        if k.None? { return None; }
        key := k.value;
      }
      var first := head.value[0];
      return Some(Header(first >= 128, first % 16, masked, length, key, 2 + extra + if masked then 4 else 0));
    }

    method SendFrame(opcode: nat, payload: seq<byte>)
      requires opcode < 16 && |payload| < Pow256(8)
      modifies `outbound, `seed
      ensures outbound == old(outbound) + FrameBytes(clientSide, old(seed), opcode, payload)
      ensures seed == SeedAfter(clientSide, old(seed))
    {
      hide BE, Xor, NextSeed, LE, Pow256;
      var n := |payload|;
      var frame := Head(true, opcode, clientSide, if n < 126 then n else if n < 65536 then 126 else 127);
      if n >= 65536 {
        var big := BigEndian(n, 8);
        frame := frame + big;
      } else if n >= 126 {
        var big := BigEndian(n, 2);
        frame := frame + big;
      }
      ghost var key := KeyOf(clientSide, seed);
      FrontIs(key, opcode, payload, frame);
      var body := payload;
      if clientSide {
        seed := NextSeed(seed);
        var mask := LE(seed, 4);
        body := MaskLoop(payload, mask);
        frame := frame + mask;
      } else {
        assert frame + [] == frame;
      }
      Assoc(Head(true, opcode, key.Some?, WidthOf(n).Field(n)) + BE(n, WidthOf(n).Extra()), MaskBytes(key), body);
      outbound := outbound + (frame + body);
    }

    /** The payload of a frame whose header has been read, unmasked. */
    method ReadPayload(h: Header) returns (payload: Option<seq<byte>>)
      requires NonEmpty(chunks) && |h.key| == 4
      modifies `inbound, `chunks
      ensures NonEmpty(chunks)
      ensures payload.Some? <==> |old(Wire())| >= h.length
      ensures payload.Some? ==>
        var body := old(Wire())[..h.length];
        payload.value == (if h.masked then Mask(body, h.key) else body) && Wire() == old(Wire())[h.length..]
    {
      payload := ReadExact(h.length);
      if payload.None? || !h.masked { return; }
      var plain := MaskLoop(payload.value, h.key);
      return Some(plain);
    }

    /** One frame off the wire. */
    method ReadFrame() returns (f: Option<Frame>)
      requires NonEmpty(chunks)
      modifies `inbound, `chunks
      ensures NonEmpty(chunks)
      ensures match ParseFrame(old(Wire()), limit)
        case None => f == None
        case Some((frame, rest)) => f == Some(frame) && Wire() == rest
    {
      hide ParseHeader, Mask, Flatten, NonEmpty;
      ghost var w := Wire();
      var h := ReadFrameHeader();
      if h.None? { return None; }
      var payload := ReadPayload(h.value);
      if payload.None? { return None; }
      BodySlices(w, h.value.size, h.value.length);
      return Some(Frame(h.value.fin, h.value.opcode, h.value.masked, payload.value));
    }

    /** Takes one frame into account: None to go on reading. */
    method Handle(f: Frame) returns (outcome: Option<Outcome>)
      requires Valid() && |f.payload| <= limit
      modifies `outbound, `seed, `connected, `fragmented, `message
      ensures Valid()
      ensures var step := HandleFrame(clientSide, limit, old(State()), f);
        && outcome == step.outcome && State() == step.assembly
        && (step.reply.Some? ==> step.reply.value.opcode < 16 && |step.reply.value.payload| <= limit)
        && (outbound, seed) == Sent(clientSide, old(outbound), old(seed), step.reply)
      ensures connected == (old(connected) && outcome != Some(ClosedByPeer))
    {
      hide *;
      StillWithin();
      HandleKeepsLimit(clientSide, limit, State(), f);
      HandleCases(clientSide, limit, State(), f, outbound, seed);
      if !clientSide && !f.masked { return Some(ProtocolError); }
      if ControlOpcode(f.opcode) { outcome := HandleControl(f); } else { outcome := HandleData(f); }
    }

    lemma StillWithin()
      requires Valid()
      ensures State().Within(limit) && limit < Pow256(8)
    {
      hide Pow256;
    }

    /** A close is answered and ends the connection, a ping is answered, a pong is ignored. */
    method HandleControl(f: Frame) returns (outcome: Option<Outcome>)
      requires Valid() && |f.payload| <= limit && ControlOpcode(f.opcode)
      modifies `outbound, `seed, `connected
      ensures Valid() && State() == old(State())
      ensures outcome == (if f.opcode == CLOSE then Some(ClosedByPeer) else None)
      ensures Answerable(ControlReply(f))
      ensures (outbound, seed) == Sent(clientSide, old(outbound), old(seed), ControlReply(f))
      ensures connected == (old(connected) && f.opcode != CLOSE)
    {
      hide FrameBytes, NextSeed, Pow256;
      if f.opcode == CLOSE {
        SendFrame(CLOSE, f.payload);
        connected := false;
        return Some(ClosedByPeer);
      }
      if f.opcode == PING { SendFrame(PONG, f.payload); }
      return None;
    }

    /** The data frames: they build the message up, or deliver it. */
    method HandleData(f: Frame) returns (outcome: Option<Outcome>)
      requires Valid() && |f.payload| <= limit
      modifies `fragmented, `message
      ensures Valid()
      ensures (outcome, State()) == DataStep(limit, old(State()), f)
      ensures outcome != Some(ClosedByPeer)
    {
      hide Pow256;
      if f.opcode == CONTINUATION {
        if !fragmented || |message| + |f.payload| > limit { return Some(ProtocolError); }
        message := message + f.payload;
        if !f.fin { return None; }
        var whole := message;
        message, fragmented := [], false;
        return Some(Packet(whole));
      }
      if f.opcode == TEXT || f.opcode == BINARY {
        if f.fin { return Some(Packet(f.payload)); }
        fragmented, message := true, f.payload;
        return None;
      }
      return Some(ProtocolError);
    }

    /** One round of the receive loop. */
    method Round(ghost start: Delivery, ghost bytes: seq<byte>) returns (r: Option<Outcome>)
      requires Valid() && StillTo(clientSide, limit, State(), Wire(), outbound, seed, start, bytes)
      modifies `inbound, `chunks, `outbound, `seed, `connected, `fragmented, `message
      ensures Valid()
      ensures r.None? ==> StillTo(clientSide, limit, State(), Wire(), outbound, seed, start, bytes)
      ensures r.None? ==> |Wire()| < |old(Wire())|
      ensures r.Some? ==> r.value == start.outcome && State() == start.assembly && outbound == bytes
      ensures r.Some? && r.value != ReadFailed ==> Wire() == start.rest
    {
      hide Deliver, ReplyBytes, ParseFrame, HandleFrame, Pow256, StillTo, Sent, Assembly.Within;
      FrameStep(clientSide, limit, State(), Wire(), outbound, seed, start, bytes);
      var f := ReadFrame();
      if f.None? { return Some(ReadFailed); }
      r := Handle(f.value);
    }

    /** Reads frames until a message is complete or something fails. */
    method Receive() returns (outcome: Outcome)
      requires Valid()
      modifies `inbound, `chunks, `outbound, `seed, `connected, `fragmented, `message
      ensures Valid()
      ensures !old(connected) ==> outcome == NotConnected && Wire() == old(Wire()) && State() == old(State())
      ensures !old(connected) ==> outbound == old(outbound)
      ensures old(connected) ==>
        var d := Deliver(clientSide, limit, old(State()), old(Wire()));
        && outcome == d.outcome && State() == d.assembly && (outcome != ReadFailed ==> Wire() == d.rest)
        && Sendable(d.replies) && outbound == old(outbound) + ReplyBytes(clientSide, old(seed), d.replies).0
    {
      if !connected { return NotConnected; }
      ghost var start := Deliver(clientSide, limit, State(), Wire());
      RepliesSendable(clientSide, limit, State(), Wire());
      ghost var bytes := outbound + ReplyBytes(clientSide, seed, start.replies).0;
      hide Deliver, ReplyBytes, Pow256, Assembly.Within;
      while true
        invariant Valid()
        invariant StillTo(clientSide, limit, State(), Wire(), outbound, seed, start, bytes)
        decreases |Wire()|
      {
        hide StillTo;
        var r := Round(start, bytes);
        if r.Some? { return r.value; }
      }
    }
  }

  /**
   * A message off the socket: whatever fragments, masking keys, length encodings and control frames it comes in, and
   * however its bytes are cut into chunks, it is received whole, and the bytes after it stay to be read.
   */
  method ReceiveMessage(socket: WebSocketAdapter, ghost items: seq<Item>, ghost opcode: nat, ghost rest: seq<byte>)
    returns (message: seq<byte>)
    requires socket.Valid() && socket.connected && socket.State() == Assembly(false, [])
    requires AllLegal(socket.clientSide, socket.limit, items) && items != [] && items[|items| - 1].Fragment?
    requires (opcode == TEXT || opcode == BINARY) && |Content(items)| <= socket.limit
    requires socket.Wire() == EncodeItems(socket.clientSide, socket.limit, items, false, opcode) + rest
    modifies socket
    ensures message == Content(items) && socket.Wire() == rest
    ensures socket.Valid() && socket.State() == Assembly(false, [])
  {
    Reassembles(socket.clientSide, socket.limit, socket.State(), items, opcode, rest);
    hide Deliver, EncodeItems, Content, Pongs, AllLegal;
    assert [] + Content(items) == Content(items);
    var outcome := socket.Receive();
    message := outcome.packet;
  }

  /** What is still to be done is what was to be done at the start. */
  ghost predicate StillTo(client: bool, limit: nat, a: Assembly, w: seq<byte>, outbound: seq<byte>, seed: nat,
                          start: Delivery, bytes: seq<byte>)
  {
    var d := Deliver(client, limit, a, w);
    && d.outcome == start.outcome && d.assembly == start.assembly && d.rest == start.rest && Sendable(d.replies)
    && outbound + ReplyBytes(client, seed, d.replies).0 == bytes
  }

  lemma FrameStep(client: bool, limit: nat, a: Assembly, w: seq<byte>, outbound: seq<byte>, seed: nat, start: Delivery,
                  bytes: seq<byte>)
    requires StillTo(client, limit, a, w, outbound, seed, start, bytes) && limit < Pow256(8) && a.Within(limit)
    ensures ParseFrame(w, limit).None? ==> start.outcome == ReadFailed && start.assembly == a && outbound == bytes
    ensures ParseFrame(w, limit).Some? ==>
      var (f, rest) := ParseFrame(w, limit).value;
      var step := HandleFrame(client, limit, a, f);
      && (step.reply.Some? ==> step.reply.value.opcode < 16 && |step.reply.value.payload| <= limit)
      && var (sent, next) := Sent(client, outbound, seed, step.reply);
         && (step.outcome.Some? ==>
               && start.outcome == step.outcome.value && start.assembly == step.assembly
               && start.rest == rest && sent == bytes)
         && (step.outcome.None? ==> StillTo(client, limit, step.assembly, rest, sent, next, start, bytes))
  {
    var d := Deliver(client, limit, a, w);
    var r := ParseFrame(w, limit);
    hide ParseFrame;
    assert outbound + [] == outbound;
    if r.Some? {
      var (f, rest) := r.value;
      HandleKeepsLimit(client, limit, a, f);
      var step := HandleFrame(client, limit, a, f);
      hide HandleFrame;
      var later := if step.outcome.Some? then Delivery(step.outcome.value, step.assembly, rest, [])
                   else Deliver(client, limit, step.assembly, rest);
      assert d == Answering(step.reply, later);
      hide Deliver, Pow256, FrameBytes;
      if step.reply.Some? {
        var reply := step.reply.value;
        AnswerFirst(client, seed, outbound, reply, later.replies);
      }
    }
  }

  lemma AnswerFirst(client: bool, seed: nat, outbound: seq<byte>, r: Reply, later: seq<Reply>)
    requires Sendable([r] + later)
    ensures r.opcode < 16 && |r.payload| < Pow256(8) && Sendable(later)
    ensures outbound + ReplyBytes(client, seed, [r] + later).0
      == outbound + FrameBytes(client, seed, r.opcode, r.payload)
         + ReplyBytes(client, SeedAfter(client, seed), later).0
  {
    assert ([r] + later)[0] == r && ([r] + later)[1..] == later;
    forall i | 0 <= i < |later| ensures later[i].opcode < 16 && |later[i].payload| < Pow256(8) {
      assert ([r] + later)[i + 1] == later[i];
    }
    hide FrameBytes, Pow256;
    Assoc(outbound, FrameBytes(client, seed, r.opcode, r.payload),
      ReplyBytes(client, SeedAfter(client, seed), later).0);
  }

  lemma BodySlices(w: seq<byte>, size: nat, length: nat)
    requires size <= |w|
    ensures |w| >= size + length ==>
      w[size..][..length] == w[size..size + length] && w[size..][length..] == w[size + length..]
  {
  }

  /** The first position of the terminator. */
  method FindTerminator(d: seq<byte>) returns (at: Option<nat>)
    ensures at.Some? ==> TerminatorAt(d, at.value) && forall i :: 0 <= i < at.value ==> !TerminatorAt(d, i)
    ensures at.None? ==> forall i :: 0 <= i ==> !TerminatorAt(d, i)
  {
    var i := 0;
    while i + 4 <= |d|
      invariant forall k :: 0 <= k < i ==> !TerminatorAt(d, k)
    {
      if TerminatorAt(d, i) { return Some(i); }
      i := i + 1;
    }
    return None;
  }

  lemma SamePlace(whole: seq<byte>, out: seq<byte>, rest: seq<byte>, i: nat)
    requires whole == out + rest && i + 4 <= |out|
    ensures TerminatorAt(whole, i) == TerminatorAt(out, i)
  {
    assert whole[i..i + 4] == out[i..i + 4];
  }

  lemma FirstInWhole(whole: seq<byte>, out: seq<byte>, rest: seq<byte>, end: nat)
    requires whole == out + rest && TerminatorAt(out, end)
    requires forall i :: 0 <= i < end ==> !TerminatorAt(out, i)
    ensures whole == out[..end] + CRLF_TWICE + (out[end + 4..] + rest)
    ensures forall i :: 0 <= i < end ==> !TerminatorAt(whole, i)
  {
    assert out == out[..end] + out[end..end + 4] + out[end + 4..];
    forall i | 0 <= i < end ensures !TerminatorAt(whole, i) { SamePlace(whole, out, rest, i); }
  }

  lemma NoneInPrefix(whole: seq<byte>, out: seq<byte>, rest: seq<byte>)
    requires whole == out + rest && forall i :: 0 <= i ==> !TerminatorAt(out, i)
    ensures forall i :: 0 <= i && TerminatorAt(whole, i) ==> i + 4 > |out|
  {
    forall i | 0 <= i && TerminatorAt(whole, i) ensures i + 4 > |out| {
      if i + 4 <= |out| { SamePlace(whole, out, rest, i); }
    }
  }

  lemma HeaderSlices(w: seq<byte>, extra: nat, mask: nat)
    requires |w| >= 2
    ensures |w| >= 2 + extra ==> w[2..][..extra] == w[2..2 + extra] && w[2..][extra..] == w[2 + extra..]
    ensures |w| >= 2 + extra + mask ==>
      w[2 + extra..][..mask] == w[2 + extra..2 + extra + mask] && w[2 + extra..][mask..] == w[2 + extra + mask..]
  {
  }

  lemma FrontIs(key: Option<seq<byte>>, opcode: nat, payload: seq<byte>, frame: seq<byte>)
    requires opcode < 16
    requires var n := |payload|;
      frame == Head(true, opcode, key.Some?, if n < 126 then n else if n < 65536 then 126 else 127)
               + (if n < 126 then [] else BE(n, if n < 65536 then 2 else 8))
    ensures var n := |payload|; var width := WidthOf(n);
      width.Field(n) < 128 && frame == Head(true, opcode, key.Some?, width.Field(n)) + BE(n, width.Extra())
  {
  }

  method BigEndian(n: nat, size: nat) returns (d: seq<byte>)
    ensures d == BE(n, size)
  {
    d := [];
    var rest := n;
    for i := 0 to size
      invariant BE(n, size) == BE(rest, size - i) + d
    {
      assert BE(rest, size - i) == BE(rest / 256, size - i - 1) + [rest % 256];
      Assoc(BE(rest / 256, size - i - 1), [rest % 256], d);
      d := [rest % 256] + d;
      rest := rest / 256;
    }
    assert [] + d == d;
  }

  /** Applies or removes the mask, byte by byte. */
  method MaskLoop(payload: seq<byte>, key: seq<byte>) returns (out: seq<byte>)
    requires |key| == 4
    ensures out == Mask(payload, key)
  {
    hide Xor;
    out := [];
    for i := 0 to |payload|
      invariant out == Mask(payload[..i], key)
    {
      assert payload[..i + 1][..i] == payload[..i];
      out := out + [Xor(payload[i], key[i % 4])];
    }
    assert payload[..|payload|] == payload;
  }

  lemma TakeFrom(got: seq<byte>, inbound: seq<byte>, take: nat, later: seq<byte>)
    requires take <= |inbound|
    ensures got + inbound[..take] + (inbound[take..] + later) == got + (inbound + later)
  {
    assert inbound == inbound[..take] + inbound[take..];
  }
}
