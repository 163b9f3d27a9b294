/** WebSocket frames (sections 5.2 to 5.4 of RFC 6455): encoding, parsing, masking and reassembly. */
module WebSocket {
  import opened Wire
  import opened Bits

  // Network byte order.

  function BE(n: nat, size: nat): (d: seq<byte>)
    ensures |d| == size
    decreases size
  {
    if size == 0 then [] else BE(n / 256, size - 1) + [n % 256]
  }

  function FromBE(d: seq<byte>): nat
  {
    if d == [] then 0 else 256 * FromBE(d[..|d| - 1]) + d[|d| - 1] as int
  }

  lemma {:induction false} BERoundTrip(n: nat, size: nat)
    requires n < Pow256(size)
    ensures FromBE(BE(n, size)) == n
    decreases size
  {
    if size > 0 {
      BERoundTrip(n / 256, size - 1);
      assert BE(n, size)[..size - 1] == BE(n / 256, size - 1);
    }
  }

  // Masking.

  function XorBits(x: bv8, y: bv8): bv8 { x ^ y }

  function Xor(a: byte, b: byte): byte { FromBits(XorBits(ToBits(a), ToBits(b))) }

  lemma XorBitsTwice(x: bv8, y: bv8)
    ensures XorBits(XorBits(x, y), y) == x
  {
  }

  lemma XorTwice(a: byte, k: byte)
    ensures Xor(Xor(a, k), k) == a
  {
    hide ToBits, FromBits, XorBits;
    ToFromBits(XorBits(ToBits(a), ToBits(k)));
    FromToBits(a);
    XorBitsTwice(ToBits(a), ToBits(k));
  }

  function Mask(payload: seq<byte>, key: seq<byte>): (r: seq<byte>)
    requires |key| == 4
    ensures |r| == |payload|
  {
    seq(|payload|, i requires 0 <= i < |payload| => Xor(payload[i], key[i % 4]))
  }

  lemma MaskTwice(payload: seq<byte>, key: seq<byte>)
    requires |key| == 4
    ensures Mask(Mask(payload, key), key) == payload
  {
    hide Xor;
    forall i | 0 <= i < |payload| ensures Mask(Mask(payload, key), key)[i] == payload[i] {
      XorTwice(payload[i], key[i % 4]);
    }
  }

  // Frames.

  /** How the length is written: in seven bits, or in two or eight bytes after an escape. */
  datatype Width = Seven | Two | Eight {
    function Extra(): nat { match this case Seven => 0 case Two => 2 case Eight => 8 }

    predicate Fits(n: nat)
    {
      match this case Seven => n < 126 case Two => n < Pow256(2) case Eight => n < Pow256(8)
    }

    function Field(n: nat): nat { match this case Seven => n case Two => 126 case Eight => 127 }
  }

  datatype Frame = Frame(fin: bool, opcode: nat, masked: bool, payload: seq<byte>)

  const CONTINUATION := 0x0
  const TEXT := 0x1
  const BINARY := 0x2
  const CLOSE := 0x8
  const PING := 0x9
  const PONG := 0xA

  /** The first two bytes of a frame. */
  function Head(fin: bool, opcode: nat, masked: bool, field: nat): (h: seq<byte>)
    requires opcode < 16 && field < 128
    ensures |h| == 2
  {
    [(if fin then 128 else 0) + opcode, (if masked then 128 else 0) + field]
  }

  function MaskBytes(key: Option<seq<byte>>): seq<byte> { match key case None => [] case Some(k) => k }

  function Masked(key: Option<seq<byte>>, payload: seq<byte>): (body: seq<byte>)
    requires key.Some? ==> |key.value| == 4
    ensures |body| == |payload|
  {
    match key case None => payload case Some(k) => Mask(payload, k)
  }

  /** A frame on the wire, with any admissible length encoding and any masking key, or unmasked. */
  function EncodeFrame(fin: bool, opcode: nat, key: Option<seq<byte>>, width: Width, payload: seq<byte>): seq<byte>
    requires opcode < 16 && width.Fits(|payload|) && (key.Some? ==> |key.value| == 4)
  {
    Head(fin, opcode, key.Some?, width.Field(|payload|)) + BE(|payload|, width.Extra())
    + (MaskBytes(key) + Masked(key, payload))
  }

  datatype Header = Header(fin: bool, opcode: nat, masked: bool, length: nat, key: seq<byte>, size: nat)

  /** The header at the start of the bytes, its own size included. A message over the limit is turned away here. */
  function ParseHeader(w: seq<byte>, limit: nat): (h: Option<Header>)
    ensures h.Some? ==> 2 <= h.value.size <= |w| && |h.value.key| == 4 && h.value.length <= limit
  {
    if |w| < 2 then None
    else
      var field, masked := w[1] % 128, w[1] >= 128;
      var extra := if field == 126 then 2 else if field == 127 then 8 else 0;
      if |w| < 2 + extra then None
      else
        var length := if extra == 0 then field else FromBE(w[2..2 + extra]);
        var size := 2 + extra + if masked then 4 else 0;
        if length > limit || |w| < size then None
        else
          Some(Header(w[0] >= 128, w[0] % 16, masked, length, if masked then w[2 + extra..size] else [0, 0, 0, 0],
                      size))
  }

  function ParseFrame(w: seq<byte>, limit: nat): (r: Option<(Frame, seq<byte>)>)
    ensures r.Some? ==> |r.value.1| < |w| && |r.value.0.payload| <= limit
  {
    match ParseHeader(w, limit)
    case None => None
    case Some(h) =>
      if |w| < h.size + h.length then None
      else
        var body := w[h.size..h.size + h.length];
        Some((Frame(h.fin, h.opcode, h.masked, if h.masked then Mask(body, h.key) else body), w[h.size + h.length..]))
  }

  lemma HeadReadsBack(fin: bool, opcode: nat, masked: bool, field: nat)
    requires opcode < 16 && field < 128
    ensures var h := Head(fin, opcode, masked, field);
      (h[0] >= 128) == fin && h[0] % 16 == opcode && (h[1] >= 128) == masked && h[1] % 128 == field
  {
  }

  /** The four parts of a frame, found again by position. */
  lemma FrameParts(w: seq<byte>, head: seq<byte>, ext: seq<byte>, mask: seq<byte>, tail: seq<byte>)
    requires w == head + ext + (mask + tail) && |head| == 2
    ensures |w| == 2 + |ext| + |mask| + |tail| && w[0] == head[0] && w[1] == head[1]
    ensures w[2..2 + |ext|] == ext && w[2 + |ext|..2 + |ext| + |mask|] == mask && w[2 + |ext| + |mask|..] == tail
  {
  }

  /** `ParseHeader`, by the parts. */
  lemma ParseParts(w: seq<byte>, head: seq<byte>, ext: seq<byte>, mask: seq<byte>, tail: seq<byte>, n: nat, limit: nat)
    requires w == head + ext + (mask + tail) && |head| == 2 && n <= limit
    requires |mask| == if head[1] >= 128 then 4 else 0
    requires |ext| == if head[1] % 128 == 126 then 2 else if head[1] % 128 == 127 then 8 else 0
    requires n == if |ext| == 0 then head[1] % 128 else FromBE(ext)
    ensures ParseHeader(w, limit)
      == Some(Header(head[0] >= 128, head[0] % 16, head[1] >= 128, n, if head[1] >= 128 then mask else [0, 0, 0, 0],
                     2 + |ext| + |mask|))
  {
    hide FromBE;
    FrameParts(w, head, ext, mask, tail);
  }

  lemma EncodeByParts(fin: bool, opcode: nat, key: Option<seq<byte>>, width: Width, payload: seq<byte>, rest: seq<byte>)
    requires opcode < 16 && width.Fits(|payload|) && (key.Some? ==> |key.value| == 4)
    ensures width.Field(|payload|) < 128
    ensures EncodeFrame(fin, opcode, key, width, payload) + rest
      == Head(fin, opcode, key.Some?, width.Field(|payload|)) + BE(|payload|, width.Extra())
         + (MaskBytes(key) + (Masked(key, payload) + rest))
  {
    hide BE, Masked, MaskBytes, Head;
    var front := Head(fin, opcode, key.Some?, width.Field(|payload|)) + BE(|payload|, width.Extra());
    Assoc(front, MaskBytes(key) + Masked(key, payload), rest);
    Assoc(MaskBytes(key), Masked(key, payload), rest);
  }

  lemma LengthReadsBack(width: Width, n: nat)
    requires width.Fits(n)
    ensures var field := width.Field(n);
      && field < 128 && width.Extra() == (if field == 126 then 2 else if field == 127 then 8 else 0)
      && n == (if width.Extra() == 0 then field else FromBE(BE(n, width.Extra())))
  {
    if width != Seven { BERoundTrip(n, width.Extra()); }
    hide BE, FromBE, Pow256;
  }

  /** Parsing inverts encoding, for all three length encodings, masked or not, whatever follows. */
  lemma FrameReadsBack(fin: bool, opcode: nat, key: Option<seq<byte>>, width: Width, payload: seq<byte>, limit: nat,
                       rest: seq<byte>)
    requires opcode < 16 && width.Fits(|payload|) && (key.Some? ==> |key.value| == 4) && |payload| <= limit
    ensures ParseFrame(EncodeFrame(fin, opcode, key, width, payload) + rest, limit)
      == Some((Frame(fin, opcode, key.Some?, payload), rest))
  {
    hide BE, FromBE, Mask, ParseHeader, EncodeFrame, Head;
    var n, field := |payload|, width.Field(|payload|);
    var w := EncodeFrame(fin, opcode, key, width, payload) + rest;
    var ext, mask, body := BE(n, width.Extra()), MaskBytes(key), Masked(key, payload);
    LengthReadsBack(width, n);
    hide Width.Field, Width.Fits, Width.Extra;
    var head := Head(fin, opcode, key.Some?, field);
    HeadReadsBack(fin, opcode, key.Some?, field);
    EncodeByParts(fin, opcode, key, width, payload, rest);
    ParseParts(w, head, ext, mask, body + rest, n, limit);
    FrameParts(w, head, ext, mask, body + rest);
    BodyReadsBack(w, 2 + |ext| + |mask|, body, rest);
    if key.Some? { MaskTwice(payload, key.value); }
  }

  lemma BodyReadsBack(w: seq<byte>, size: nat, body: seq<byte>, rest: seq<byte>)
    requires size <= |w| && w[size..] == body + rest
    ensures |w| == size + |body| + |rest| && w[size..size + |body|] == body && w[size + |body|..] == rest
  {
    SplitAt(w[size..], body, rest);
    assert w[size..size + |body|] == w[size..][..|body|] && w[size + |body|..] == w[size..][|body|..];
  }

  // Receiving.

  /** The message under reassembly. */
  datatype Assembly = Assembly(fragmented: bool, message: seq<byte>) {
    /** Nothing is kept outside a fragmented message, and what is kept is within the limit. */
    predicate Within(limit: nat) { |message| <= limit && (!fragmented ==> message == []) }
  }

  datatype Outcome = Packet(packet: seq<byte>) | ReadFailed | ProtocolError | ClosedByPeer | NotConnected

  datatype Reply = Reply(opcode: nat, payload: seq<byte>)

  datatype Delivery = Delivery(outcome: Outcome, assembly: Assembly, rest: seq<byte>, replies: seq<Reply>)

  /** What one frame does: an outcome, or nothing yet; the assembly after it; what is answered. */
  datatype Step = Step(outcome: Option<Outcome>, assembly: Assembly, reply: Option<Reply>)

  function HandleFrame(client: bool, limit: nat, a: Assembly, f: Frame): Step
  {
    if !client && !f.masked then Step(Some(ProtocolError), a, None)
    else if ControlOpcode(f.opcode) then
      Step(if f.opcode == CLOSE then Some(ClosedByPeer) else None, a, ControlReply(f))
    else
      var (outcome, next) := DataStep(limit, a, f);
      Step(outcome, next, None)
  }

  predicate ControlOpcode(opcode: nat) { opcode == CLOSE || opcode == PING || opcode == PONG }

  /** A close and a ping are answered with their payload. */
  function ControlReply(f: Frame): Option<Reply>
  {
    if f.opcode == CLOSE then Some(Reply(CLOSE, f.payload))
    else if f.opcode == PING then Some(Reply(PONG, f.payload))
    else None
  }

  /** A data frame starts, extends or completes the message. */
  function DataStep(limit: nat, a: Assembly, f: Frame): (Option<Outcome>, Assembly)
  {
    if f.opcode == CONTINUATION then
      if !a.fragmented || |a.message| + |f.payload| > limit then (Some(ProtocolError), a)
      else if f.fin then (Some(Packet(a.message + f.payload)), Assembly(false, []))
      else (None, Assembly(true, a.message + f.payload))
    else if f.opcode == TEXT || f.opcode == BINARY then
      if f.fin then (Some(Packet(f.payload)), a) else (None, Assembly(true, f.payload))
    else (Some(ProtocolError), a)
  }

  function Answering(reply: Option<Reply>, d: Delivery): Delivery
  {
    match reply case None => d case Some(r) => d.(replies := [r] + d.replies)
  }

  /** `receive` on the bytes still to come: frames are consumed until a message is complete or something fails. */
  function Deliver(client: bool, limit: nat, a: Assembly, w: seq<byte>): Delivery
    decreases |w|
  {
    match ParseFrame(w, limit)
    case None => Delivery(ReadFailed, a, [], [])
    case Some((f, rest)) =>
      var step := HandleFrame(client, limit, a, f);
      var later := if step.outcome.Some? then Delivery(step.outcome.value, step.assembly, rest, [])
                   else Deliver(client, limit, step.assembly, rest);
      Answering(step.reply, later)
  }

  lemma HandleKeepsLimit(client: bool, limit: nat, a: Assembly, f: Frame)
    requires a.Within(limit) && |f.payload| <= limit
    ensures var step := HandleFrame(client, limit, a, f);
      && step.assembly.Within(limit)
      && (step.outcome.Some? && step.outcome.value.Packet? ==> |step.outcome.value.packet| <= limit)
      && (step.reply.Some? ==> step.reply.value.opcode < 16 && |step.reply.value.payload| <= limit)
  {
  }

  /** The message under reassembly never exceeds the limit, and neither does a delivered one. */
  lemma {:induction false} DeliverKeepsLimit(client: bool, limit: nat, a: Assembly, w: seq<byte>)
    requires a.Within(limit)
    ensures var d := Deliver(client, limit, a, w);
      d.assembly.Within(limit) && (d.outcome.Packet? ==> |d.outcome.packet| <= limit)
    decreases |w|
  {
    var r := ParseFrame(w, limit);
    hide ParseFrame, HandleFrame, Assembly.Within;
    if r.Some? {
      var (f, rest) := r.value;
      HandleKeepsLimit(client, limit, a, f);
      DeliverKeepsLimit(client, limit, HandleFrame(client, limit, a, f).assembly, rest);
    }
  }

  // Sending a message in pieces.

  /** A fragment of the message, or a control frame between two fragments. */
  datatype Item = Fragment(payload: seq<byte>, key: Option<seq<byte>>, width: Width)
    | Control(ping: bool, payload: seq<byte>, key: Option<seq<byte>>, width: Width)

  /** Frames a peer may send: lengths in an encoding that holds them, and masked towards a server. */
  predicate Legal(client: bool, limit: nat, i: Item)
  {
    && i.width.Fits(|i.payload|) && |i.payload| <= limit
    && (i.key.Some? ==> |i.key.value| == 4) && (client || i.key.Some?)
  }

  predicate AllLegal(client: bool, limit: nat, items: seq<Item>)
  {
    forall k :: 0 <= k < |items| ==> Legal(client, limit, items[k])
  }

  function ItemFrame(i: Item, started: bool, last: bool, opcode: nat): seq<byte>
    requires opcode < 16 && i.width.Fits(|i.payload|) && (i.key.Some? ==> |i.key.value| == 4)
  {
    match i
    case Fragment(payload, key, width) =>
      EncodeFrame(last, if started then CONTINUATION else opcode, key, width, payload)
    case Control(ping, payload, key, width) => EncodeFrame(true, if ping then PING else PONG, key, width, payload)
  }

  /** The frames of one message, from the point where `started` tells whether a fragment has gone out. */
  function EncodeItems(client: bool, limit: nat, items: seq<Item>, started: bool, opcode: nat): seq<byte>
    requires opcode < 16 && AllLegal(client, limit, items)
    decreases |items|
  {
    if items == [] then []
    else
      LegalLater(client, limit, items);
      ItemFrame(items[0], started, |items| == 1, opcode)
      + EncodeItems(client, limit, items[1..], started || items[0].Fragment?, opcode)
  }

  lemma LegalLater(client: bool, limit: nat, items: seq<Item>)
    requires AllLegal(client, limit, items) && items != []
    ensures Legal(client, limit, items[0]) && AllLegal(client, limit, items[1..])
  {
    forall k | 0 <= k < |items[1..]| ensures Legal(client, limit, items[1..][k]) {
      assert items[1..][k] == items[k + 1];
    }
  }

  /** The message the fragments make up. */
  function Content(items: seq<Item>): seq<byte>
  {
    if items == [] then [] else (if items[0].Fragment? then items[0].payload else []) + Content(items[1..])
  }

  /** One pong for every ping, with its payload. */
  function Pongs(items: seq<Item>): seq<Reply>
  {
    if items == [] then []
    else (if items[0].Control? && items[0].ping then [Reply(PONG, items[0].payload)] else []) + Pongs(items[1..])
  }

  /** What a receiver makes of one item and the bytes after it. */
  function AfterItem(client: bool, limit: nat, a: Assembly, i: Item, last: bool, rest: seq<byte>): Delivery
  {
    if i.Control? then
      if i.ping then Answering(Some(Reply(PONG, i.payload)), Deliver(client, limit, a, rest))
      else Deliver(client, limit, a, rest)
    else if last then Delivery(Packet(a.message + i.payload), Assembly(false, []), rest, [])
    else Deliver(client, limit, Assembly(true, a.message + i.payload), rest)
  }

  /** One item reaches the receiver. */
  lemma DeliverItem(client: bool, limit: nat, a: Assembly, i: Item, last: bool, opcode: nat, rest: seq<byte>)
    requires Legal(client, limit, i) && (opcode == TEXT || opcode == BINARY) && a.Within(limit)
    requires i.Fragment? ==> |a.message| + |i.payload| <= limit
    ensures Deliver(client, limit, a, ItemFrame(i, a.fragmented, last, opcode) + rest)
      == AfterItem(client, limit, a, i, last, rest)
  {
    hide EncodeFrame, ParseFrame, Width.Fits;
    match i
    case Control(ping, payload, key, width) =>
      FrameReadsBack(true, if ping then PING else PONG, key, width, payload, limit, rest);
    case Fragment(payload, key, width) =>
      FrameReadsBack(last, if a.fragmented then CONTINUATION else opcode, key, width, payload, limit, rest);
      assert !a.fragmented ==> a.message + payload == payload;
  }

  /**
   * Reassembly: every message within the limit, cut into any fragments, with any pings and pongs between them, any
   * masking keys and any of the three length encodings, is delivered whole; the bytes after it are left alone, the
   * assembly is empty again, and every ping is answered with its payload.
   */
  lemma {:induction false} Reassembles(client: bool, limit: nat, a: Assembly, items: seq<Item>, opcode: nat,
                                       rest: seq<byte>)
    requires AllLegal(client, limit, items) && items != [] && items[|items| - 1].Fragment?
    requires (opcode == TEXT || opcode == BINARY) && a.Within(limit) && |a.message| + |Content(items)| <= limit
    ensures Deliver(client, limit, a, EncodeItems(client, limit, items, a.fragmented, opcode) + rest)
      == Delivery(Packet(a.message + Content(items)), Assembly(false, []), rest, Pongs(items))
    decreases |items|
  {
    LegalLater(client, limit, items);
    hide *;
    if |items| == 1 {
      OneArrives(client, limit, a, items, opcode, rest);
    } else {
      FirstKeeps(client, limit, a, items);
      LastStays(items);
      Reassembles(client, limit, Next(a, items[0]), items[1..], opcode, rest);
      MoreArrive(client, limit, a, items, opcode, rest);
    }
  }

  lemma LastStays(items: seq<Item>)
    requires |items| > 1
    ensures items[1..] != [] && items[1..][|items[1..]| - 1] == items[|items| - 1]
  {
  }

  lemma FirstKeeps(client: bool, limit: nat, a: Assembly, items: seq<Item>)
    requires items != [] && Legal(client, limit, items[0])
    requires a.Within(limit) && |a.message| + |Content(items)| <= limit
    ensures var b := Next(a, items[0]);
      && b.Within(limit) && |b.message| + |Content(items[1..])| <= limit
      && b.fragmented == (a.fragmented || items[0].Fragment?)
  {
  }

  lemma OneArrives(client: bool, limit: nat, a: Assembly, items: seq<Item>, opcode: nat, rest: seq<byte>)
    requires AllLegal(client, limit, items) && |items| == 1 && items[0].Fragment?
    requires (opcode == TEXT || opcode == BINARY) && a.Within(limit) && |a.message| + |Content(items)| <= limit
    ensures Deliver(client, limit, a, EncodeItems(client, limit, items, a.fragmented, opcode) + rest)
      == Delivery(Packet(a.message + Content(items)), Assembly(false, []), rest, Pongs(items))
  {
    LegalLater(client, limit, items);
    assert opcode < 16;
    hide *;
    var later := EncodeItems(client, limit, items[1..], true, opcode);
    FirstItem(client, limit, a, items, opcode, later, rest);
    LastArrives(client, limit, a, items, opcode, later, rest);
  }

  lemma MoreArrive(client: bool, limit: nat, a: Assembly, items: seq<Item>, opcode: nat, rest: seq<byte>)
    requires AllLegal(client, limit, items) && |items| > 1 && AllLegal(client, limit, items[1..])
    requires (opcode == TEXT || opcode == BINARY) && a.Within(limit) && |a.message| + |Content(items)| <= limit
    requires var b := Next(a, items[0]);
      Deliver(client, limit, b, EncodeItems(client, limit, items[1..], b.fragmented, opcode) + rest)
      == Delivery(Packet(b.message + Content(items[1..])), Assembly(false, []), rest, Pongs(items[1..]))
    ensures Deliver(client, limit, a, EncodeItems(client, limit, items, a.fragmented, opcode) + rest)
      == Delivery(Packet(a.message + Content(items)), Assembly(false, []), rest, Pongs(items))
  {
    assert opcode < 16;
    LegalLater(client, limit, items);
    FirstKeeps(client, limit, a, items);
    hide *;
    var later := EncodeItems(client, limit, items[1..], Next(a, items[0]).fragmented, opcode);
    FirstItem(client, limit, a, items, opcode, later, rest);
    ItemsUnfold(client, limit, items, a.fragmented, opcode);
    NextArrives(client, limit, a, items, later + rest, Content(items[1..]), Pongs(items[1..]), rest);
  }

  /** The assembly after an item that does not complete the message. */
  function Next(a: Assembly, i: Item): Assembly
  {
    if i.Fragment? then Assembly(true, a.message + i.payload) else a
  }

  lemma FirstItem(client: bool, limit: nat, a: Assembly, items: seq<Item>, opcode: nat, later: seq<byte>,
                  rest: seq<byte>)
    requires AllLegal(client, limit, items) && items != [] && AllLegal(client, limit, items[1..])
    requires (opcode == TEXT || opcode == BINARY) && a.Within(limit) && |a.message| + |Content(items)| <= limit
    requires later == EncodeItems(client, limit, items[1..], a.fragmented || items[0].Fragment?, opcode)
    ensures Deliver(client, limit, a, EncodeItems(client, limit, items, a.fragmented, opcode) + rest)
      == AfterItem(client, limit, a, items[0], |items| == 1, later + rest)
    ensures var b := Next(a, items[0]);
      && b.Within(limit) && |b.message| + |Content(items[1..])| <= limit
      && b.fragmented == (a.fragmented || items[0].Fragment?)
  {
    hide Deliver, AfterItem, EncodeItems, ItemFrame, Content, AllLegal, Legal;
    ItemsUnfold(client, limit, items, a.fragmented, opcode);
    Assoc(ItemFrame(items[0], a.fragmented, |items| == 1, opcode), later, rest);
    DeliverItem(client, limit, a, items[0], |items| == 1, opcode, later + rest);
  }

  lemma ItemsUnfold(client: bool, limit: nat, items: seq<Item>, started: bool, opcode: nat)
    requires AllLegal(client, limit, items) && items != [] && opcode < 16
    ensures Legal(client, limit, items[0]) && AllLegal(client, limit, items[1..])
    ensures items[0].width.Fits(|items[0].payload|) && (items[0].key.Some? ==> |items[0].key.value| == 4)
    ensures EncodeItems(client, limit, items, started, opcode)
      == ItemFrame(items[0], started, |items| == 1, opcode)
         + EncodeItems(client, limit, items[1..], started || items[0].Fragment?, opcode)
    ensures Content(items) == (if items[0].Fragment? then items[0].payload else []) + Content(items[1..])
    ensures Pongs(items)
      == (if items[0].Control? && items[0].ping then [Reply(PONG, items[0].payload)] else []) + Pongs(items[1..])
  {
    LegalLater(client, limit, items);
    hide ItemFrame, AllLegal;
  }

  lemma LastArrives(client: bool, limit: nat, a: Assembly, items: seq<Item>, opcode: nat, later: seq<byte>,
                    rest: seq<byte>)
    requires |items| == 1 && items[0].Fragment? && opcode < 16 && AllLegal(client, limit, items[1..])
    requires later == EncodeItems(client, limit, items[1..], true, opcode)
    ensures AfterItem(client, limit, a, items[0], true, later + rest)
      == Delivery(Packet(a.message + Content(items)), Assembly(false, []), rest, Pongs(items))
  {
    OneItem(client, limit, items, opcode);
    assert [] + rest == rest;
    assert items[0].payload + [] == items[0].payload;
  }

  lemma NextArrives(client: bool, limit: nat, a: Assembly, items: seq<Item>, wire: seq<byte>, content: seq<byte>,
                    pongs: seq<Reply>, rest: seq<byte>)
    requires |items| > 1
    requires var b := Next(a, items[0]);
      Deliver(client, limit, b, wire) == Delivery(Packet(b.message + content), Assembly(false, []), rest, pongs)
    ensures var i := items[0];
      AfterItem(client, limit, a, i, false, wire)
      == Delivery(Packet(a.message + ((if i.Fragment? then i.payload else []) + content)), Assembly(false, []), rest,
                  (if i.Control? && i.ping then [Reply(PONG, i.payload)] else []) + pongs)
  {
    hide Deliver;
    var i := items[0];
    assert [] + content == content && [] + pongs == pongs;
    if i.Fragment? { Assoc(a.message, i.payload, content); }
  }

  lemma OneItem(client: bool, limit: nat, items: seq<Item>, opcode: nat)
    requires |items| == 1 && items[0].Fragment? && opcode < 16 && AllLegal(client, limit, items[1..])
    ensures EncodeItems(client, limit, items[1..], true, opcode) == []
    ensures Content(items[1..]) == [] && Pongs(items) == []
  {
  }

  // What this side sends.

  /** The shortest length encoding. */
  function WidthOf(n: nat): Width { if n < 126 then Seven else if n < 65536 then Two else Eight }

  lemma WidthFits(n: nat)
    requires n < Pow256(8)
    ensures WidthOf(n).Fits(n)
  {
    Pow256Values();
  }

  /** The generator behind the masking keys. */
  function NextSeed(seed: nat): nat { (seed * 1664525 + 1013904223) % 0x1_0000_0000 }

  function KeyOf(client: bool, seed: nat): (key: Option<seq<byte>>)
    ensures key.Some? ==> |key.value| == 4
    ensures key.Some? == client
  {
    if client then Some(LE(NextSeed(seed), 4)) else None
  }

  function SeedAfter(client: bool, seed: nat): nat { if client then NextSeed(seed) else seed }

  /** `send_frame`: one final frame, masked by a client. */
  function FrameBytes(client: bool, seed: nat, opcode: nat, payload: seq<byte>): seq<byte>
    requires opcode < 16 && |payload| < Pow256(8)
  {
    WidthFits(|payload|);
    EncodeFrame(true, opcode, KeyOf(client, seed), WidthOf(|payload|), payload)
  }

  predicate Sendable(replies: seq<Reply>)
  {
    forall i :: 0 <= i < |replies| ==> replies[i].opcode < 16 && |replies[i].payload| < Pow256(8)
  }

  /** The replies on the wire, and the generator after them. */
  function ReplyBytes(client: bool, seed: nat, replies: seq<Reply>): (seq<byte>, nat)
    requires Sendable(replies)
    decreases |replies|
  {
    if replies == [] then ([], seed)
    else
      var (bytes, next) := ReplyBytes(client, SeedAfter(client, seed), replies[1..]);
      (FrameBytes(client, seed, replies[0].opcode, replies[0].payload) + bytes, next)
  }

  /** A message sent as one frame is received whole by the other side, whichever side that is. */
  lemma SentArrives(client: bool, seed: nat, payload: seq<byte>, limit: nat, rest: seq<byte>)
    requires |payload| < Pow256(8) && |payload| <= limit
    ensures Deliver(!client, limit, Assembly(false, []), FrameBytes(client, seed, BINARY, payload) + rest)
      == Delivery(Packet(payload), Assembly(false, []), rest, [])
  {
    WidthFits(|payload|);
    hide EncodeFrame, ParseFrame, KeyOf, WidthOf, Width.Fits, Pow256, Deliver;
    FrameReadsBack(true, BINARY, KeyOf(client, seed), WidthOf(|payload|), payload, limit, rest);
    WholeFrame(!client, limit, FrameBytes(client, seed, BINARY, payload) + rest, client, payload, rest);
  }

  lemma WholeFrame(client: bool, limit: nat, w: seq<byte>, masked: bool, payload: seq<byte>, rest: seq<byte>)
    requires ParseFrame(w, limit) == Some((Frame(true, BINARY, masked, payload), rest)) && (client || masked)
    ensures Deliver(client, limit, Assembly(false, []), w) == Delivery(Packet(payload), Assembly(false, []), rest, [])
  {
    hide ParseFrame;
  }

  lemma {:induction false} RepliesSendable(client: bool, limit: nat, a: Assembly, w: seq<byte>)
    requires limit < Pow256(8)
    ensures Sendable(Deliver(client, limit, a, w).replies)
    decreases |w|
  {
    var r := ParseFrame(w, limit);
    hide ParseFrame;
    if r.Some? {
      var (f, rest) := r.value;
      RepliesSendable(client, limit, HandleFrame(client, limit, a, f).assembly, rest);
    }
  }

  predicate Answerable(reply: Option<Reply>)
  {
    reply.Some? ==> reply.value.opcode < 16 && |reply.value.payload| < Pow256(8)
  }

  /** The three ways a frame is handled. */
  lemma HandleCases(client: bool, limit: nat, a: Assembly, f: Frame, outbound: seq<byte>, seed: nat)
    ensures var step := HandleFrame(client, limit, a, f);
      && (!client && !f.masked ==> step == Step(Some(ProtocolError), a, None))
      && ((client || f.masked) && ControlOpcode(f.opcode) ==>
            step == Step(if f.opcode == CLOSE then Some(ClosedByPeer) else None, a, ControlReply(f)))
      && ((client || f.masked) && !ControlOpcode(f.opcode) ==>
            step == Step(DataStep(limit, a, f).0, DataStep(limit, a, f).1, None))
    ensures Answerable(None) && Sent(client, outbound, seed, None) == (outbound, seed)
    ensures Some(ProtocolError) != Some(ClosedByPeer) && (ControlOpcode(f.opcode) || f.opcode != CLOSE)
  {
    hide DataStep, ControlReply, SeedAfter, FrameBytes;
  }

  /** The bytes sent and the generator after an answer. */
  function Sent(client: bool, outbound: seq<byte>, seed: nat, reply: Option<Reply>): (seq<byte>, nat)
    requires Answerable(reply)
  {
    match reply
    case None => (outbound, seed)
    case Some(r) => (outbound + FrameBytes(client, seed, r.opcode, r.payload), SeedAfter(client, seed))
  }
}
