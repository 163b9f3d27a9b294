/** The bytes of every kind of packet, by position: what goes where, stated in arithmetic. */
module Layout {
  import opened Wire
  import opened Bits
  import opened Schema
  import opened Dictionary
  import opened Codec
  import opened Crc
  import opened CrcValues
  import opened Delta
  import opened StreamOptimizer

  // Values.

  /** Widths and ranges of the number types. */
  lemma NumberTypes(n: int)
    ensures U8.Size() == I8.Size() == 1 && U16.Size() == I16.Size() == 2
    ensures U32.Size() == I32.Size() == F32.Size() == 4 && F64.Size() == 8
    ensures U8.Holds(n) <==> 0 <= n <= 255
    ensures U16.Holds(n) <==> 0 <= n <= 65535
    ensures U32.Holds(n) <==> 0 <= n <= 4294967295
    ensures I8.Holds(n) <==> -128 <= n <= 127
    ensures I16.Holds(n) <==> -32768 <= n <= 32767
    ensures I32.Holds(n) <==> -2147483648 <= n <= 2147483647
    ensures F32.Holds(n) <==> 0 <= n <= 4294967295
    ensures F64.Holds(n) <==> 0 <= n <= 18446744073709551615
  {
  }

  /** The bytes at a position are those of a number, low byte first. */
  predicate NumberAt(d: seq<byte>, at: nat, n: int, size: nat)
  {
    at + size <= |d| && forall i: nat :: i < size ==> d[at + i] == n / Pow256(i) % 256
  }

  /** The bytes at a position are a 16-bit count, low byte first, and that many bytes. */
  predicate CountedAt(d: seq<byte>, at: nat, body: seq<byte>)
  {
    && at + 2 + |body| <= |d| && d[at + 2..at + 2 + |body|] == body
    && d[at] == |body| % 256 && d[at + 1] == |body| / 256 % 256
  }

  predicate ValueAt(d: seq<byte>, at: nat, v: FieldValue)
  {
    match v
    case Number(t, n) => NumberAt(d, at, n, t.Size())
    case Text(s) => CountedAt(d, at, s)
    case Blob(b) => CountedAt(d, at, b)
  }

  /** The bytes a value takes in full. */
  function WireSize(v: FieldValue): nat
  {
    match v case Number(t, _) => t.Size() case Text(s) => 2 + |s| case Blob(b) => 2 + |b|
  }

  /** A dictionary reference: the length FFFF and the id. */
  predicate ReferenceBytesAt(d: seq<byte>, at: nat, id: u16)
  {
    at + 4 <= |d| && d[at] == 255 && d[at + 1] == 255 && d[at + 2] == id % 256 && d[at + 3] == id / 256
  }

  lemma LEAt(d: seq<byte>, at: nat, n: int, size: nat)
    requires at + size <= |d| && d[at..at + size] == LE(n, size)
    ensures NumberAt(d, at, n, size)
  {
    hide Pow256, LE;
    forall i: nat | i < size ensures d[at + i] == n / Pow256(i) % 256 {
      LEValue(n, size, i);
      assert d[at + i] == d[at..at + size][i];
    }
  }

  lemma TwoBytes(n: nat)
    ensures LE(n, 2) == [n % 256, n / 256 % 256]
  {
    assert LE(n / 256, 1) == [n / 256 % 256] + LE(n / 256 / 256, 0);
  }

  lemma LECountedAt(d: seq<byte>, at: nat, body: seq<byte>)
    requires at + 2 + |body| <= |d| && d[at..at + 2 + |body|] == LE(|body|, 2) + body
    ensures CountedAt(d, at, body)
  {
    TwoBytes(|body|);
    hide LE;
    var wire := d[at..at + 2 + |body|];
    SplitAt(wire, wire[..2], body);
    assert wire[0] == d[at] && wire[1] == d[at + 1] && wire[2..] == d[at + 2..at + 2 + |body|];
  }

  lemma PlainValueAt(d: seq<byte>, at: nat, v: FieldValue)
    requires at + |PlainValue(v)| <= |d| && d[at..at + |PlainValue(v)|] == PlainValue(v)
    ensures ValueAt(d, at, v) && |PlainValue(v)| == WireSize(v)
  {
    hide LE;
    match v
    case Number(t, n) => LEAt(d, at, n, t.Size());
    case Text(s) => LECountedAt(d, at, s);
    case Blob(b) => LECountedAt(d, at, b);
  }

  // Bodies.

  /** The dictionary as the encoder has it when it comes to value k. */
  function DictAt(dict: Dict, values: seq<FieldValue>, k: nat): Dict
    requires k <= |values|
  {
    EncodeValues(dict, values[..k]).1
  }

  /** Where the encoding of value k starts in the body. */
  function Start(dict: Dict, values: seq<FieldValue>, k: nat): nat
    requires k <= |values|
  {
    |EncodeValues(dict, values[..k]).0|
  }

  lemma {:induction false} EncodeConcat(dict: Dict, a: seq<FieldValue>, b: seq<FieldValue>)
    ensures var (wire, mid) := EncodeValues(dict, a);
      EncodeValues(dict, a + b) == (wire + EncodeValues(mid, b).0, EncodeValues(mid, b).1)
    decreases |a|
  {
    hide EncodeValue;
    if a == [] {
      assert a + b == b;
      assert [] + EncodeValues(dict, b).0 == EncodeValues(dict, b).0;
    } else {
      var (wire, mid) := EncodeValue(dict, a[0]);
      EncodeConcat(mid, a[1..], b);
      assert (a + b)[0] == a[0] && (a + b)[1..] == a[1..] + b;
      var (rest, last) := EncodeValues(mid, a[1..]);
      Assoc(wire, rest, EncodeValues(last, b).0);
    }
  }

  lemma EncodeOne(dict: Dict, v: FieldValue)
    ensures EncodeValues(dict, [v]) == EncodeValue(dict, v)
  {
    hide EncodeValue;
    var (wire, next) := EncodeValue(dict, v);
    assert [v][1..] == [] && EncodeValues(next, []) == ([], next) && wire + [] == wire;
  }

  /** The encoding of value k stands where the ones before it end. */
  lemma EncodedAt(dict: Dict, values: seq<FieldValue>, k: nat)
    requires k < |values|
    ensures var d, at, wire := EncodeValues(dict, values).0, Start(dict, values, k),
                               EncodeValue(DictAt(dict, values, k), values[k]).0;
      at + |wire| <= |d| && d[at..at + |wire|] == wire && Start(dict, values, k + 1) == at + |wire|
  {
    hide *;
    var front, v, rest := values[..k], values[k], values[k + 1..];
    assert values == front + ([v] + rest) && values[..k + 1] == front + [v];
    EncodeConcat(dict, front, [v] + rest);
    EncodeConcat(dict, front, [v]);
    StartIs(dict, values, k);
    StartIs(dict, values, k + 1);
    var mid := DictAt(dict, values, k);
    EncodeConcat(mid, [v], rest);
    EncodeOne(mid, v);
    Between(EncodeValues(dict, front).0, EncodeValue(mid, v).0, EncodeValues(EncodeValue(mid, v).1, rest).0);
  }

  lemma StartIs(dict: Dict, values: seq<FieldValue>, k: nat)
    requires k <= |values|
    ensures DictAt(dict, values, k) == EncodeValues(dict, values[..k]).1
    ensures Start(dict, values, k) == |EncodeValues(dict, values[..k]).0|
  {
    hide EncodeValues;
  }

  lemma Between(a: seq<byte>, b: seq<byte>, c: seq<byte>)
    ensures var d := a + (b + c); d[|a|..|a| + |b|] == b
  {
  }

  /**
   * Every value of an encoded body, by position: a string the dictionary knows is four bytes FF FF and its id, low
   * byte first; everything else stands in full. A string in full is stored before the next value is encoded, if the
   * dictionary is active; nothing else changes the dictionary.
   */
  lemma EncodedValueAt(dict: Dict, values: seq<FieldValue>, k: nat)
    requires k < |values|
    ensures var d, at, now, v := EncodeValues(dict, values).0, Start(dict, values, k), DictAt(dict, values, k),
                                 values[k];
      var known, stored := v.Text? && now.config.Active() && now.LookupId(v.text).Some?, v.Text? && now.config.Active();
      && (known ==> ReferenceBytesAt(d, at, now.LookupId(v.text).value) && Start(dict, values, k + 1) == at + 4)
      && (!known ==> ValueAt(d, at, v) && Start(dict, values, k + 1) == at + WireSize(v))
      && DictAt(dict, values, k + 1) == (if stored then now.CreateOrGet(v.text).0 else now)
  {
    hide EncodeValues, EncodeValue, PlainValue, Dict.CreateOrGet, ValueAt, ReferenceBytesAt, WireSize;
    var d, at, now, v := EncodeValues(dict, values).0, Start(dict, values, k), DictAt(dict, values, k), values[k];
    EncodedAt(dict, values, k);
    EncodedForm(now, v);
    DictNext(dict, values, k);
    hide Start, DictAt;
    var wire := EncodeValue(now, v).0;
    if v.Text? && now.config.Active() && now.LookupId(v.text).Some? {
      ReferenceAtIs(d, at, wire, now.LookupId(v.text).value);
    } else {
      PlainValueAt(d, at, v);
    }
  }

  lemma EncodedForm(dict: Dict, v: FieldValue)
    ensures var known, stored := v.Text? && dict.config.Active() && dict.LookupId(v.text).Some?,
                                 v.Text? && dict.config.Active();
      && EncodeValue(dict, v).0
         == (if known then LE(REFERENCE, 2) + LE(dict.LookupId(v.text).value, 2) else PlainValue(v))
      && EncodeValue(dict, v).1 == if stored then dict.CreateOrGet(v.text).0 else dict
  {
  }

  lemma DictNext(dict: Dict, values: seq<FieldValue>, k: nat)
    requires k < |values|
    ensures DictAt(dict, values, k + 1) == EncodeValue(DictAt(dict, values, k), values[k]).1
  {
    assert values[..k + 1] == values[..k] + [values[k]];
    EncodeConcat(dict, values[..k], [values[k]]);
    EncodeOne(EncodeValues(dict, values[..k]).1, values[k]);
    hide EncodeValues, EncodeValue;
  }

  lemma ReferenceAtIs(d: seq<byte>, at: nat, wire: seq<byte>, id: u16)
    requires wire == LE(REFERENCE, 2) + LE(id, 2) && at + |wire| <= |d| && d[at..at + |wire|] == wire
    ensures |wire| == 4 && ReferenceBytesAt(d, at, id)
  {
    assert wire == [255, 255, id % 256, id / 256];
    assert d[at] == wire[0] && d[at + 1] == wire[1] && d[at + 2] == wire[2] && d[at + 3] == wire[3];
  }

  /** The two bytes of the message id, and the body. */
  lemma PacketHead(id: u16, body: seq<byte>)
    ensures var p := LE(id, 2) + body; |p| == 2 + |body| && p[0] == id % 256 && p[1] == id / 256 && p[2..] == body
  {
    TwoBytes(id);
    hide LE;
  }

  // Delta packets.

  /** How a changed number travels: the whole value, or a tag and a difference in the fewest bytes that hold it. */
  predicate DeltaNumberAt(d: seq<byte>, at: nat, t: FieldType, previous: int, current: int)
  {
    var diff := current - previous;
    at < |d| &&
    if t.U8? || t.I8? || t.F32? || t.F64? then NumberAt(d, at, current, t.Size())
    else if -128 <= diff <= 127 then d[at] == 0 && NumberAt(d, at + 1, diff, 1)
    else if -32768 <= diff <= 32767 then d[at] == 1 && NumberAt(d, at + 1, diff, 2)
    else if (t.U32? || t.I32?) && -2147483648 <= diff <= 2147483647 then d[at] == 2 && NumberAt(d, at + 1, diff, 4)
    else d[at] == 3 && NumberAt(d, at + 1, current, t.Size())
  }

  function DeltaNumberSize(t: FieldType, previous: int, current: int): nat
  {
    var diff := current - previous;
    if t.U8? || t.I8? || t.F32? || t.F64? then t.Size()
    else if -128 <= diff <= 127 then 2
    else if -32768 <= diff <= 32767 then 3
    else if (t.U32? || t.I32?) && -2147483648 <= diff <= 2147483647 then 5
    else 1 + t.Size()
  }

  /** How a changed field travels; strings and byte arrays in full, never by reference. */
  predicate DeltaFieldAt(d: seq<byte>, at: nat, previous: FieldValue, current: FieldValue)
  {
    if current.Number? && previous.Number? then DeltaNumberAt(d, at, current.ntype, previous.n, current.n)
    else ValueAt(d, at, current)
  }

  function DeltaFieldSize(previous: FieldValue, current: FieldValue): nat
  {
    if current.Number? && previous.Number? then DeltaNumberSize(current.ntype, previous.n, current.n)
    else WireSize(current)
  }

  lemma TagAt(d: seq<byte>, at: nat, tag: byte, n: int, size: nat)
    requires at + 1 + size <= |d| && d[at..at + 1 + size] == [tag] + LE(n, size)
    ensures d[at] == tag && NumberAt(d, at + 1, n, size)
  {
    hide LE;
    var wire := d[at..at + 1 + size];
    assert wire[0] == tag && wire[1..] == LE(n, size) && wire[1..] == d[at + 1..at + 1 + size];
    LEAt(d, at + 1, n, size);
  }

  lemma TaggedAt(d: seq<byte>, at: nat, t: FieldType, previous: int, current: int)
    requires t in {U16, I16, U32, I32}
    requires var wire := Tagged(t.Size(), current - previous, current);
      at + |wire| <= |d| && d[at..at + |wire|] == wire
    ensures DeltaNumberAt(d, at, t, previous, current)
    ensures |Tagged(t.Size(), current - previous, current)| == DeltaNumberSize(t, previous, current)
  {
    var diff := current - previous;
    NumberTypes(diff);
    TaggedIs(t.Size(), diff, current);
    hide Tagged, LE, NumberAt, FieldType.Holds;
    if -128 <= diff <= 127 {
      TagAt(d, at, 0, diff, 1);
    } else if -32768 <= diff <= 32767 {
      TagAt(d, at, 1, diff, 2);
    } else if (t.U32? || t.I32?) && -2147483648 <= diff <= 2147483647 {
      TagAt(d, at, 2, diff, 4);
    } else {
      TagAt(d, at, 3, current, t.Size());
    }
  }

  /** Every changed field of a delta: its bytes, by tag and by position. */
  lemma DeltaFieldForm(f: FieldDef, previous: FieldValue, current: FieldValue, d: seq<byte>, at: nat)
    requires Carried(f, previous) && Carried(f, current)
    requires var wire := DeltaField(f, previous, current); at + |wire| <= |d| && d[at..at + |wire|] == wire
    ensures DeltaFieldAt(d, at, previous, current)
    ensures |DeltaField(f, previous, current)| == DeltaFieldSize(previous, current)
  {
    hide LE, NumberAt, Tagged;
    match current
    case Number(t, n) =>
      assert previous.Number? && AsInt(previous) == (if t.Float() then 0 else previous.n);
      if t in {U16, I16, U32, I32} {
        TaggedAt(d, at, t, previous.n, n);
      } else {
        LEAt(d, at, n, t.Size());
      }
    case Text(s) => PlainValueAt(d, at, current);
    case Blob(b) => PlainValueAt(d, at, current);
  }

  /** Both payloads have every field, with values the wire can carry. */
  ghost predicate Deltable(fields: seq<FieldDef>, previous: Payload, current: Payload)
  {
    forall i :: 0 <= i < |fields| ==>
      && fields[i].name in previous && fields[i].name in current
      && Carried(fields[i], previous[fields[i].name]) && Carried(fields[i], current[fields[i].name])
  }

  lemma DeltableFields(fields: seq<FieldDef>, previous: Payload, current: Payload)
    requires Sendable(fields, previous) && Sendable(fields, current)
    ensures Deltable(fields, previous, current)
  {
    CarriedEach(fields, previous);
    CarriedEach(fields, current);
    hide Carried, Sendable;
  }

  /** Where the k-th field's change starts in the body of a delta: after the changes of the fields before it. */
  ghost function DeltaStart(fields: seq<FieldDef>, previous: Payload, current: Payload, k: nat): nat
    requires k <= |fields| && Deltable(fields, previous, current)
    decreases k
  {
    if k == 0 then 0
    else
      var name := fields[0].name;
      (if Changed(previous, current, name) then DeltaFieldSize(previous[name], current[name]) else 0)
      + DeltaStart(fields[1..], previous, current, k - 1)
  }

  lemma DeltableFirst(fields: seq<FieldDef>, previous: Payload, current: Payload)
    requires Deltable(fields, previous, current) && fields != []
    ensures Deltable(fields[1..], previous, current)
    ensures fields[0].name in previous && fields[0].name in current
    ensures Carried(fields[0], previous[fields[0].name]) && Carried(fields[0], current[fields[0].name])
  {
    hide Carried;
  }

  lemma BodyUnfolds(fields: seq<FieldDef>, previous: Payload, current: Payload)
    requires Deltable(fields, previous, current) && fields != []
    ensures fields[0].name in previous && fields[0].name in current
    ensures var name := fields[0].name;
      var own := if Changed(previous, current, name) then DeltaField(fields[0], previous[name], current[name]) else [];
      DeltaBody(fields, previous, current)
        == match DeltaBody(fields[1..], previous, current) case None => None case Some(rest) => Some(own + rest)
  {
    hide Carried, Changed, DeltaField;
    var rest := DeltaBody(fields[1..], previous, current);
    if rest.Some? { assert [] + rest.value == rest.value; }
  }

  /** A field's own bytes, and how many they are. */
  lemma OwnSize(f: FieldDef, previous: FieldValue, current: FieldValue)
    requires Carried(f, previous) && Carried(f, current)
    ensures |DeltaField(f, previous, current)| == DeltaFieldSize(previous, current)
  {
    hide DeltaField, DeltaFieldSize, Carried;
    var wire := DeltaField(f, previous, current);
    assert wire[0..0 + |wire|] == wire;
    DeltaFieldForm(f, previous, current, wire, 0);
  }

  /** The body from the k-th field on. */
  lemma {:induction false} DeltaFrom(fields: seq<FieldDef>, previous: Payload, current: Payload, k: nat)
    requires k <= |fields| && Deltable(fields, previous, current)
    ensures Deltable(fields[k..], previous, current)
    ensures DeltaBody(fields, previous, current).Some? && DeltaBody(fields[k..], previous, current).Some?
    ensures var body, at := DeltaBody(fields, previous, current).value, DeltaStart(fields, previous, current, k);
      at <= |body| && body[at..] == DeltaBody(fields[k..], previous, current).value
    decreases |fields|
  {
    hide *;
    StartUnfolds(fields, previous, current, k);
    if fields == [] {
      NoBody(fields, previous, current);
    } else {
      DeltableFirst(fields, previous, current);
      BodyUnfolds(fields, previous, current);
      DeltaFrom(fields[1..], previous, current, if k == 0 then 0 else k - 1);
      if k == 0 {
        assert fields[0..] == fields;
      } else {
        var name := fields[0].name;
        OwnSize(fields[0], previous[name], current[name]);
        assert fields[1..][k - 1..] == fields[k..];
        var own := if Changed(previous, current, name) then DeltaField(fields[0], previous[name], current[name])
                   else [];
        PastFirst(own, DeltaBody(fields[1..], previous, current).value,
          DeltaStart(fields[1..], previous, current, k - 1));
      }
    }
  }

  lemma NoBody(fields: seq<FieldDef>, previous: Payload, current: Payload)
    requires fields == []
    ensures DeltaBody(fields, previous, current) == Some([]) && fields[0..] == fields
  {
  }

  lemma StartUnfolds(fields: seq<FieldDef>, previous: Payload, current: Payload, k: nat)
    requires k <= |fields| && Deltable(fields, previous, current)
    ensures k == 0 ==> DeltaStart(fields, previous, current, k) == 0
    ensures k > 0 ==>
      var name := fields[0].name;
      && name in previous && name in current && Deltable(fields[1..], previous, current)
      && DeltaStart(fields, previous, current, k)
         == (if Changed(previous, current, name) then DeltaFieldSize(previous[name], current[name]) else 0)
            + DeltaStart(fields[1..], previous, current, k - 1)
  {
    hide Carried, Changed, DeltaFieldSize;
  }

  lemma PastFirst(own: seq<byte>, rest: seq<byte>, at: nat)
    requires at <= |rest|
    ensures |own| + at <= |own + rest| && (own + rest)[|own| + at..] == rest[at..]
  {
  }

  /**
   * A whole delta packet by position: marker, message id, sequence number, bitmap size; bit k of the bitmap set exactly
   * if field k changed; and the changed fields one after the other in schema order.
   */
  lemma DeltaPacketForm(schema: SchemaDef, previous: Payload, current: Payload, sequence: u16, k: nat)
    requires Sendable(schema.fields, previous) && Sendable(schema.fields, current)
    requires |schema.fields| <= 2040 && k < |schema.fields|
    ensures Deltable(schema.fields, previous, current) && BuildDelta(schema, previous, current, sequence).Some?
    ensures var d, bits := BuildDelta(schema, previous, current, sequence).value, BitmapSize(|schema.fields|);
      var name, at := schema.fields[k].name, 6 + bits + DeltaStart(schema.fields, previous, current, k);
      && |d| == 6 + bits + DeltaStart(schema.fields, previous, current, |schema.fields|)
      && d[0] == 0xFB && d[1] == schema.messageId % 256 && d[2] == schema.messageId / 256
      && d[3] == sequence % 256 && d[4] == sequence / 256 && d[5] == bits
      && 6 + k / 8 < |d| && Pow2(k % 8) > 0 && name in previous && name in current
      && (d[6 + k / 8] / Pow2(k % 8) % 2 == 1 <==> Changed(previous, current, name))
      && (Changed(previous, current, name) ==> DeltaFieldAt(d, at, previous[name], current[name]))
  {
    hide *;
    var fields, n := schema.fields, |schema.fields|;
    DeltableFields(fields, previous, current);
    DeltaFrom(fields, previous, current, 0);
    DeltaFrom(fields, previous, current, k);
    DeltaFrom(fields, previous, current, n);
    NoBody(fields[n..], previous, current);
    var flags, body := ChangedFlags(fields, previous, current), DeltaBody(fields, previous, current).value;
    FlagChanged(fields, previous, current, k);
    HeaderBytes(schema, sequence, flags);
    DeltaIsHeaderAndBody(schema, previous, current, sequence);
    PackValue(flags, k);
    var header := DeltaHeader(schema, sequence, flags);
    HeadKept(header, body, k);
    HasField(fields, previous, current, k);
    if Changed(previous, current, fields[k].name) { ChangeAt(fields, previous, current, k, header + body, |header|); }
  }

  lemma HasField(fields: seq<FieldDef>, previous: Payload, current: Payload, k: nat)
    requires k < |fields| && Deltable(fields, previous, current)
    ensures fields[k].name in previous && fields[k].name in current
  {
    hide Carried;
  }

  lemma HeadKept(header: seq<byte>, body: seq<byte>, k: nat)
    requires 6 + k / 8 < |header|
    ensures var d := header + body;
      && |d| == |header| + |body| && d[|header|..] == body && d[6 + k / 8] == header[6 + k / 8]
      && d[0] == header[0] && d[1] == header[1] && d[2] == header[2] && d[3] == header[3] && d[4] == header[4]
      && d[5] == header[5]
  {
  }

  lemma FlagChanged(fields: seq<FieldDef>, previous: Payload, current: Payload, k: nat)
    requires k < |fields|
    ensures |ChangedFlags(fields, previous, current)| == |fields|
    ensures ChangedFlags(fields, previous, current)[k] == Changed(previous, current, fields[k].name)
    ensures k / 8 < BitmapSize(|fields|)
  {
    hide Changed;
  }

  lemma HeaderBytes(schema: SchemaDef, sequence: u16, flags: seq<bool>)
    requires |flags| <= 2040
    ensures var h, bits := DeltaHeader(schema, sequence, flags), BitmapSize(|flags|);
      && |h| == 6 + bits && h[0] == 0xFB && h[1] == schema.messageId % 256 && h[2] == schema.messageId / 256
      && h[3] == sequence % 256 && h[4] == sequence / 256 && h[5] == bits
      && forall i: nat :: i < bits ==> h[6 + i] == Pack(flags)[i]
  {
    TwoBytes(schema.messageId);
    TwoBytes(sequence);
    hide LE, Pack;
  }

  lemma DeltaIsHeaderAndBody(schema: SchemaDef, previous: Payload, current: Payload, sequence: u16)
    requires DeltaBody(schema.fields, previous, current).Some?
    ensures BuildDelta(schema, previous, current, sequence)
      == Some(DeltaHeader(schema, sequence, ChangedFlags(schema.fields, previous, current))
              + DeltaBody(schema.fields, previous, current).value)
  {
    hide DeltaHeader, DeltaBody, ChangedFlags;
  }

  lemma ChangeAt(fields: seq<FieldDef>, previous: Payload, current: Payload, k: nat, d: seq<byte>, front: nat)
    requires k < |fields| && Deltable(fields, previous, current) && Changed(previous, current, fields[k].name)
    requires DeltaBody(fields, previous, current).Some? && front <= |d|
    requires d[front..] == DeltaBody(fields, previous, current).value
    ensures fields[k].name in previous && fields[k].name in current
    ensures DeltaFieldAt(d, front + DeltaStart(fields, previous, current, k), previous[fields[k].name],
                         current[fields[k].name])
  {
    hide *;
    DeltaFrom(fields, previous, current, k);
    var body, start, rest := d[front..], DeltaStart(fields, previous, current, k), fields[k..];
    assert rest[0] == fields[k] && rest[1..] == fields[k + 1..];
    DeltableFirst(rest, previous, current);
    BodyUnfolds(rest, previous, current);
    var name := fields[k].name;
    var wire := DeltaField(fields[k], previous[name], current[name]);
    DropTwice(d, front, start);
    var tail := d[front + start..];
    assert tail[..|wire|] == wire;
    assert d[front + start..front + start + |wire|] == tail[..|wire|];
    DeltaFieldForm(fields[k], previous[name], current[name], d, front + start);
  }

  // Batches and envelopes.

  /** Where packet k of a batch stands, its length first. */
  function PartStart(packets: seq<Packet>, k: nat): nat
    requires k <= |packets|
  {
    if k == 0 then 2 else PartStart(packets, k - 1) + 2 + |packets[k - 1]|
  }

  lemma {:induction false} PartsConcat(a: seq<Packet>, b: seq<Packet>)
    ensures Parts(a + b) == Parts(a) + Parts(b)
    decreases |a|
  {
    hide LE;
    if a == [] {
      assert a + b == b && [] + Parts(b) == Parts(b);
    } else {
      PartsConcat(a[1..], b);
      assert (a + b)[1..] == a[1..] + b;
      Assoc(LE(|a[0]|, 2) + a[0], Parts(a[1..]), Parts(b));
    }
  }

  lemma {:induction false} PartsLength(packets: seq<Packet>, k: nat)
    requires k <= |packets|
    ensures 2 + |Parts(packets[..k])| == PartStart(packets, k)
    decreases k
  {
    if k > 0 {
      PartsLength(packets, k - 1);
      assert packets[..k] == packets[..k - 1] + [packets[k - 1]];
      PartsConcat(packets[..k - 1], [packets[k - 1]]);
      OnePart(packets[k - 1]);
      hide Parts;
    }
  }

  lemma OnePart(p: Packet)
    ensures Parts([p]) == LE(|p|, 2) + p
  {
    hide LE;
    assert [p][1..] == [] && Parts([]) == [];
    assert LE(|p|, 2) + p + [] == LE(|p|, 2) + p;
  }

  /** A batch by position: marker, count, and every packet behind its 16-bit length. */
  lemma BatchForm(packets: seq<Packet>, k: nat)
    requires k < |packets| <= 255
    ensures var d := BuildBatch(packets);
      && |d| == PartStart(packets, |packets|) && d[0] == 0xFC && d[1] == |packets|
      && CountedAt(d, PartStart(packets, k), packets[k])
  {
    hide *;
    var d, at, p := BuildBatch(packets), PartStart(packets, k), packets[k];
    BatchBytes(packets);
    PartsLength(packets, k);
    PartsLength(packets, |packets|);
    assert packets[..|packets|] == packets && packets == packets[..k] + ([p] + packets[k + 1..]);
    PartsConcat(packets[..k], [p] + packets[k + 1..]);
    PartsConcat([p], packets[k + 1..]);
    OnePart(p);
    var front, own := Parts(packets[..k]), LE(|p|, 2) + p;
    Between(front, own, Parts(packets[k + 1..]));
    assert d[at..at + |own|] == d[2..][|front|..|front| + |own|];
    LECountedAt(d, at, p);
  }

  lemma BatchBytes(packets: seq<Packet>)
    requires |packets| <= 255
    ensures var d := BuildBatch(packets);
      |d| == 2 + |Parts(packets)| && d[0] == 0xFC && d[1] == |packets| && d[2..] == Parts(packets)
  {
    hide Parts;
  }

  /** An envelope by position: marker, four bytes of checksum, the packet; packet and checksum sum to the residue. */
  lemma EnvelopeForm(p: Packet)
    ensures var d := Wrap(p);
      |d| == 5 + |p| && d[0] == 0xF9 && d[5..] == p && Crc32(p + d[1..5]) == 0x2144DF1C
    ensures var d, c := Wrap(p), Crc32(p);
      && Data(d[1]) == c & 0xFF && Data(d[2]) == (c >> 8) & 0xFF
      && Data(d[3]) == (c >> 16) & 0xFF && Data(d[4]) == (c >> 24) & 0xFF
  {
    Residue(p);
    BytesOfSum(Crc32(p));
    hide Crc32, CrcBytes, Data;
    EnvelopeParts(CrcBytes(Crc32(p)), p);
  }
}
