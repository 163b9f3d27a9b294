/**
 * Stateful delta packets: 0xFB, id (2), sequence (2), bitmap size, bitmap, then the changed fields.
 * 16- and 32-bit integers travel as a tag and a signed difference, or raw when the difference does not fit.
 */
module Delta {
  import opened Wire
  import opened Bits
  import opened Schema
  import opened Codec

  const DELTA: byte := 0xFB

  // Equality of values as the stream compares them: floats by IEEE comparison, everything else by content.

  predicate NotANumber(t: FieldType, bits: int)
  {
    match t
    case F32 => bits / 8388608 % 256 == 255 && bits % 8388608 != 0
    case F64 => bits / 4503599627370496 % 2048 == 2047 && bits % 4503599627370496 != 0
    case _ => false
  }

  predicate FloatZero(v: FieldValue)
  {
    v.Number? && v.ntype.Float() && (v.n == 0 || v.n == v.ntype.Modulus() / 2)
  }

  predicate ValueEq(a: FieldValue, b: FieldValue)
  {
    if a.Number? && b.Number? && a.ntype == b.ntype && a.ntype.Float() then
      !NotANumber(a.ntype, a.n) && !NotANumber(b.ntype, b.n) && (a == b || (FloatZero(a) && FloatZero(b)))
    else a == b
  }

  /** Identical, or the two zeros of one float type. */
  predicate Same(a: FieldValue, b: FieldValue)
  {
    a == b || (FloatZero(a) && FloatZero(b) && a.Type() == b.Type())
  }

  predicate Changed(previous: Payload, current: Payload, name: string)
  {
    name !in previous || name !in current
    || previous[name].Type() != current[name].Type() || !ValueEq(previous[name], current[name])
  }

  predicate PayloadEquals(a: Payload, b: Payload)
  {
    |a| == |b| && forall name :: name in a ==> !Changed(a, b, name)
  }

  // Writing.

  function AsInt(v: FieldValue): int { if v.Number? && !v.ntype.Float() then v.n else 0 }

  function Tagged(size: nat, delta: int, current: int): seq<byte>
  {
    if I8.Holds(delta) then [0] + LE(delta, 1)
    else if I16.Holds(delta) then [1] + LE(delta, 2)
    else if size == 4 && I32.Holds(delta) then [2] + LE(delta, 4)
    else [3] + LE(current, size)
  }

  function NumericDelta(previous: FieldValue, current: FieldValue): seq<byte>
    requires current.Number?
  {
    match current.ntype
    case U8 | I8 => LE(current.n, 1)
    case U16 | I16 => Tagged(2, current.n - AsInt(previous), current.n)
    case U32 | I32 => Tagged(4, current.n - AsInt(previous), current.n)
    case F32 => LE(current.n, 4)
    case F64 => LE(current.n, 8)
    case String | Bytes => []
  }

  function DeltaField(f: FieldDef, previous: FieldValue, current: FieldValue): seq<byte>
  {
    if f.ftype.Variable() then if current.Number? then [] else PlainValue(current)
    else if current.Number? then NumericDelta(previous, current) else []
  }

  function ChangedFlags(fields: seq<FieldDef>, previous: Payload, current: Payload): (flags: seq<bool>)
    ensures |flags| == |fields|
  {
    seq(|fields|, i requires 0 <= i < |fields| => Changed(previous, current, fields[i].name))
  }

  /** None when a changed field is absent on one side. */
  function DeltaBody(fields: seq<FieldDef>, previous: Payload, current: Payload): Option<seq<byte>>
  {
    if fields == [] then Some([])
    else
      var name := fields[0].name;
      var rest := DeltaBody(fields[1..], previous, current);
      if !Changed(previous, current, name) then rest
      else if name !in previous || name !in current || rest.None? then None
      else Some(DeltaField(fields[0], previous[name], current[name]) + rest.value)
  }

  function DeltaHeader(schema: SchemaDef, sequence: u16, flags: seq<bool>): seq<byte>
  {
    [DELTA] + LE(schema.messageId, 2) + LE(sequence, 2) + [BitmapSize(|flags|) % 256] + Pack(flags)
  }

  function BuildDelta(schema: SchemaDef, previous: Payload, current: Payload, sequence: u16): Option<seq<byte>>
  {
    match DeltaBody(schema.fields, previous, current)
    case None => None
    case Some(body) => Some(DeltaHeader(schema, sequence, ChangedFlags(schema.fields, previous, current)) + body)
  }

  // Reading. A read past the end throws in the original; nothing on this path catches it.

  datatype DeltaRead = Took(value: FieldValue, used: nat) | BadField | Threw

  function TagWidth(size: nat, tag: byte): nat
  {
    if tag == 0 then 1 else if tag == 1 then 2 else if tag == 2 && size == 4 then 4 else if tag == 3 then size else 0
  }

  function SignExtend(raw: int, width: nat): int
  {
    if width == 1 then I8.Cast(raw) else if width == 2 then I16.Cast(raw) else I32.Cast(raw)
  }

  function ReadTagged(t: FieldType, previous: int, d: seq<byte>): DeltaRead
    requires !t.Variable()
  {
    if d == [] then Threw
    else
      var width := TagWidth(t.Size(), d[0]);
      if width == 0 then BadField
      else if |d| < 1 + width then Threw
      else
        var raw := FromLE(d[1..1 + width]);
        Took(Number(t, t.Cast(if d[0] == 3 then raw else previous + SignExtend(raw, width))), 1 + width)
  }

  function ReadNumeric(previous: FieldValue, d: seq<byte>): DeltaRead
  {
    if !previous.Number? || previous.ntype.Variable() then BadField
    else
      var t := previous.ntype;
      if t.U16? || t.I16? || t.U32? || t.I32? then ReadTagged(t, previous.n, d)
      else if |d| < t.Size() then Threw
      else Took(Number(t, t.Cast(FromLE(d[..t.Size()]))), t.Size())
  }

  function ReadDeltaField(f: FieldDef, previous: FieldValue, d: seq<byte>): (r: DeltaRead)
    ensures r.Took? ==> r.used <= |d|
  {
    if !f.ftype.Variable() then ReadNumeric(previous, d)
    else if |d| < 2 || |d| < 2 + Word(d) then Threw
    else
      var body := d[2..2 + Word(d)];
      Took(if f.ftype.String? then Text(body) else Blob(body), 2 + Word(d))
  }

  datatype Expansion = Expanded(full: seq<byte>, merged: Payload) | Refused | Exception

  /** The new value of every field in schema order, and the bytes left over. */
  datatype Grown = Grown(values: seq<FieldValue>, rest: seq<byte>) | Stopped(threw: bool)

  function Grow(fields: seq<FieldDef>, flags: seq<bool>, previous: Payload, d: seq<byte>): (g: Grown)
    requires |flags| == |fields|
    ensures g.Grown? ==> |g.values| == |fields|
  {
    if fields == [] then Grown([], d)
    else if fields[0].name !in previous then Stopped(false)
    else
      var base := previous[fields[0].name];
      var r := if flags[0] then ReadDeltaField(fields[0], base, d) else Took(base, 0);
      match r
      case BadField => Stopped(false)
      case Threw => Stopped(true)
      case Took(v, used) =>
        match Grow(fields[1..], flags[1..], previous, d[used..])
        case Stopped(threw) => Stopped(threw)
        case Grown(values, rest) => Grown([v] + values, rest)
  }

  function Overlay(fields: seq<FieldDef>, flags: seq<bool>, previous: Payload, values: seq<FieldValue>): Payload
    requires |flags| == |fields| == |values|
  {
    if fields == [] then previous
    else
      var last := |fields| - 1;
      var front := Overlay(fields[..last], flags[..last], previous, values[..last]);
      if flags[last] then front[fields[last].name := values[last]] else front
  }

  /** Bits past the end of the packet read as clear; see README for what the original does there. */
  function ExpandDelta(schema: SchemaDef, packet: seq<byte>, last: Option<Payload>, expected: u16): Expansion
  {
    if |packet| < 6 || packet[0] != DELTA || Word(packet[1..]) != schema.messageId
       || |packet| < 6 + packet[5] as int || last.None? || Word(packet[3..]) != expected
    then Refused
    else
      var flags := Flags(packet[6..], |schema.fields|);
      match Grow(schema.fields, flags, last.value, packet[6 + packet[5] as int..])
      case Stopped(threw) => if threw then Exception else Refused
      case Grown(values, rest) =>
        if rest != [] then Refused
        else Expanded(PlainPacket(schema, values), Overlay(schema.fields, flags, last.value, values))
  }

  // What reading a written field gives, whatever the receiver's base.

  lemma SmallRead(t: FieldType, n: int, width: nat, suffix: seq<byte>)
    requires (t == I8 && width == 1) || (t == I16 && width == 2) || (t == I32 && width == 4)
    requires t.Holds(n)
    ensures (LE(n, width) + suffix)[..width] == LE(n, width) && SignExtend(FromLE(LE(n, width)), width) == n
  {
    NumberRoundTrip(t, n);
  }

  lemma TagRead(t: FieldType, base: int, tag: byte, body: seq<byte>, suffix: seq<byte>)
    requires !t.Variable() && body != [] && TagWidth(t.Size(), tag) == |body|
    ensures var n := if tag == 3 then FromLE(body) else base + SignExtend(FromLE(body), |body|);
      ReadTagged(t, base, [tag] + body + suffix) == Took(Number(t, t.Cast(n)), 1 + |body|)
  {
    assert ([tag] + body + suffix)[1..1 + |body|] == body;
  }

  /** A change that travels as a difference rather than as the new value. */
  predicate AsDifference(t: FieldType, delta: int)
  {
    || ((t.U16? || t.I16?) && I16.Holds(delta))
    || ((t.U32? || t.I32?) && I32.Holds(delta))
  }

  /** The tag and the bytes that follow it. */
  lemma TaggedIs(size: nat, delta: int, current: int)
    ensures Tagged(size, delta, current)
      == if I8.Holds(delta) then [0] + LE(delta, 1)
         else if I16.Holds(delta) then [1] + LE(delta, 2)
         else if size == 4 && I32.Holds(delta) then [2] + LE(delta, 4) else [3] + LE(current, size)
  {
    hide FieldType.Holds, LE;
  }

  lemma TaggedTypes(t: FieldType, delta: int)
    requires t in {U16, I16, U32, I32}
    ensures t.Size() == if t in {U16, I16} then 2 else 4
    ensures !t.Variable()
    ensures I8 != I16 && I8 != I32 && !I8.Variable() && !I16.Variable() && !I32.Variable()
    ensures AsDifference(t, delta) <==> I8.Holds(delta) || I16.Holds(delta) || (t.Size() == 4 && I32.Holds(delta))
  {
  }

  lemma TagWidths(size: nat)
    ensures TagWidth(size, 0) == 1 && TagWidth(size, 1) == 2 && TagWidth(size, 3) == size
    ensures size == 4 ==> TagWidth(size, 2) == 4
  {
  }

  /** Reading a tagged number adds the difference to the reader's own base, or takes the value as it is. */
  lemma TaggedReads(t: FieldType, base: int, previous: int, current: int, suffix: seq<byte>)
    requires t in {U16, I16, U32, I32} && t.Holds(current)
    ensures var delta := current - previous;
      var wire := Tagged(t.Size(), delta, current);
      ReadTagged(t, base, wire + suffix)
        == Took(Number(t, if AsDifference(t, delta) then t.Cast(base + delta) else current), |wire|)
  {
    var delta, size := current - previous, t.Size();
    hide *;
    TaggedIs(size, delta, current);
    TaggedTypes(t, delta);
    TagWidths(size);
    if I8.Holds(delta) {
      SmallRead(I8, delta, 1, []);
      TagRead(t, base, 0, LE(delta, 1), suffix);
    } else if I16.Holds(delta) {
      SmallRead(I16, delta, 2, []);
      TagRead(t, base, 1, LE(delta, 2), suffix);
    } else if size == 4 && I32.Holds(delta) {
      SmallRead(I32, delta, 4, []);
      TagRead(t, base, 2, LE(delta, 4), suffix);
    } else {
      NumberRoundTrip(t, current);
      TagRead(t, base, 3, LE(current, size), suffix);
    }
  }

  /** Against the writer's own previous value it gives back the current one, for every pair of values in range. */
  lemma TaggedReadsBack(t: FieldType, previous: int, current: int, suffix: seq<byte>)
    requires t in {U16, I16, U32, I32} && t.Holds(current)
    ensures var wire := Tagged(t.Size(), current - previous, current);
      ReadTagged(t, previous, wire + suffix) == Took(Number(t, current), |wire|)
  {
    TaggedReads(t, previous, previous, current, suffix);
  }

  /** The value a receiver holding `base` reads for a changed field. */
  function Rebased(base: FieldValue, previous: FieldValue, current: FieldValue): FieldValue
  {
    if current.Number? && AsDifference(current.ntype, current.n - AsInt(previous))
    then Number(current.ntype, current.ntype.Cast(AsInt(base) + current.n - AsInt(previous)))
    else current
  }

  lemma NumericReads(base: FieldValue, previous: FieldValue, current: FieldValue, suffix: seq<byte>)
    requires current.Number? && !current.ntype.Variable() && current.ntype.Holds(current.n)
    requires base.Type() == current.ntype
    ensures var wire := NumericDelta(previous, current);
      ReadNumeric(base, wire + suffix) == Took(Rebased(base, previous, current), |wire|)
  {
    hide FieldType.Holds, Rebased, ReadNumeric, NumericDelta;
    if current.ntype in {U16, I16, U32, I32} {
      TaggedNumberReads(base, previous, current, suffix);
    } else {
      RawNumberReads(base, previous, current, suffix);
    }
  }

  lemma TaggedNumberReads(base: FieldValue, previous: FieldValue, current: FieldValue, suffix: seq<byte>)
    requires current.Number? && current.ntype in {U16, I16, U32, I32} && current.ntype.Holds(current.n)
    requires base.Type() == current.ntype
    ensures var wire := NumericDelta(previous, current);
      ReadNumeric(base, wire + suffix) == Took(Rebased(base, previous, current), |wire|)
  {
    hide *;
    TaggedReads(current.ntype, AsInt(base), AsInt(previous), current.n, suffix);
    NumericIs(base, previous, current);
    ReadNumericIs(base, current.ntype, NumericDelta(previous, current) + suffix);
  }

  lemma NumericIs(base: FieldValue, previous: FieldValue, current: FieldValue)
    requires current.Number? && current.ntype in {U16, I16, U32, I32}
    ensures var t, delta := current.ntype, current.n - AsInt(previous);
      && NumericDelta(previous, current) == Tagged(t.Size(), delta, current.n)
      && Rebased(base, previous, current)
         == Number(t, if AsDifference(t, delta) then t.Cast(AsInt(base) + delta) else current.n)
  {
    hide Tagged, AsDifference, FieldType.Cast, AsInt;
  }

  lemma ReadNumericIs(base: FieldValue, t: FieldType, d: seq<byte>)
    requires t in {U16, I16, U32, I32} && base.Type() == t
    ensures ReadNumeric(base, d) == ReadTagged(t, AsInt(base), d)
  {
    hide ReadTagged;
  }

  lemma RawNumberReads(base: FieldValue, previous: FieldValue, current: FieldValue, suffix: seq<byte>)
    requires current.Number? && current.ntype in {U8, I8, F32, F64} && current.ntype.Holds(current.n)
    requires base.Type() == current.ntype
    ensures var wire := NumericDelta(previous, current);
      ReadNumeric(base, wire + suffix) == Took(Rebased(base, previous, current), |wire|)
  {
    var t := current.ntype;
    NumberRoundTrip(t, current.n);
    hide LE, FromLE, FieldType.Holds, FieldType.Cast;
    SplitAt(LE(current.n, t.Size()) + suffix, LE(current.n, t.Size()), suffix);
    assert NumericDelta(previous, current) == LE(current.n, t.Size());
  }

  lemma FieldReads(f: FieldDef, base: FieldValue, previous: FieldValue, current: FieldValue, suffix: seq<byte>)
    requires Carried(f, current) && base.Type() == f.ftype
    ensures var wire := DeltaField(f, previous, current);
      ReadDeltaField(f, base, wire + suffix) == Took(Rebased(base, previous, current), |wire|)
  {
    hide NumericDelta, ReadNumeric;
    match current
    case Number(_, _) => NumericReads(base, previous, current, suffix);
    case Text(s) => CountedReadsBack(s, suffix);
    case Blob(b) => CountedReadsBack(b, suffix);
  }

  /** A receiver whose value is the sender's previous one, up to a zero sign, reads the current one. */
  lemma FieldReadsBack(f: FieldDef, base: FieldValue, previous: FieldValue, current: FieldValue, suffix: seq<byte>)
    requires Carried(f, current) && previous.Type() == f.ftype && Same(base, previous)
    ensures var wire := DeltaField(f, previous, current);
      ReadDeltaField(f, base, wire + suffix) == Took(current, |wire|)
  {
    FieldReads(f, base, previous, current, suffix);
    hide ReadDeltaField, DeltaField;
    RebasedOnSame(f, base, previous, current);
  }

  lemma RebasedOnSame(f: FieldDef, base: FieldValue, previous: FieldValue, current: FieldValue)
    requires Carried(f, current) && previous.Type() == f.ftype && Same(base, previous)
    ensures Rebased(base, previous, current) == current
  {
  }

  /** The exact condition: a difference needs the sender's previous value as its base, a new value needs nothing. */
  lemma RebasedExactly(f: FieldDef, base: FieldValue, previous: FieldValue, current: FieldValue)
    requires Carried(f, base) && Carried(f, previous) && Carried(f, current)
    ensures Rebased(base, previous, current) == current
      <==> (current.Number? && AsDifference(current.ntype, current.n - AsInt(previous)) ==> base == previous)
    ensures Carried(f, Rebased(base, previous, current))
    ensures Rebased(base, previous, current) == current || !FloatZero(current)
  {
    hide FieldType.Cast, FieldType.Holds;
    DifferenceTypes(current);
    hide AsDifference;
    if current.Number? && AsDifference(current.ntype, current.n - AsInt(previous)) {
      CastExactly(current.ntype, base.n, previous.n, current.n);
    }
  }

  lemma DifferenceTypes(v: FieldValue)
    ensures forall delta: int :: v.Number? && AsDifference(v.ntype, delta) ==> v.ntype in {U16, I16, U32, I32}
  {
  }

  /** Reduction modulo a power of two, for a number that is off by less than two turns. */
  lemma Reduce(v: int, m: int)
    requires (m == 65536 || m == 4294967296) && -2 * m <= v < 2 * m
    ensures v % m == if v < -m then v + 2 * m else if v < 0 then v + m else if v < m then v else v - m
  {
  }

  lemma CastIs(t: FieldType, v: int)
    requires t in {U16, I16, U32, I32}
    ensures t.Modulus() == 65536 || t.Modulus() == 4294967296
    ensures var m := t.Modulus();
      t.Cast(v) == if t.Signed() && v % m >= m / 2 then v % m - m else v % m
    ensures var m := t.Modulus();
      t.Holds(v) <==> if t.Signed() then -(m as int / 2) <= v < m / 2 else 0 <= v < m
  {
  }

  /** Adding the same difference gives the same number only from the same number. */
  lemma CastExactly(t: FieldType, base: int, previous: int, current: int)
    requires t in {U16, I16, U32, I32} && t.Holds(base) && t.Holds(previous) && t.Holds(current)
    ensures t.Cast(base + current - previous) == current <==> base == previous
  {
    hide *;
    CastIs(t, base + current - previous);
    CastIs(t, base);
    CastIs(t, previous);
    CastIs(t, current);
    TurnsExactly(t.Modulus(), t.Signed(), base, previous, current);
  }

  lemma TurnsExactly(m: int, signed: bool, base: int, previous: int, current: int)
    requires m == 65536 || m == 4294967296
    requires if signed then -(m / 2) <= base < m / 2 else 0 <= base < m
    requires if signed then -(m / 2) <= previous < m / 2 else 0 <= previous < m
    requires if signed then -(m / 2) <= current < m / 2 else 0 <= current < m
    ensures var low := (base + current - previous) % m;
      (if signed && low >= m / 2 then low - m else low) == current <==> base == previous
  {
    Reduce(base + current - previous, m);
  }

  // Round trip of a packet.

  /** What a receiver holding `base` ends up with: the new value of every changed field, its own value of the others. */
  function Merge(fields: seq<FieldDef>, base: Payload, previous: Payload, current: Payload): (values: seq<FieldValue>)
    requires forall i :: 0 <= i < |fields| ==> fields[i].name in base && fields[i].name in current
    ensures |values| == |fields|
  {
    seq(|fields|, i requires 0 <= i < |fields| =>
      if Changed(previous, current, fields[i].name) then current[fields[i].name] else base[fields[i].name])
  }

  /** A payload of the schema whose values the wire can carry and whose lengths are within the limits. */
  predicate Sendable(fields: seq<FieldDef>, p: Payload)
  {
    Fits(fields, p) && AllCarried(fields, Ordered(fields, p)) && Validated(fields, Ordered(fields, p))
  }

  predicate SamePayload(fields: seq<FieldDef>, a: Payload, b: Payload)
  {
    Fits(fields, a) && Fits(fields, b)
    && forall i :: 0 <= i < |fields| ==> Same(a[fields[i].name], b[fields[i].name])
  }

  /** What a receiver holding any `base` of the schema ends up with. */
  function Rebase(fields: seq<FieldDef>, base: Payload, previous: Payload, current: Payload): (values: seq<FieldValue>)
    requires forall i :: 0 <= i < |fields| ==>
      fields[i].name in base && fields[i].name in previous && fields[i].name in current
    ensures |values| == |fields|
  {
    seq(|fields|, i requires 0 <= i < |fields| =>
      var name := fields[i].name;
      if Changed(previous, current, name) then Rebased(base[name], previous[name], current[name]) else base[name])
  }

  lemma {:induction false} GrowOfBody(fields: seq<FieldDef>, base: Payload, previous: Payload, current: Payload)
    requires forall i :: 0 <= i < |fields| ==>
      && fields[i].name in base && fields[i].name in previous && fields[i].name in current
      && Carried(fields[i], current[fields[i].name]) && base[fields[i].name].Type() == fields[i].ftype
    ensures DeltaBody(fields, previous, current).Some?
    ensures Grow(fields, ChangedFlags(fields, previous, current), base, DeltaBody(fields, previous, current).value)
      == Grown(Rebase(fields, base, previous, current), [])
    decreases |fields|
  {
    hide Changed, ReadDeltaField, DeltaField, Rebased;
    if fields == [] {
      assert Rebase(fields, base, previous, current) == [];
    } else {
      var f, flags := fields[0], ChangedFlags(fields, previous, current);
      GrowOfBody(fields[1..], base, previous, current);
      var rest := DeltaBody(fields[1..], previous, current).value;
      var values := Rebase(fields, base, previous, current);
      assert flags[1..] == ChangedFlags(fields[1..], previous, current);
      assert values == [values[0]] + Rebase(fields[1..], base, previous, current);
      if flags[0] {
        var wire := DeltaField(f, previous[f.name], current[f.name]);
        FieldReads(f, base[f.name], previous[f.name], current[f.name], rest);
        SplitAt(wire + rest, wire, rest);
      }
    }
  }

  /** Over a base that is the sender's previous payload up to zero signs, this is the merge. */
  lemma RebaseIsMerge(fields: seq<FieldDef>, base: Payload, previous: Payload, current: Payload)
    requires Sendable(fields, previous) && Sendable(fields, current) && SamePayload(fields, base, previous)
    ensures Rebase(fields, base, previous, current) == Merge(fields, base, previous, current)
  {
    PayloadsLineUp(fields, base, previous, current);
    hide Changed, Rebased, Same, Sendable, Carried;
    forall i | 0 <= i < |fields|
      ensures Rebase(fields, base, previous, current)[i] == Merge(fields, base, previous, current)[i]
    {
      var name := fields[i].name;
      RebasedOnSame(fields[i], base[name], previous[name], current[name]);
    }
  }

  /** The unchanged values are right in the base, and so is every value a difference is added to. */
  predicate Serves(fields: seq<FieldDef>, base: Payload, previous: Payload, current: Payload)
    requires forall i :: 0 <= i < |fields| ==>
      fields[i].name in base && fields[i].name in previous && fields[i].name in current
  {
    forall i :: 0 <= i < |fields| ==> ServesField(base, previous, current, fields[i].name)
  }

  predicate ServesField(base: Payload, previous: Payload, current: Payload, name: string)
    requires name in base && name in previous && name in current
  {
    var v := current[name];
    if !Changed(previous, current, name) then Same(base[name], v)
    else v.Number? && AsDifference(v.ntype, v.n - AsInt(previous[name])) ==> base[name] == previous[name]
  }

  lemma {:induction false} OverlayAt(fields: seq<FieldDef>, flags: seq<bool>, previous: Payload,
                                     values: seq<FieldValue>, i: nat)
    requires |flags| == |fields| == |values| && i < |fields| && Distinct(fields)
    requires forall k :: 0 <= k < |fields| ==> fields[k].name in previous
    requires !flags[i] ==> values[i] == previous[fields[i].name]
    ensures var m := Overlay(fields, flags, previous, values); fields[i].name in m && m[fields[i].name] == values[i]
    decreases |fields|
  {
    var last := |fields| - 1;
    if i < last {
      OverlayAt(fields[..last], flags[..last], previous, values[..last], i);
    } else if !flags[last] {
      OverlayElsewhere(fields[..last], flags[..last], previous, values[..last], fields[last].name);
    }
  }

  lemma {:induction false} OverlayElsewhere(fields: seq<FieldDef>, flags: seq<bool>, previous: Payload,
                                            values: seq<FieldValue>, name: string)
    requires |flags| == |fields| == |values| && name in previous
    requires forall k :: 0 <= k < |fields| ==> fields[k].name != name
    ensures var m := Overlay(fields, flags, previous, values); name in m && m[name] == previous[name]
    decreases |fields|
  {
    if fields != [] {
      var last := |fields| - 1;
      OverlayElsewhere(fields[..last], flags[..last], previous, values[..last], name);
    }
  }

  lemma {:induction false} OverlayKeys(fields: seq<FieldDef>, flags: seq<bool>, previous: Payload,
                                       values: seq<FieldValue>)
    requires |flags| == |fields| == |values|
    requires forall k :: 0 <= k < |fields| ==> fields[k].name in previous
    ensures Overlay(fields, flags, previous, values).Keys == previous.Keys
    decreases |fields|
  {
    if fields != [] {
      var last := |fields| - 1;
      OverlayKeys(fields[..last], flags[..last], previous, values[..last]);
    }
  }

  lemma OverlayIsNamed(fields: seq<FieldDef>, flags: seq<bool>, previous: Payload, values: seq<FieldValue>)
    requires |flags| == |fields| == |values| && Distinct(fields) && Fits(fields, previous)
    requires forall i :: 0 <= i < |fields| && !flags[i] ==> values[i] == previous[fields[i].name]
    ensures Overlay(fields, flags, previous, values) == Named(fields, values)
  {
    OverlayKeys(fields, flags, previous, values);
    NamedKeys(fields, values);
    var m := Overlay(fields, flags, previous, values);
    forall name | name in m ensures m[name] == Named(fields, values)[name] {
      var i :| 0 <= i < |fields| && fields[i].name == name;
      OverlayAt(fields, flags, previous, values, i);
      NamedAt(fields, values, i);
    }
  }

  lemma HeaderParts(schema: SchemaDef, sequence: u16, flags: seq<bool>, body: seq<byte>)
    requires |flags| <= 2040
    ensures var p := DeltaHeader(schema, sequence, flags) + body; var size := BitmapSize(|flags|);
      && |p| == 6 + size + |body| && p[0] == DELTA && p[5] == size
      && Word(p[1..]) == schema.messageId && Word(p[3..]) == sequence
      && Flags(p[6..], |flags|) == flags && p[6 + size..] == body
  {
    var p, size := DeltaHeader(schema, sequence, flags) + body, BitmapSize(|flags|);
    assert size % 256 == size;
    assert p[1..] == LE(schema.messageId, 2) + p[3..];
    assert p[3..] == LE(sequence, 2) + p[5..];
    WordRoundTrip(schema.messageId, p[3..]);
    WordRoundTrip(sequence, p[5..]);
    assert p[6..] == Pack(flags) + body;
    forall k | 0 <= k < |flags| ensures Flags(p[6..], |flags|)[k] == flags[k] {
      PackMeaning(flags, k);
      assert p[6..][k / 8] == Pack(flags)[k / 8];
    }
  }

  /**
   * Whatever payload of the schema the receiver holds, a delta with the matching sequence number expands, and to
   * exactly this: unchanged fields of the base, and the changed ones as they read against it.
   */
  lemma DeltaOverBase(schema: SchemaDef, base: Payload, previous: Payload, current: Payload, sequence: u16)
    requires ValidSchema(schema) && |schema.fields| <= 2040
    requires Sendable(schema.fields, previous) && Sendable(schema.fields, current) && Fits(schema.fields, base)
    ensures BuildDelta(schema, previous, current, sequence).Some?
    ensures var values := Rebase(schema.fields, base, previous, current);
      ExpandDelta(schema, BuildDelta(schema, previous, current, sequence).value, Some(base), sequence)
        == Expanded(PlainPacket(schema, values), Named(schema.fields, values))
  {
    var fields := schema.fields;
    var flags := ChangedFlags(fields, previous, current);
    CarriedEach(fields, previous);
    CarriedEach(fields, current);
    hide Carried;
    GrowOfBody(fields, base, previous, current);
    hide Grow, DeltaBody, Flags, Rebased, Changed, DeltaHeader, PlainPacket, Overlay, ExpandDelta, Sendable;
    var body := DeltaBody(fields, previous, current).value;
    HeaderParts(schema, sequence, flags, body);
    var values := Rebase(fields, base, previous, current);
    ExpandParts(schema, DeltaHeader(schema, sequence, flags) + body, base, sequence, flags, body, values);
    OverlayIsNamed(fields, flags, base, values);
  }

  /**
   * Delta round trip: with the matching sequence number and a base equal to the sender's up to the sign of a
   * float zero, the packet expands, the merged payload has the new value of every changed field and the
   * receiver's own value of the others, and the rebuilt full packet is the plain packet of those values.
   */
  lemma DeltaRoundTrip(schema: SchemaDef, base: Payload, previous: Payload, current: Payload, sequence: u16)
    requires ValidSchema(schema) && |schema.fields| <= 2040
    requires Sendable(schema.fields, previous) && Sendable(schema.fields, current)
    requires SamePayload(schema.fields, base, previous)
    ensures BuildDelta(schema, previous, current, sequence).Some?
    ensures var values := Merge(schema.fields, base, previous, current);
      ExpandDelta(schema, BuildDelta(schema, previous, current, sequence).value, Some(base), sequence)
        == Expanded(PlainPacket(schema, values), Named(schema.fields, values))
  {
    hide BuildDelta, ExpandDelta, PlainPacket, Sendable, Merge, Rebase, Same;
    DeltaOverBase(schema, base, previous, current, sequence);
    RebaseIsMerge(schema.fields, base, previous, current);
  }

  lemma CarriedEach(fields: seq<FieldDef>, p: Payload)
    requires Sendable(fields, p)
    ensures Fits(fields, p)
    ensures forall i :: 0 <= i < |fields| ==> fields[i].name in p && Carried(fields[i], p[fields[i].name])
    ensures forall i :: 0 <= i < |fields| ==> fields[i].name in p && WithinLimit(fields[i], p[fields[i].name])
  {
    hide Carried, WithinLimit;
    forall i | 0 <= i < |fields|
      ensures Carried(fields[i], p[fields[i].name]) && WithinLimit(fields[i], p[fields[i].name])
    {
      assert Ordered(fields, p)[i] == p[fields[i].name];
    }
  }

  lemma PayloadsLineUp(fields: seq<FieldDef>, base: Payload, previous: Payload, current: Payload)
    requires Sendable(fields, previous) && Sendable(fields, current) && SamePayload(fields, base, previous)
    ensures forall i :: 0 <= i < |fields| ==>
      && fields[i].name in base && fields[i].name in previous && fields[i].name in current
      && Carried(fields[i], current[fields[i].name]) && Carried(fields[i], previous[fields[i].name])
      && Same(base[fields[i].name], previous[fields[i].name])
  {
    CarriedEach(fields, previous);
    CarriedEach(fields, current);
    hide Carried, Sendable;
  }

  lemma ExpandParts(schema: SchemaDef, p: seq<byte>, base: Payload, sequence: u16, flags: seq<bool>, body: seq<byte>,
                    values: seq<FieldValue>)
    requires |flags| == |schema.fields| == |values|
    requires |p| >= 6 && p[0] == DELTA && Word(p[1..]) == schema.messageId && Word(p[3..]) == sequence
    requires |p| >= 6 + p[5] as int && p[6 + p[5] as int..] == body && Flags(p[6..], |flags|) == flags
    requires Grow(schema.fields, flags, base, body) == Grown(values, [])
    ensures ExpandDelta(schema, p, Some(base), sequence)
      == Expanded(PlainPacket(schema, values), Overlay(schema.fields, flags, base, values))
  {
  }

  /** Values that may be carried make a payload that may be sent, with these values. */
  lemma NamedSendable(fields: seq<FieldDef>, values: seq<FieldValue>)
    requires Distinct(fields) && |values| == |fields|
    requires forall i :: 0 <= i < |fields| ==> Carried(fields[i], values[i]) && WithinLimit(fields[i], values[i])
    ensures var m := Named(fields, values);
      Fits(fields, m) && Sendable(fields, m) && Ordered(fields, m) == values
  {
    hide WithinLimit, Distinct, Named;
    forall i | 0 <= i < |fields| ensures values[i].Type() == fields[i].ftype {
      assert Carried(fields[i], values[i]);
    }
    hide Carried, FieldValue.Type;
    OrderedOfNamed(fields, values);
    hide Fits;
    assert AllCarried(fields, values) && Validated(fields, values);
  }

  /** Such a payload is another one, up to zero signs, field by field. */
  lemma NamedSame(fields: seq<FieldDef>, values: seq<FieldValue>, current: Payload)
    requires Distinct(fields) && |values| == |fields| && Fits(fields, Named(fields, values)) && Fits(fields, current)
    ensures SamePayload(fields, Named(fields, values), current)
      <==> forall i :: 0 <= i < |fields| ==> Same(values[i], current[fields[i].name])
  {
    hide Same, Named, Distinct;
    var m := Named(fields, values);
    forall i | 0 <= i < |fields| ensures m[fields[i].name] == values[i] {
      NamedAt(fields, values, i);
    }
  }

  lemma MergedField(f: FieldDef, base: Payload, previous: Payload, current: Payload)
    requires f.name in base && f.name in previous && f.name in current && Same(base[f.name], previous[f.name])
    requires Carried(f, base[f.name]) && Carried(f, current[f.name])
    requires WithinLimit(f, base[f.name]) && WithinLimit(f, current[f.name])
    ensures var v := if Changed(previous, current, f.name) then current[f.name] else base[f.name];
      Carried(f, v) && WithinLimit(f, v) && Same(v, current[f.name])
  {
    hide Carried, WithinLimit, NotANumber;
  }

  /** The merged values are the current ones up to the sign of a float zero, and carry the same limits. */
  lemma MergeIsCurrent(fields: seq<FieldDef>, base: Payload, previous: Payload, current: Payload)
    requires Distinct(fields) && Sendable(fields, base) && Sendable(fields, current)
    requires SamePayload(fields, base, previous)
    ensures var m := Named(fields, Merge(fields, base, previous, current));
      && SamePayload(fields, m, current) && Sendable(fields, m)
      && Ordered(fields, m) == Merge(fields, base, previous, current)
  {
    hide Sendable, Named, Distinct, Changed, Carried, WithinLimit, Same;
    CarriedEach(fields, base);
    CarriedEach(fields, current);
    var values := Merge(fields, base, previous, current);
    forall i | 0 <= i < |fields|
      ensures Same(values[i], current[fields[i].name])
      ensures Carried(fields[i], values[i]) && WithinLimit(fields[i], values[i])
    {
      MergedField(fields[i], base, previous, current);
    }
    hide Merge, Fits;
    NamedSendable(fields, values);
    NamedSame(fields, values, current);
  }

  /**
   * The rebased payload is one the schema can carry, and it is the current one, up to the sign of float zeros, if
   * and only if the base serves.
   */
  lemma RebasedRightly(fields: seq<FieldDef>, base: Payload, previous: Payload, current: Payload)
    requires Distinct(fields) && Sendable(fields, base) && Sendable(fields, previous) && Sendable(fields, current)
    ensures var values := Rebase(fields, base, previous, current);
      var m := Named(fields, values);
      && Sendable(fields, m) && Ordered(fields, m) == values
      && (SamePayload(fields, m, current) <==> Serves(fields, base, previous, current))
  {
    hide Sendable, Named, Distinct, Changed, Rebased, Carried, WithinLimit, Same, ServesField, SamePayload;
    CarriedEach(fields, base);
    CarriedEach(fields, previous);
    CarriedEach(fields, current);
    var values := Rebase(fields, base, previous, current);
    forall i | 0 <= i < |fields|
      ensures Carried(fields[i], values[i]) && WithinLimit(fields[i], values[i])
      ensures Same(values[i], current[fields[i].name]) <==> ServesField(base, previous, current, fields[i].name)
    {
      RebasedField(fields[i], base, previous, current);
    }
    hide Rebase, Fits;
    NamedSendable(fields, values);
    NamedSame(fields, values, current);
  }

  lemma RebasedField(f: FieldDef, base: Payload, previous: Payload, current: Payload)
    requires f.name in base && f.name in previous && f.name in current
    requires Carried(f, base[f.name]) && Carried(f, previous[f.name]) && Carried(f, current[f.name])
    requires WithinLimit(f, base[f.name]) && WithinLimit(f, current[f.name])
    ensures var v := if Changed(previous, current, f.name) then Rebased(base[f.name], previous[f.name], current[f.name])
                     else base[f.name];
      && Carried(f, v) && WithinLimit(f, v) && v.Type() == f.ftype
      && (Same(v, current[f.name]) <==> ServesField(base, previous, current, f.name))
  {
    RebasedExactly(f, base[f.name], previous[f.name], current[f.name]);
    hide Changed;
  }
}
