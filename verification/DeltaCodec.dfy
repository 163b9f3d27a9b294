/** The stream's delta writer and reader as loops, proved to compute the functions of Delta. */
module DeltaCodec {
  import opened Wire
  import opened Bits
  import opened Schema
  import opened Core
  import opened Codec
  import opened GeneralCodec
  import opened Delta
  import RuntimeOptimizer

  // Comparing.

  method ComparePayloads(a: Payload, b: Payload) returns (equal: bool)
    ensures equal == PayloadEquals(a, b)
  {
    if |a| != |b| { return false; }
    var unseen := a.Keys;
    while unseen != {}
      invariant unseen <= a.Keys
      invariant forall name :: name in a && name !in unseen ==> !Changed(a, b, name)
    {
      var name :| name in unseen;
      if name !in b || b[name].Type() != a[name].Type() || !ValueEq(a[name], b[name]) {
        assert Changed(a, b, name);
        return false;
      }
      unseen := unseen - {name};
    }
    return true;
  }

  /** Compares two one-field payloads. */
  method FieldChanged(previous: Payload, current: Payload, name: string) returns (changed: bool)
    ensures changed == Changed(previous, current, name)
  {
    if name !in previous || name !in current { return true; }
    var left: Payload, right: Payload := map[name := previous[name]], map[name := current[name]];
    var equal := ComparePayloads(left, right);
    assert name in left && |left| == |right|;
    return !equal;
  }

  /** The names whose values differ, or are not in the previous payload. */
  function ChangedNames(previous: Payload, current: Payload): set<string>
  {
    set name | name in current && Changed(previous, current, name)
  }

  /** One more name looked at. */
  lemma OneSeen(names: set<string>, unseen: set<string>, name: string)
    requires name in unseen
    ensures |unseen - {name}| == |unseen| - 1
    ensures |names - (unseen - {name})| == |names - unseen| + if name in names then 1 else 0
  {
    if name in names {
      assert names - (unseen - {name}) == (names - unseen) + {name};
    } else {
      assert names - (unseen - {name}) == names - unseen;
    }
  }

  lemma SeenAtFirst(previous: Payload, current: Payload)
    ensures |current.Keys| == |current| && ChangedNames(previous, current) - current.Keys == {}
    ensures ChangedNames(previous, current) - {} == ChangedNames(previous, current)
    ensures |ChangedNames(previous, current)| == 0
      <==> forall name :: name in current ==> !Changed(previous, current, name)
  {
    hide Changed;
    var names := ChangedNames(previous, current);
    if forall name :: name in current ==> !Changed(previous, current, name) { assert names == {}; }
    if name :| name in current && Changed(previous, current, name) { assert name in names; }
  }

  /** The loop of the ratio: how many values have changed, of how many. */
  method CountChanges(previous: Payload, current: Payload) returns (changed: nat, total: nat)
    ensures changed == |ChangedNames(previous, current)| <= total == |current|
  {
    ghost var names := ChangedNames(previous, current);
    SeenAtFirst(previous, current);
    var unseen := current.Keys;
    changed, total := 0, 0;
    while unseen != {}
      invariant unseen <= current.Keys && total == |current| - |unseen|
      invariant changed == |names - unseen| <= total
    {
      var name :| name in unseen;
      var differs := FieldChanged(previous, current, name);
      assert differs <==> name in names;
      hide *;
      OneSeen(names, unseen, name);
      total := total + 1;
      if differs { changed := changed + 1; }
      unseen := unseen - {name};
    }
  }

  /** The share of changed values, here without rounding; nothing has changed in an empty payload. */
  method ChangeRatio(previous: Payload, current: Payload) returns (ratio: real)
    ensures 0.0 <= ratio <= 1.0 && ratio * |current| as real == |ChangedNames(previous, current)| as real
    ensures ratio == 0.0 <==> forall name :: name in current ==> !Changed(previous, current, name)
  {
    SeenAtFirst(previous, current);
    hide *;
    var changed, total := CountChanges(previous, current);
    if total == 0 { return 0.0; }
    Quotient(changed, total);
    return changed as real / total as real;
  }

  lemma Quotient(part: nat, total: nat)
    requires part <= total && total > 0
    ensures var q := part as real / total as real;
      q * total as real == part as real && 0.0 <= q <= 1.0 && (q == 0.0 <==> part == 0)
  {
  }

  // Writing.

  method WriteTagged(encoder: Encoder, size: nat, delta: int, current: int)
    modifies encoder
    ensures encoder.buffer == old(encoder.buffer) + Tagged(size, delta, current)
  {
    ghost var before := encoder.buffer;
    var tag, width, n := 3, size, current;
    if I8.Holds(delta) {
      tag, width, n := 0, 1, delta;
    } else if I16.Holds(delta) {
      tag, width, n := 1, 2, delta;
    } else if size == 4 && I32.Holds(delta) {
      tag, width, n := 2, 4, delta;
    }
    encoder.WriteBytes([tag]);
    encoder.WriteInt(n, width);
    assert Tagged(size, delta, current) == [tag] + LE(n, width);
    Assoc(before, [tag], LE(n, width));
  }

  method WriteNumericDelta(encoder: Encoder, previous: FieldValue, current: FieldValue)
    requires current.Number?
    modifies encoder
    ensures encoder.buffer == old(encoder.buffer) + NumericDelta(previous, current)
  {
    NumericDeltaCases(previous, current);
    hide *;
    var delta := current.n - AsInt(previous);
    match current.ntype
    case U8 | I8 => encoder.WriteInt(current.n, 1);
    case U16 | I16 => WriteTagged(encoder, 2, delta, current.n);
    case U32 | I32 => WriteTagged(encoder, 4, delta, current.n);
    case F32 => encoder.WriteInt(current.n, 4);
    case F64 => encoder.WriteInt(current.n, 8);
    case String | Bytes => assert encoder.buffer + [] == encoder.buffer;
  }

  lemma NumericDeltaCases(previous: FieldValue, current: FieldValue)
    requires current.Number?
    ensures NumericDelta(previous, current)
      == match current.ntype
         case U8 | I8 => LE(current.n, 1)
         case U16 | I16 => Tagged(2, current.n - AsInt(previous), current.n)
         case U32 | I32 => Tagged(4, current.n - AsInt(previous), current.n)
         case F32 => LE(current.n, 4)
         case F64 => LE(current.n, 8)
         case String | Bytes => []
  {
    hide LE, Tagged;
  }

  method WriteDeltaField(encoder: Encoder, f: FieldDef, previous: FieldValue, current: FieldValue)
    modifies encoder
    ensures encoder.buffer == old(encoder.buffer) + DeltaField(f, previous, current)
  {
    if f.ftype.Variable() {
      match current
      case Number(_, _) =>
      case Text(s) => encoder.WriteCounted(s);
      case Blob(b) => encoder.WriteCounted(b);
    } else if current.Number? {
      WriteNumericDelta(encoder, previous, current);
    }
  }

  method MarkChanged(fields: seq<FieldDef>, previous: Payload, current: Payload) returns (bitmap: array<byte>)
    ensures fresh(bitmap) && bitmap[..] == Pack(ChangedFlags(fields, previous, current))
  {
    ghost var flags := ChangedFlags(fields, previous, current);
    bitmap := RuntimeOptimizer.ClearBitmap(BitmapSize(|fields|));
    for i := 0 to |fields|
      invariant bitmap.Length == BitmapSize(|fields|) && fresh(bitmap)
      invariant PackFrom(flags, i, bitmap[..]) == Pack(flags)
    {
      PackStep(flags, i, bitmap[..]);
      RuntimeOptimizer.BitHasByte(i, |fields|);
      assert flags[i] == Changed(previous, current, fields[i].name);
      hide *;
      var changed := FieldChanged(previous, current, fields[i].name);
      if changed { RuntimeOptimizer.MarkBit(bitmap, i); }
    }
  }

  function Appended(done: seq<byte>, rest: Option<seq<byte>>): Option<seq<byte>>
  {
    match rest case None => None case Some(d) => Some(done + d)
  }

  lemma BodyStep(fields: seq<FieldDef>, previous: Payload, current: Payload, i: nat, done: seq<byte>)
    requires i < |fields|
    ensures var name := fields[i].name;
      var whole := Appended(done, DeltaBody(fields[i..], previous, current));
      var rest := DeltaBody(fields[i + 1..], previous, current);
      && (!Changed(previous, current, name) ==> whole == Appended(done, rest))
      && (Changed(previous, current, name) && (name !in previous || name !in current) ==> whole == None)
      && (Changed(previous, current, name) && name in previous && name in current ==>
            whole == Appended(done + DeltaField(fields[i], previous[name], current[name]), rest))
  {
    hide Changed, DeltaField;
    assert fields[i..][1..] == fields[i + 1..];
    var name, rest := fields[i].name, DeltaBody(fields[i + 1..], previous, current);
    if name in previous && name in current && rest.Some? {
      Assoc(done, DeltaField(fields[i], previous[name], current[name]), rest.value);
    }
  }

  lemma BodyEnds(fields: seq<FieldDef>, previous: Payload, current: Payload, done: seq<byte>)
    ensures Appended(done, DeltaBody(fields[|fields|..], previous, current)) == Some(done)
    ensures fields[0..] == fields
  {
    assert done + [] == done;
  }

  method WriteHeader(encoder: Encoder, schema: SchemaDef, sequence: u16, bitmap: seq<byte>)
    modifies encoder
    ensures encoder.buffer == old(encoder.buffer)
      + ([DELTA] + LE(schema.messageId, 2) + LE(sequence, 2) + [BitmapSize(|schema.fields|) % 256] + bitmap)
  {
    hide *;
    encoder.WriteBytes([DELTA]);
    encoder.WriteInt(schema.messageId, 2);
    encoder.WriteInt(sequence, 2);
    encoder.WriteBytes([BitmapSize(|schema.fields|) % 256]);
    encoder.WriteBytes(bitmap);
  }

  lemma HeaderStarts(schema: SchemaDef, previous: Payload, current: Payload, sequence: u16, header: seq<byte>)
    requires header == [DELTA] + LE(schema.messageId, 2) + LE(sequence, 2) + [BitmapSize(|schema.fields|) % 256]
      + Pack(ChangedFlags(schema.fields, previous, current))
    ensures Appended(header, DeltaBody(schema.fields, previous, current))
      == BuildDelta(schema, previous, current, sequence)
  {
    hide DeltaBody, Pack, LE, Changed;
  }

  lemma FlagIs(fields: seq<FieldDef>, previous: Payload, current: Payload, i: nat)
    requires i < |fields|
    ensures ChangedFlags(fields, previous, current)[i] == Changed(previous, current, fields[i].name)
  {
    hide Changed;
  }

  method BuildDeltaPacket(schema: SchemaDef, previous: Payload, current: Payload, sequence: u16)
    returns (r: Option<seq<byte>>)
    ensures r == BuildDelta(schema, previous, current, sequence)
  {
    hide *;
    var fields := schema.fields;
    ghost var flags := ChangedFlags(fields, previous, current);
    var bitmap := MarkChanged(fields, previous, current);
    var encoder := new Encoder();
    WriteHeader(encoder, schema, sequence, bitmap[..]);
    HeaderStarts(schema, previous, current, sequence, encoder.buffer);
    ghost var whole := Appended(encoder.buffer, DeltaBody(fields, previous, current));
    BodyEnds(fields, previous, current, encoder.buffer);
    for i := 0 to |fields|
      invariant bitmap[..] == Pack(flags)
      invariant Appended(encoder.buffer, DeltaBody(fields[i..], previous, current)) == whole
    {
      BodyStep(fields, previous, current, i, encoder.buffer);
      PackMeaning(flags, i);
      FlagIs(fields, previous, current, i);
      if !BitAt(bitmap[..], i) { continue; }
      var name := fields[i].name;
      if name !in previous || name !in current { return None; }
      WriteDeltaField(encoder, fields[i], previous[name], current[name]);
    }
    BodyEnds(fields, previous, current, encoder.buffer);
    return Some(encoder.buffer);
  }

  // Reading.

  lemma TaggedUnfolds(t: FieldType, previous: int, d: seq<byte>)
    requires !t.Variable()
    ensures d == [] ==> ReadTagged(t, previous, d) == Threw
    ensures d != [] ==>
      var width := TagWidth(t.Size(), d[0]);
      ReadTagged(t, previous, d) ==
        if width == 0 then BadField
        else if |d[1..]| < width then Threw
        else
          var raw := FromLE(d[1..][..width]);
          Took(Number(t, t.Cast(if d[0] == 3 then raw else previous + SignExtend(raw, width))), 1 + width)
    ensures d != [] ==> d[..1] == [d[0]]
  {
    hide FromLE, FieldType.Cast, SignExtend, TagWidth;
    if d != [] {
      var width := TagWidth(t.Size(), d[0]);
      if |d| >= 1 + width { SliceAfterDrop(d, 1, 0, width); }
    }
  }

  method ReadTaggedDelta(reader: PacketReader, t: FieldType, previous: int) returns (r: DeltaRead)
    requires reader.Valid() && !t.Variable()
    modifies reader
    ensures reader.Valid()
    ensures r == ReadTagged(t, previous, old(reader.Rest()))
    ensures r.Took? ==> reader.Rest() == old(reader.Rest())[r.used..]
  {
    hide *;
    ghost var d := reader.Rest();
    TaggedUnfolds(t, previous, d);
    var tag := reader.ReadBytes(1);
    if tag.None? { return Threw; }
    var width := TagWidth(t.Size(), tag.value[0]);
    if width == 0 { return BadField; }
    var raw := reader.ReadUnsigned(width);
    if raw.None? { return Threw; }
    DropTwice(d, 1, width);
    var n := if tag.value[0] == 3 then raw.value else previous + SignExtend(raw.value, width);
    return Took(Number(t, t.Cast(n)), 1 + width);
  }

  method ReadNumericDelta(reader: PacketReader, previous: FieldValue) returns (r: DeltaRead)
    requires reader.Valid()
    modifies reader
    ensures reader.Valid()
    ensures r == ReadNumeric(previous, old(reader.Rest()))
    ensures r.Took? ==> reader.Rest() == old(reader.Rest())[r.used..]
  {
    if !previous.Number? || previous.ntype.Variable() { return BadField; }
    var t := previous.ntype;
    if t.U16? || t.I16? || t.U32? || t.I32? {
      r := ReadTaggedDelta(reader, t, previous.n);
    } else {
      var raw := reader.ReadUnsigned(t.Size());
      if raw.None? { return Threw; }
      return Took(Number(t, t.Cast(raw.value)), t.Size());
    }
  }

  method ReadChangedField(reader: PacketReader, f: FieldDef, previous: FieldValue) returns (r: DeltaRead)
    requires reader.Valid()
    modifies reader
    ensures reader.Valid()
    ensures r == ReadDeltaField(f, previous, old(reader.Rest()))
    ensures r.Took? ==> reader.Rest() == old(reader.Rest())[r.used..]
  {
    if !f.ftype.Variable() {
      r := ReadNumericDelta(reader, previous);
      return;
    }
    ghost var d := reader.Rest();
    var size := reader.ReadWord();
    if size.None? { return Threw; }
    var body := reader.ReadBytes(size.value);
    if body.None? { return Threw; }
    assert body.value == d[2..2 + Word(d)] && reader.Rest() == d[2 + Word(d)..];
    return Took(if f.ftype.String? then Text(body.value) else Blob(body.value), 2 + size.value as int);
  }

  function Extended(done: seq<FieldValue>, g: Grown): Grown
  {
    match g case Stopped(threw) => Stopped(threw) case Grown(values, rest) => Grown(done + values, rest)
  }

  /** What the reader still has to yield, after the values already read. */
  ghost predicate Growing(fields: seq<FieldDef>, flags: seq<bool>, previous: Payload, whole: Grown, i: nat,
                          values: seq<FieldValue>, rest: seq<byte>)
    requires |flags| == |fields| && i <= |fields|
  {
    |values| == i && whole == Extended(values, Grow(fields[i..], flags[i..], previous, rest))
  }

  lemma GrowStep(fields: seq<FieldDef>, flags: seq<bool>, previous: Payload, whole: Grown, i: nat,
                 values: seq<FieldValue>, d: seq<byte>)
    requires |flags| == |fields| && i < |fields| && Growing(fields, flags, previous, whole, i, values, d)
    ensures fields[i].name !in previous ==> whole == Stopped(false)
    ensures fields[i].name in previous ==>
      var base := previous[fields[i].name];
      match (if flags[i] then ReadDeltaField(fields[i], base, d) else Took(base, 0))
      case BadField => whole == Stopped(false)
      case Threw => whole == Stopped(true)
      case Took(v, used) => Growing(fields, flags, previous, whole, i + 1, values + [v], d[used..])
  {
    assert fields[i..][1..] == fields[i + 1..] && flags[i..][1..] == flags[i + 1..];
    if fields[i].name in previous {
      var base := previous[fields[i].name];
      var r := if flags[i] then ReadDeltaField(fields[i], base, d) else Took(base, 0);
      hide ReadDeltaField;
      if r.Took? {
        var g := Grow(fields[i + 1..], flags[i + 1..], previous, d[r.used..]);
        if g.Grown? { assert values + ([r.value] + g.values) == values + [r.value] + g.values; }
      }
    }
  }

  lemma GrowEnds(fields: seq<FieldDef>, flags: seq<bool>, previous: Payload, whole: Grown, values: seq<FieldValue>,
                 rest: seq<byte>)
    requires |flags| == |fields|
    ensures Growing(fields, flags, previous, Grow(fields, flags, previous, rest), 0, [], rest)
    ensures Growing(fields, flags, previous, whole, |fields|, values, rest) ==> whole == Grown(values, rest)
  {
    assert fields[0..] == fields && flags[0..] == flags;
    var g := Grow(fields, flags, previous, rest);
    if g.Grown? { assert [] + g.values == g.values; }
    assert values + [] == values;
  }

  lemma {:induction false} PlainValuesSnoc(values: seq<FieldValue>, v: FieldValue)
    ensures PlainValues(values + [v]) == PlainValues(values) + PlainValue(v)
  {
    hide PlainValue;
    if values == [] {
      assert [v][1..] == [] && [] + [v] == [v];
      assert PlainValue(v) + [] == PlainValue(v) == [] + PlainValue(v);
    } else {
      PlainValuesSnoc(values[1..], v);
      assert (values + [v])[1..] == values[1..] + [v];
      Assoc(PlainValue(values[0]), PlainValues(values[1..]), PlainValue(v));
    }
  }

  /** The rebuilt packet and the merged payload after the first fields. */
  ghost predicate Rebuilt(schema: SchemaDef, flags: seq<bool>, previous: Payload, values: seq<FieldValue>,
                          buffer: seq<byte>, merged: Payload)
    requires |values| <= |schema.fields| == |flags|
  {
    && buffer == PlainPacket(schema, values)
    && merged == Overlay(schema.fields[..|values|], flags[..|values|], previous, values)
  }

  lemma RebuiltStep(schema: SchemaDef, flags: seq<bool>, previous: Payload, values: seq<FieldValue>, v: FieldValue,
                    buffer: seq<byte>, merged: Payload)
    requires |values| < |schema.fields| == |flags| && Rebuilt(schema, flags, previous, values, buffer, merged)
    ensures var i := |values|;
      Rebuilt(schema, flags, previous, values + [v], buffer + PlainValue(v),
              if flags[i] then merged[schema.fields[i].name := v] else merged)
  {
    var i, fields := |values|, schema.fields;
    PlainValuesSnoc(values, v);
    hide PlainValues, PlainValue, LE;
    Assoc(LE(schema.messageId, 2), PlainValues(values), PlainValue(v));
    assert fields[..i + 1][..i] == fields[..i] && flags[..i + 1][..i] == flags[..i];
    assert (values + [v])[..i] == values;
  }

  lemma RebuiltStart(schema: SchemaDef, flags: seq<bool>, previous: Payload)
    requires |flags| == |schema.fields|
    ensures Rebuilt(schema, flags, previous, [], LE(schema.messageId, 2), previous)
  {
    assert LE(schema.messageId, 2) + [] == LE(schema.messageId, 2);
  }

  datatype Progress = Progress(stopped: Option<Expansion>, value: FieldValue)

  /** One field: kept from the base or read from the packet. */
  method ExpandField(reader: PacketReader, f: FieldDef, changed: bool, previous: Payload) returns (p: Progress)
    requires reader.Valid()
    modifies reader
    ensures reader.Valid()
    ensures f.name !in previous ==> p.stopped == Some(Refused)
    ensures f.name in previous ==>
      match (if changed then ReadDeltaField(f, previous[f.name], old(reader.Rest())) else Took(previous[f.name], 0))
      case BadField => p.stopped == Some(Refused)
      case Threw => p.stopped == Some(Exception)
      case Took(v, used) => p.stopped == None && p.value == v && reader.Rest() == old(reader.Rest())[used..]
  {
    if f.name !in previous { return Progress(Some(Refused), Blob([])); }
    var one := Took(previous[f.name], 0);
    if changed { one := ReadChangedField(reader, f, previous[f.name]); }
    hide ReadDeltaField;
    match one
    case BadField => return Progress(Some(Refused), Blob([]));
    case Threw => return Progress(Some(Exception), Blob([]));
    case Took(v, _) => return Progress(None, v);
  }

  method ExpandFields(schema: SchemaDef, bitmap: seq<byte>, reader: PacketReader, previous: Payload)
    returns (r: Expansion)
    requires reader.Valid()
    modifies reader
    ensures var flags := Flags(bitmap, |schema.fields|);
      r == match Grow(schema.fields, flags, previous, old(reader.Rest()))
           case Stopped(threw) => (if threw then Exception else Refused)
           case Grown(values, rest) =>
             if rest != [] then Refused
             else Expanded(PlainPacket(schema, values), Overlay(schema.fields, flags, previous, values))
  {
    hide *;
    var fields := schema.fields;
    var encoder := new Encoder();
    encoder.WriteInt(schema.messageId, 2);
    var merged := previous;
    ghost var flags := Flags(bitmap, |fields|);
    ghost var values: seq<FieldValue> := [];
    ghost var whole := Grow(fields, flags, previous, reader.Rest());
    GrowEnds(fields, flags, previous, whole, [], reader.Rest());
    RebuiltStart(schema, flags, previous);
    assert encoder.buffer == LE(schema.messageId, 2);
    for i := 0 to |fields|
      invariant reader.Valid() && |values| == i
      invariant Growing(fields, flags, previous, whole, i, values, reader.Rest())
      invariant Rebuilt(schema, flags, previous, values, encoder.buffer, merged)
    {
      GrowStep(fields, flags, previous, whole, i, values, reader.Rest());
      FlagIsBit(bitmap, |fields|, i);
      var p := ExpandField(reader, fields[i], BitAt(bitmap, i), previous);
      if p.stopped.Some? { return p.stopped.value; }
      RebuiltStep(schema, flags, previous, values, p.value, encoder.buffer, merged);
      if BitAt(bitmap, i) { merged := merged[fields[i].name := p.value]; }
      WriteFullField(encoder, p.value);
      values := values + [p.value];
    }
    GrowEnds(fields, flags, previous, whole, values, reader.Rest());
    RebuiltEnds(schema, flags, previous, values, encoder.buffer, merged);
    var empty := reader.AtEnd();
    if !empty { return Refused; }
    return Expanded(encoder.buffer, merged);
  }

  lemma FlagIsBit(bitmap: seq<byte>, n: nat, i: nat)
    requires i < n
    ensures Flags(bitmap, n)[i] == BitAt(bitmap, i)
  {
  }

  lemma RebuiltEnds(schema: SchemaDef, flags: seq<bool>, previous: Payload, values: seq<FieldValue>, buffer: seq<byte>,
                    merged: Payload)
    requires |values| == |schema.fields| == |flags| && Rebuilt(schema, flags, previous, values, buffer, merged)
    ensures buffer == PlainPacket(schema, values) && merged == Overlay(schema.fields, flags, previous, values)
  {
    assert schema.fields[..|values|] == schema.fields && flags[..|values|] == flags;
  }

  method ExpandDeltaPacket(schema: SchemaDef, packet: seq<byte>, last: Option<Payload>, expected: u16)
    returns (r: Expansion)
    ensures r == ExpandDelta(schema, packet, last, expected)
  {
    if |packet| < 6 || packet[0] != DELTA { return Refused; }
    if Word(packet[1..]) != schema.messageId { return Refused; }
    var size := packet[5] as int;
    if |packet| < 6 + size || last.None? || Word(packet[3..]) != expected { return Refused; }
    var reader := new PacketReader(packet);
    var _ := reader.Skip(6);
    assert reader.Rest() == packet[6..];
    var _ := reader.Skip(size);
    assert reader.Rest() == packet[6 + size..];
    r := ExpandFields(schema, packet[6..], reader, last.value);
  }
}
