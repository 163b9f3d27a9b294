/** Schemas, field values, payload maps and the packet layout derived from a schema. */
module Schema {
  import opened Wire

  datatype FieldType = U8 | U16 | U32 | I8 | I16 | I32 | F32 | F64 | String | Bytes {
    predicate Variable() { String? || Bytes? }

    function Size(): nat
    {
      match this
      case U8 | I8 => 1
      case U16 | I16 => 2
      case U32 | I32 | F32 => 4
      case F64 => 8
      case String | Bytes => 0
    }

    predicate Signed() { I8? || I16? || I32? }

    predicate Float() { F32? || F64? }

    function Modulus(): nat
    {
      match this
      case U8 | I8 => 256
      case U16 | I16 => 65536
      case U32 | I32 | F32 => 4294967296
      case F64 => 18446744073709551616
      case String | Bytes => 1
    }

    predicate Holds(v: int)
    {
      if Signed() then -(Modulus() as int / 2) <= v < Modulus() / 2 else 0 <= v < Modulus()
    }

    /** `static_cast` to this type: reduction to the width, then two's complement when signed. */
    function Cast(v: int): (r: int)
      requires !Variable()
      ensures Holds(r)
      ensures Holds(v) ==> r == v
    {
      var low := v % Modulus();
      if Signed() && low >= Modulus() / 2 then low - Modulus() else low
    }
  }

  datatype FieldDef = FieldDef(name: string, ftype: FieldType, hasMax: bool, maxLength: nat)

  datatype SchemaDef = SchemaDef(name: string, messageId: u16, fields: seq<FieldDef>)

  /** A typed value. A float is its bit pattern; text and blobs are byte strings. */
  datatype FieldValue = Number(ntype: FieldType, n: int) | Text(text: seq<byte>) | Blob(blob: seq<byte>) {
    function Type(): FieldType
    {
      match this
      case Number(t, _) => t
      case Text(_) => String
      case Blob(_) => Bytes
    }
  }

  type Payload = map<string, FieldValue>

  /** Field names are unique and there is at least one field, as registration demands. */
  predicate ValidSchema(schema: SchemaDef)
  {
    schema.fields != [] && Distinct(schema.fields)
  }

  predicate Distinct(fields: seq<FieldDef>)
  {
    forall i, j :: 0 <= i < j < |fields| ==> fields[i].name != fields[j].name
  }

  /** A value the C++ type system can hold for this field and the wire format can carry. */
  predicate Carried(f: FieldDef, v: FieldValue)
  {
    && v.Type() == f.ftype
    && match v
       case Number(t, n) => !t.Variable() && t.Holds(n)
       case Text(s) => |s| <= 65534
       case Blob(b) => |b| <= 65535
  }

  /** The length limit of the field. */
  predicate WithinLimit(f: FieldDef, v: FieldValue)
  {
    f.hasMax ==>
      match v
      case Number(_, _) => true
      case Text(s) => |s| <= f.maxLength
      case Blob(b) => |b| <= f.maxLength
  }

  predicate AllCarried(fields: seq<FieldDef>, values: seq<FieldValue>)
  {
    |values| == |fields| && forall i :: 0 <= i < |fields| ==> Carried(fields[i], values[i])
  }

  /** What `validate_payload_values` accepts. */
  predicate Validated(fields: seq<FieldDef>, values: seq<FieldValue>)
  {
    |values| == |fields|
    && forall i :: 0 <= i < |fields| ==> values[i].Type() == fields[i].ftype && WithinLimit(fields[i], values[i])
  }

  method ValidatePayloadValues(schema: SchemaDef, values: seq<FieldValue>) returns (ok: bool)
    ensures ok == Validated(schema.fields, values)
  {
    if |values| != |schema.fields| { return false; }
    for i := 0 to |values|
      invariant forall k :: 0 <= k < i ==>
        values[k].Type() == schema.fields[k].ftype && WithinLimit(schema.fields[k], values[k])
    {
      var f, v := schema.fields[i], values[i];
      if v.Type() != f.ftype { return false; }
      if !f.hasMax { continue; }
      match v
      case Number(_, _) =>
      case Text(s) => if |s| > f.maxLength { return false; }
      case Blob(b) => if |b| > f.maxLength { return false; }
    }
    return true;
  }

  // Named and ordered payloads.

  function Names(fields: seq<FieldDef>): set<string>
  {
    set i | 0 <= i < |fields| :: fields[i].name
  }

  /** The payload has exactly the schema's fields, each of the declared type. */
  predicate Fits(fields: seq<FieldDef>, payload: Payload)
  {
    && payload.Keys == Names(fields)
    && forall i :: 0 <= i < |fields| ==> fields[i].name in payload && payload[fields[i].name].Type() == fields[i].ftype
  }

  function Ordered(fields: seq<FieldDef>, payload: Payload): (values: seq<FieldValue>)
    requires forall i :: 0 <= i < |fields| ==> fields[i].name in payload
    ensures |values| == |fields|
  {
    seq(|fields|, i requires 0 <= i < |fields| => payload[fields[i].name])
  }

  function Named(fields: seq<FieldDef>, values: seq<FieldValue>): (payload: Payload)
    requires |values| == |fields|
  {
    if fields == [] then map[]
    else Named(fields[..|fields| - 1], values[..|fields| - 1])[fields[|fields| - 1].name := values[|fields| - 1]]
  }

  lemma {:induction false} NamedKeys(fields: seq<FieldDef>, values: seq<FieldValue>)
    requires |values| == |fields|
    ensures Named(fields, values).Keys == Names(fields)
  {
    if fields != [] {
      var last := |fields| - 1;
      NamedKeys(fields[..last], values[..last]);
      assert fields == fields[..last] + [fields[last]];
      assert Names(fields) == Names(fields[..last]) + {fields[last].name};
    }
  }

  lemma {:induction false} NamedAt(fields: seq<FieldDef>, values: seq<FieldValue>, i: nat)
    requires |values| == |fields| && i < |fields| && Distinct(fields)
    ensures fields[i].name in Named(fields, values) && Named(fields, values)[fields[i].name] == values[i]
  {
    var last := |fields| - 1;
    if i < last { NamedAt(fields[..last], values[..last], i); }
  }

  /** Listing a payload in schema order and naming the list again gives the payload back. */
  lemma NamedOfOrdered(fields: seq<FieldDef>, payload: Payload)
    requires Distinct(fields) && Fits(fields, payload)
    ensures Named(fields, Ordered(fields, payload)) == payload
  {
    var values := Ordered(fields, payload);
    NamedKeys(fields, values);
    forall name | name in payload ensures Named(fields, values)[name] == payload[name] {
      var i :| 0 <= i < |fields| && fields[i].name == name;
      NamedAt(fields, values, i);
    }
  }

  lemma OrderedOfNamed(fields: seq<FieldDef>, values: seq<FieldValue>)
    requires Distinct(fields) && |values| == |fields|
    requires forall i :: 0 <= i < |fields| ==> values[i].Type() == fields[i].ftype
    ensures Fits(fields, Named(fields, values)) && Ordered(fields, Named(fields, values)) == values
  {
    NamedKeys(fields, values);
    forall i | 0 <= i < |fields|
      ensures fields[i].name in Named(fields, values) && Named(fields, values)[fields[i].name] == values[i]
    {
      NamedAt(fields, values, i);
    }
  }

  datatype Mapped<T> = Ok(value: T) | MissingRequiredField | UnknownExtraField | FieldTypeMismatch | CountMismatch

  lemma {:induction false} NamesCount(fields: seq<FieldDef>)
    ensures |Names(fields)| <= |fields|
    ensures Distinct(fields) ==> |Names(fields)| == |fields|
  {
    if fields == [] {
      assert Names(fields) == {};
    } else {
      var last := |fields| - 1;
      NamesCount(fields[..last]);
      assert Names(fields) == Names(fields[..last]) + {fields[last].name};
    }
  }

  /** Every field is present with its declared type. */
  predicate Covers(fields: seq<FieldDef>, payload: Payload)
  {
    forall i :: 0 <= i < |fields| ==> fields[i].name in payload && payload[fields[i].name].Type() == fields[i].ftype
  }

  /** For distinct names, covering the schema with no more values than fields is fitting it. */
  lemma FitsIsCovers(fields: seq<FieldDef>, payload: Payload)
    requires Distinct(fields)
    ensures Fits(fields, payload) <==> Covers(fields, payload) && |payload| <= |fields|
  {
    NamesCount(fields);
    if Covers(fields, payload) && |payload| <= |fields| {
      assert Names(fields) <= payload.Keys;
      SubsetOfSameSize(Names(fields), payload.Keys);
    }
  }

  /**
   * `map_named_to_ordered`. Extra fields are looked for only when the payload is larger than the schema; for distinct
   * field names that is enough, as the last clause says.
   */
  method MapNamedToOrdered(schema: SchemaDef, payload: Payload) returns (r: Mapped<seq<FieldValue>>)
    ensures r.Ok? <==> Covers(schema.fields, payload) && |payload| <= |schema.fields|
    ensures r.Ok? ==> r.value == Ordered(schema.fields, payload)
    ensures r.UnknownExtraField? ==> !(payload.Keys <= Names(schema.fields))
    ensures r.MissingRequiredField? ==> !(Names(schema.fields) <= payload.Keys)
    ensures Distinct(schema.fields) ==> (r.Ok? <==> Fits(schema.fields, payload))
  {
    var fields := schema.fields;
    if Distinct(fields) { FitsIsCovers(fields, payload); }
    hide Fits, Distinct;
    var values: seq<FieldValue> := [];
    for i := 0 to |fields|
      invariant |values| == i
      invariant forall k :: 0 <= k < i ==>
        fields[k].name in payload && payload[fields[k].name].Type() == fields[k].ftype
        && values[k] == payload[fields[k].name]
    {
      if fields[i].name !in payload {
        assert fields[i].name in Names(fields);
        return MissingRequiredField;
      }
      if payload[fields[i].name].Type() != fields[i].ftype { return FieldTypeMismatch; }
      values := values + [payload[fields[i].name]];
    }
    if |payload| > |fields| {
      NamesCount(fields);
      ghost var extra := ExtraName(Names(fields), payload.Keys);
      var unseen := payload.Keys;
      while unseen != {}
        invariant unseen <= payload.Keys && extra in unseen
      {
        var name :| name in unseen;
        var known := exists k :: 0 <= k < |fields| && fields[k].name == name;
        if !known { return UnknownExtraField; }
        unseen := unseen - {name};
      }
      assert false;
    }
    assert values == Ordered(fields, payload);
    return Ok(values);
  }

  lemma ExtraName<T>(a: set<T>, b: set<T>) returns (extra: T)
    requires |b| > |a|
    ensures extra in b && extra !in a
  {
    assert a == a * b + (a - b);
    assert b == a * b + (b - a);
    assert |b - a| > 0;
    extra :| extra in b && extra !in a;
  }

  lemma SubsetOfSameSize<T>(a: set<T>, b: set<T>)
    requires a <= b && |b| <= |a|
    ensures a == b
  {
    assert b == a + (b - a);
    assert |b| == |a| + |b - a|;
  }

  method MapOrderedToNamed(schema: SchemaDef, values: seq<FieldValue>) returns (r: Mapped<Payload>)
    ensures r.CountMismatch? <==> |values| != |schema.fields|
    ensures r.Ok? <==> (|values| == |schema.fields|
      && forall i :: 0 <= i < |values| ==> values[i].Type() == schema.fields[i].ftype)
    ensures r.Ok? ==> r.value == Named(schema.fields, values)
  {
    var fields := schema.fields;
    if |values| != |fields| { return CountMismatch; }
    var payload: Payload := map[];
    for i := 0 to |fields|
      invariant forall k :: 0 <= k < i ==> values[k].Type() == fields[k].ftype
      invariant payload == Named(fields[..i], values[..i])
    {
      if values[i].Type() != fields[i].ftype { return FieldTypeMismatch; }
      payload := payload[fields[i].name := values[i]];
      assert fields[..i + 1][..i] == fields[..i] && values[..i + 1][..i] == values[..i];
    }
    assert fields[..|fields|] == fields && values[..|fields|] == values;
    return Ok(payload);
  }

  // Packet layout.

  datatype FieldLayout = FieldLayout(ftype: FieldType, fixedSize: nat, byteOffset: nat, variable: bool,
    dynamicOffset: bool, hasMax: bool, maxLength: nat)

  datatype PacketLayout = PacketLayout(messageId: u16, fields: seq<FieldLayout>, minimumSize: nat,
    fixedPayload: nat, variableCount: nat, fixedPacketSize: nat, fixedOnly: bool)

  function FixedBytes(fields: seq<FieldDef>): nat
  {
    if fields == [] then 0 else fields[0].ftype.Size() + FixedBytes(fields[1..])
  }

  function VariableFields(fields: seq<FieldDef>): nat
  {
    if fields == [] then 0 else (if fields[0].ftype.Variable() then 1 else 0) + VariableFields(fields[1..])
  }

  predicate AllFixed(fields: seq<FieldDef>)
  {
    forall i :: 0 <= i < |fields| ==> !fields[i].ftype.Variable()
  }

  lemma {:induction false} FixedBytesSnoc(fields: seq<FieldDef>, f: FieldDef)
    ensures FixedBytes(fields + [f]) == FixedBytes(fields) + f.ftype.Size()
    ensures VariableFields(fields + [f]) == VariableFields(fields) + if f.ftype.Variable() then 1 else 0
  {
    if fields == [] {
      assert fields + [f] == [f];
    } else {
      FixedBytesSnoc(fields[1..], f);
      assert (fields + [f])[1..] == fields[1..] + [f];
    }
  }

  function LayoutEntry(fields: seq<FieldDef>, i: nat): FieldLayout
    requires i < |fields|
  {
    var f := fields[i];
    FieldLayout(f.ftype, f.ftype.Size(), MinimumSize(fields[..i]), f.ftype.Variable(), !AllFixed(fields[..i]),
      f.hasMax, f.maxLength)
  }

  function MinimumSize(fields: seq<FieldDef>): nat { 2 + FixedBytes(fields) + 2 * VariableFields(fields) }

  function LayoutOf(schema: SchemaDef): (layout: PacketLayout)
    ensures |layout.fields| == |schema.fields|
  {
    var fields := schema.fields;
    PacketLayout(schema.messageId, seq(|fields|, i requires 0 <= i < |fields| => LayoutEntry(fields, i)),
      MinimumSize(fields), FixedBytes(fields), VariableFields(fields),
      if AllFixed(fields) then MinimumSize(fields) else 0, AllFixed(fields))
  }

  /** The layout accumulated by the loop is the one described field by field. */
  method BuildPacketLayout(schema: SchemaDef) returns (layout: PacketLayout)
    ensures layout == LayoutOf(schema)
  {
    var fields := schema.fields;
    var entries: seq<FieldLayout> := [];
    var minimum, fixedPayload, variableCount, fixedOnly := 2, 0, 0, true;
    var cursor, dynamicOffset := 2, false;
    for i := 0 to |fields|
      invariant |entries| == i && forall k :: 0 <= k < i ==> entries[k] == LayoutEntry(fields, k)
      invariant cursor == minimum == MinimumSize(fields[..i])
      invariant fixedPayload == FixedBytes(fields[..i]) && variableCount == VariableFields(fields[..i])
      invariant fixedOnly == !dynamicOffset == AllFixed(fields[..i])
    {
      var f := fields[i];
      entries := entries + [FieldLayout(f.ftype, f.ftype.Size(), cursor, f.ftype.Variable(), dynamicOffset,
                                        f.hasMax, f.maxLength)];
      LayoutStep(fields, i);
      if !f.ftype.Variable() {
        fixedPayload, minimum := fixedPayload + f.ftype.Size(), minimum + f.ftype.Size();
        cursor := cursor + f.ftype.Size();
      } else {
        variableCount, minimum, fixedOnly := variableCount + 1, minimum + 2, false;
        dynamicOffset, cursor := true, cursor + 2;
      }
    }
    assert fields[..|fields|] == fields;
    layout := PacketLayout(schema.messageId, entries, minimum, fixedPayload, variableCount,
      if fixedOnly then minimum else 0, fixedOnly);
  }

  lemma LayoutStep(fields: seq<FieldDef>, i: nat)
    requires i < |fields|
    ensures FixedBytes(fields[..i + 1]) == FixedBytes(fields[..i]) + fields[i].ftype.Size()
    ensures VariableFields(fields[..i + 1]) == VariableFields(fields[..i]) + if fields[i].ftype.Variable() then 1 else 0
    ensures AllFixed(fields[..i + 1]) == (AllFixed(fields[..i]) && !fields[i].ftype.Variable())
  {
    FixedBytesSnoc(fields[..i], fields[i]);
    assert fields[..i + 1] == fields[..i] + [fields[i]];
    assert fields[..i + 1][i] == fields[i];
    assert forall k :: 0 <= k < i ==> fields[..i + 1][k] == fields[..i][k];
  }
}
