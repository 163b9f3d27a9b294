/** The structural packet check, and the grammar of plain packets it decides. */
module Corruption {
  import opened Wire
  import opened Schema
  import opened Codec

  datatype Code = MinimumLength | IdMismatch | TruncatedRead | InvalidFieldLength | BoundaryMismatch

  datatype Verdict = Accepted | Rejected(code: Code, offset: nat)

  /** Walks one field at `cursor`: where the next field starts, or why the walk stops. */
  function CheckField(f: FieldDef, p: seq<byte>, cursor: nat): (Verdict, nat)
    requires cursor <= |p|
  {
    if !f.ftype.Variable() then
      if cursor + f.ftype.Size() > |p| then (Rejected(TruncatedRead, cursor), cursor)
      else (Accepted, cursor + f.ftype.Size())
    else if cursor + 2 > |p| then (Rejected(TruncatedRead, cursor), cursor)
    else
      var size := Word(p[cursor..]);
      if f.ftype.String? && size == REFERENCE then
        if cursor + 4 > |p| then (Rejected(TruncatedRead, cursor + 2), cursor) else (Accepted, cursor + 4)
      else if f.hasMax && size > f.maxLength then (Rejected(InvalidFieldLength, cursor), cursor)
      else if cursor + 2 + size > |p| then (Rejected(TruncatedRead, cursor + 2), cursor)
      else (Accepted, cursor + 2 + size)
  }

  function CheckFields(fields: seq<FieldDef>, p: seq<byte>, cursor: nat): (v: Verdict)
    requires cursor <= |p|
  {
    if fields == [] then if cursor != |p| then Rejected(BoundaryMismatch, cursor) else Accepted
    else
      var (v, next) := CheckField(fields[0], p, cursor);
      if v.Rejected? then v else CheckFields(fields[1..], p, next)
  }

  function Check(schema: SchemaDef, p: seq<byte>): Verdict
  {
    if |p| < 2 then Rejected(MinimumLength, |p|)
    else if Word(p) != schema.messageId then Rejected(IdMismatch, 0)
    else if AllFixed(schema.fields) then
      var size := MinimumSize(schema.fields);
      if |p| < size then Rejected(TruncatedRead, |p|)
      else if |p| != size then Rejected(BoundaryMismatch, size)
      else Accepted
    else CheckFields(schema.fields, p, 2)
  }

  lemma CheckFieldSpan(f: FieldDef, p: seq<byte>, cursor: nat)
    requires cursor <= |p|
    ensures var (v, next) := CheckField(f, p, cursor);
      match FieldSpan(f, true, p[cursor..])
      case None => v.Rejected?
      case Some(n) => v.Accepted? && next == cursor + n
  {
  }

  lemma {:induction false} CheckFieldsSpan(fields: seq<FieldDef>, p: seq<byte>, cursor: nat)
    requires cursor <= |p|
    ensures CheckFields(fields, p, cursor).Accepted? <==> Span(fields, true, p[cursor..]) == Some(|p| - cursor)
    decreases |fields|
  {
    hide *;
    if fields == [] {
      NoFieldsLeft(fields, p, cursor);
    } else {
      var n := FieldSpan(fields[0], true, p[cursor..]);
      if n.Some? {
        CheckUnfolds(fields, p, cursor, n.value);
        SpanUnfolds(fields, true, p[cursor..], n.value);
        DropTwice(p, cursor, n.value);
        CheckFieldsSpan(fields[1..], p, cursor + n.value);
      } else {
        CheckStops(fields, p, cursor);
      }
    }
  }

  lemma NoFieldsLeft(fields: seq<FieldDef>, p: seq<byte>, cursor: nat)
    requires cursor <= |p| && fields == []
    ensures CheckFields(fields, p, cursor).Accepted? <==> cursor == |p|
    ensures Span(fields, true, p[cursor..]) == Some(0)
  {
  }

  lemma CheckUnfolds(fields: seq<FieldDef>, p: seq<byte>, cursor: nat, n: nat)
    requires cursor <= |p| && fields != [] && FieldSpan(fields[0], true, p[cursor..]) == Some(n)
    ensures cursor + n <= |p|
    ensures CheckFields(fields, p, cursor).Accepted? <==> CheckFields(fields[1..], p, cursor + n).Accepted?
  {
    CheckFieldSpan(fields[0], p, cursor);
    hide CheckField, FieldSpan;
  }

  lemma CheckStops(fields: seq<FieldDef>, p: seq<byte>, cursor: nat)
    requires cursor <= |p| && fields != [] && FieldSpan(fields[0], true, p[cursor..]) == None
    ensures CheckFields(fields, p, cursor).Rejected? && Span(fields, true, p[cursor..]) == None
  {
    CheckFieldSpan(fields[0], p, cursor);
    hide CheckField, FieldSpan;
  }

  /** The grammar of a plain packet of the schema. */
  predicate WellFormed(schema: SchemaDef, p: seq<byte>)
  {
    |p| >= 2 && Word(p) == schema.messageId && Span(schema.fields, true, p[2..]) == Some(|p| - 2)
  }

  /** The check, its fixed-size shortcut included, accepts exactly the packets of the grammar. */
  lemma CheckIsGrammar(schema: SchemaDef, p: seq<byte>)
    ensures Check(schema, p).Accepted? <==> WellFormed(schema, p)
  {
    if |p| >= 2 {
      if AllFixed(schema.fields) {
        SpanOfFixed(schema.fields, true, p[2..]);
        NoVariableFields(schema.fields);
      } else {
        CheckFieldsSpan(schema.fields, p, 2);
      }
    }
  }

  lemma {:induction false} NoVariableFields(fields: seq<FieldDef>)
    requires AllFixed(fields)
    ensures VariableFields(fields) == 0
  {
    if fields != [] {
      assert !fields[0].ftype.Variable();
      NoVariableFields(fields[1..]);
    }
  }

  method CheckKeydropPacket(p: seq<byte>, schema: SchemaDef, layout: PacketLayout) returns (v: Verdict)
    requires layout == LayoutOf(schema)
    ensures v == Check(schema, p)
  {
    if |p| < 2 { return Rejected(MinimumLength, |p|); }
    var id := p[0] as int + 256 * p[1] as int;
    if id != layout.messageId { return Rejected(IdMismatch, 0); }
    if layout.fixedOnly {
      if |p| < layout.fixedPacketSize { return Rejected(TruncatedRead, |p|); }
      if |p| != layout.fixedPacketSize { return Rejected(BoundaryMismatch, layout.fixedPacketSize); }
      return Accepted;
    }
    var cursor := 2;
    ghost var fields := schema.fields;
    assert fields[0..] == fields;
    for i := 0 to |layout.fields|
      invariant 2 <= cursor <= |p|
      invariant CheckFields(fields, p, 2) == CheckFields(fields[i..], p, cursor)
    {
      assert layout.fields[i] == LayoutEntry(fields, i);
      assert fields[i..][1..] == fields[i + 1..];
      var field, next := CheckLayoutField(layout.fields[i], fields[i], p, cursor);
      if field.Rejected? { return field; }
      cursor := next;
    }
    if cursor != |p| { return Rejected(BoundaryMismatch, cursor); }
    return Accepted;
  }

  method CheckLayoutField(l: FieldLayout, ghost f: FieldDef, p: seq<byte>, cursor: nat) returns (v: Verdict, next: nat)
    requires cursor <= |p|
    requires l.ftype == f.ftype && l.fixedSize == f.ftype.Size() && l.variable == f.ftype.Variable()
    requires l.hasMax == f.hasMax && l.maxLength == f.maxLength
    ensures (v, next) == CheckField(f, p, cursor)
  {
    if !l.variable {
      if cursor + l.fixedSize > |p| { return Rejected(TruncatedRead, cursor), cursor; }
      return Accepted, cursor + l.fixedSize;
    }
    if cursor + 2 > |p| { return Rejected(TruncatedRead, cursor), cursor; }
    var size := p[cursor] as int + 256 * p[cursor + 1] as int;
    if l.ftype.String? && size == REFERENCE {
      if cursor + 4 > |p| { return Rejected(TruncatedRead, cursor + 2), cursor; }
      return Accepted, cursor + 4;
    }
    if l.hasMax && size > l.maxLength { return Rejected(InvalidFieldLength, cursor), cursor; }
    if cursor + 2 + size > |p| { return Rejected(TruncatedRead, cursor + 2), cursor; }
    return Accepted, cursor + 2 + size;
  }
}
