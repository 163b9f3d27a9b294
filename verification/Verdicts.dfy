/** Why the structural check turns a packet away, and where: cut packets, trailing bytes, lengths over the limit. */
module Verdicts {
  import opened Wire
  import opened Bits
  import opened Schema
  import opened Codec
  import opened Corruption

  /** Where field k of a body starts, the body at `cursor` of the packet. */
  function FieldStart(fields: seq<FieldDef>, p: seq<byte>, cursor: nat, k: nat): (at: Option<nat>)
    requires k <= |fields| && cursor <= |p|
    ensures at.Some? ==> cursor <= at.value <= |p|
    decreases k
  {
    if k == 0 then Some(cursor)
    else
      match FieldSpan(fields[0], true, p[cursor..])
      case None => None
      case Some(n) => FieldStart(fields[1..], p, cursor + n, k - 1)
  }

  /**
   * Where a packet that is cut to n bytes breaks off: in the field that no longer fits, at its start, or behind its
   * length word when that is still there.
   */
  function CutOffset(fields: seq<FieldDef>, p: seq<byte>, cursor: nat, n: nat): nat
    requires cursor <= |p|
  {
    if fields == [] then n
    else
      var span := FieldSpan(fields[0], true, p[cursor..]);
      if span.Some? && cursor + span.value <= n then CutOffset(fields[1..], p, cursor + span.value, n)
      else if fields[0].ftype.Variable() && cursor + 2 <= n then cursor + 2
      else cursor
  }

  lemma WordThere(p: seq<byte>, n: nat, cursor: nat)
    requires cursor + 2 <= n <= |p|
    ensures Word(p[..n][cursor..]) == Word(p[cursor..])
  {
  }

  /** One field that still fits, or no longer does. */
  lemma CutField(f: FieldDef, p: seq<byte>, cursor: nat, n: nat)
    requires cursor <= n <= |p| && FieldSpan(f, true, p[cursor..]).Some?
    ensures var k := FieldSpan(f, true, p[cursor..]).value;
      CheckField(f, p[..n], cursor)
        == if cursor + k <= n then (Accepted, cursor + k)
           else (Rejected(TruncatedRead, if f.ftype.Variable() && cursor + 2 <= n then cursor + 2 else cursor), cursor)
  {
    if cursor + 2 <= n { WordThere(p, n, cursor); }
    hide Word;
  }

  lemma CutUnfolds(fields: seq<FieldDef>, p: seq<byte>, cursor: nat, n: nat, k: nat)
    requires fields != [] && cursor <= n <= |p| && k <= |p| - cursor
    requires FieldSpan(fields[0], true, p[cursor..]) == Some(k)
    ensures CutOffset(fields, p, cursor, n)
      == if cursor + k <= n then CutOffset(fields[1..], p, cursor + k, n)
         else if fields[0].ftype.Variable() && cursor + 2 <= n then cursor + 2 else cursor
    ensures var (v, next) := CheckField(fields[0], p[..n], cursor);
      next <= n ==>
        CheckFields(fields, p[..n], cursor) == if v.Rejected? then v else CheckFields(fields[1..], p[..n], next)
  {
    hide FieldSpan, CheckField;
  }

  lemma {:induction false} CutFields(fields: seq<FieldDef>, p: seq<byte>, cursor: nat, n: nat)
    requires cursor <= n < |p| && Span(fields, true, p[cursor..]) == Some(|p| - cursor)
    ensures CheckFields(fields, p[..n], cursor) == Rejected(TruncatedRead, CutOffset(fields, p, cursor, n))
    decreases |fields|
  {
    hide FieldSpan, CheckField;
    if fields != [] {
      SpanParts(fields, true, p[cursor..], |p| - cursor);
      hide Span, CheckFields, CutOffset;
      var k := FieldSpan(fields[0], true, p[cursor..]).value;
      CutField(fields[0], p, cursor, n);
      CutUnfolds(fields, p, cursor, n, k);
      DropTwice(p, cursor, k);
      if cursor + k <= n { CutFields(fields[1..], p, cursor + k, n); }
    }
  }

  lemma SameId(p: seq<byte>, n: nat)
    requires 2 <= n <= |p|
    ensures Word(p[..n]) == Word(p)
  {
  }

  lemma CheckIs(schema: SchemaDef, q: seq<byte>)
    requires |q| >= 2 ==> Word(q) == schema.messageId
    ensures Check(schema, q)
      == if |q| < 2 then Rejected(MinimumLength, |q|)
         else if AllFixed(schema.fields) then
           if |q| < MinimumSize(schema.fields) then Rejected(TruncatedRead, |q|)
           else if |q| != MinimumSize(schema.fields) then Rejected(BoundaryMismatch, MinimumSize(schema.fields))
           else Accepted
         else CheckFields(schema.fields, q, 2)
  {
    hide CheckFields, MinimumSize, Word, AllFixed;
  }

  /** All fields fixed: every well-formed packet has the minimum size. */
  lemma FixedSize(schema: SchemaDef, p: seq<byte>)
    requires WellFormed(schema, p)
    ensures |p| >= 2 && Word(p) == schema.messageId && Span(schema.fields, true, p[2..]) == Some(|p| - 2)
    ensures AllFixed(schema.fields) ==> |p| == MinimumSize(schema.fields)
  {
    if AllFixed(schema.fields) {
      SpanOfFixed(schema.fields, true, p[2..]);
      NoVariableFields(schema.fields);
    }
    hide Span, Word;
  }

  /**
   * A well-formed packet cut short is rejected as too short for an id or as truncated, at the end of what is left where
   * all fields are fixed and otherwise where it breaks off.
   */
  lemma CutIsTruncated(schema: SchemaDef, p: seq<byte>, n: nat)
    requires WellFormed(schema, p) && n < |p|
    ensures Check(schema, p[..n])
      == if n < 2 then Rejected(MinimumLength, n)
         else Rejected(TruncatedRead, if AllFixed(schema.fields) then n else CutOffset(schema.fields, p, 2, n))
  {
    hide *;
    FixedSize(schema, p);
    if n >= 2 {
      SameId(p, n);
      CutFields(schema.fields, p, 2, n);
    }
    CheckIs(schema, p[..n]);
  }

  lemma {:induction false} LongerFields(fields: seq<FieldDef>, p: seq<byte>, cursor: nat, suffix: seq<byte>)
    requires cursor <= |p| && Span(fields, true, p[cursor..]) == Some(|p| - cursor) && suffix != []
    ensures CheckFields(fields, p + suffix, cursor) == Rejected(BoundaryMismatch, |p|)
    decreases |fields|
  {
    hide FieldSpan, CheckField;
    if fields != [] {
      SpanParts(fields, true, p[cursor..], |p| - cursor);
      var k := FieldSpan(fields[0], true, p[cursor..]).value;
      FieldSpanLocal(fields[0], true, p[cursor..], k, p[cursor + k..] + suffix);
      assert p[cursor..][..k] + (p[cursor + k..] + suffix) == (p + suffix)[cursor..];
      CheckFieldSpan(fields[0], p + suffix, cursor);
      DropTwice(p, cursor, k);
      LongerFields(fields[1..], p, cursor + k, suffix);
    }
  }

  /** Bytes after a well-formed packet are rejected at the packet's end. */
  lemma TrailingBytes(schema: SchemaDef, p: seq<byte>, suffix: seq<byte>)
    requires WellFormed(schema, p) && suffix != []
    ensures Check(schema, p + suffix) == Rejected(BoundaryMismatch, |p|)
  {
    hide *;
    FixedSize(schema, p);
    assert (p + suffix)[..|p|] == p;
    SameId(p + suffix, |p|);
    LongerFields(schema.fields, p, 2, suffix);
    CheckIs(schema, p + suffix);
  }

  lemma {:induction false} FieldsUpTo(fields: seq<FieldDef>, p: seq<byte>, cursor: nat, k: nat)
    requires k <= |fields| && cursor <= |p| && FieldStart(fields, p, cursor, k).Some?
    ensures CheckFields(fields, p, cursor) == CheckFields(fields[k..], p, FieldStart(fields, p, cursor, k).value)
    decreases k
  {
    hide FieldSpan, CheckField;
    if k == 0 {
      assert fields[0..] == fields;
    } else {
      var n := FieldSpan(fields[0], true, p[cursor..]).value;
      CheckFieldSpan(fields[0], p, cursor);
      FieldsUpTo(fields[1..], p, cursor + n, k - 1);
      assert fields[1..][k - 1..] == fields[k..];
    }
  }

  /** A string or byte array over its field's limit, after fields that fit, is rejected at its start. */
  lemma OverLimitRejected(schema: SchemaDef, p: seq<byte>, k: nat)
    requires |p| >= 2 && Word(p) == schema.messageId && k < |schema.fields|
    requires FieldStart(schema.fields, p, 2, k).Some?
    requires var f, at := schema.fields[k], FieldStart(schema.fields, p, 2, k).value;
      && f.ftype.Variable() && f.hasMax && at + 2 <= |p| && Word(p[at..]) > f.maxLength
      && !(f.ftype.String? && Word(p[at..]) == REFERENCE)
    ensures Check(schema, p) == Rejected(InvalidFieldLength, FieldStart(schema.fields, p, 2, k).value)
  {
    FieldsUpTo(schema.fields, p, 2, k);
    NotAllFixed(schema.fields, k);
    hide FieldStart, Word, MinimumSize;
    var rest := schema.fields[k..];
    assert rest[0] == schema.fields[k];
  }

  lemma NotAllFixed(fields: seq<FieldDef>, k: nat)
    requires k < |fields| && fields[k].ftype.Variable()
    ensures !AllFixed(fields)
  {
  }

  /** Too few bytes for an id, or the id of another schema. */
  lemma HeadRejected(schema: SchemaDef, p: seq<byte>)
    ensures |p| < 2 ==> Check(schema, p) == Rejected(MinimumLength, |p|)
    ensures |p| >= 2 && (p[0] != schema.messageId % 256 || p[1] != schema.messageId / 256) ==>
      Check(schema, p) == Rejected(IdMismatch, 0)
  {
    hide CheckFields, MinimumSize;
  }

  // The layout and the packets.

  lemma ZerosAdd(a: nat, b: nat)
    ensures Zeros(a) + Zeros(b) == Zeros(a + b)
  {
  }

  function LeastBytes(f: FieldDef): nat { if f.ftype.Variable() then 2 else f.ftype.Size() }

  lemma LeastBytesSum(fields: seq<FieldDef>)
    requires fields != []
    ensures MinimumSize(fields) == LeastBytes(fields[0]) + MinimumSize(fields[1..])
  {
  }

  lemma ZeroField(f: FieldDef, rest: seq<byte>)
    ensures FieldSpan(f, true, Zeros(LeastBytes(f)) + rest) == Some(LeastBytes(f))
  {
    var d := Zeros(LeastBytes(f)) + rest;
    if f.ftype.Variable() { assert d[0] == 0 && d[1] == 0; }
  }

  lemma {:induction false} ZeroBody(fields: seq<FieldDef>)
    ensures Span(fields, true, Zeros(MinimumSize(fields) - 2)) == Some(MinimumSize(fields) - 2)
    decreases |fields|
  {
    if fields != [] {
      hide *;
      var own, rest := LeastBytes(fields[0]), MinimumSize(fields[1..]) - 2;
      AtLeastTwo(fields[1..]);
      LeastBytesSum(fields);
      ZerosAdd(own, rest);
      ZeroField(fields[0], Zeros(rest));
      ZeroBody(fields[1..]);
      SpanStep(fields, true, Zeros(own), Zeros(rest));
    }
  }

  lemma AtLeastTwo(fields: seq<FieldDef>)
    ensures MinimumSize(fields) >= 2
  {
  }

  /** The minimum size of a layout is the least size of a packet that is accepted: none is shorter, and one has it. */
  lemma MinimumIsLeast(schema: SchemaDef, p: seq<byte>)
    ensures Check(schema, p).Accepted? ==> |p| >= MinimumSize(schema.fields)
    ensures var least := LE(schema.messageId, 2) + Zeros(MinimumSize(schema.fields) - 2);
      Check(schema, least).Accepted? && |least| == MinimumSize(schema.fields)
  {
    var body := Zeros(MinimumSize(schema.fields) - 2);
    ZeroBody(schema.fields);
    WordRoundTrip(schema.messageId, body);
    CheckIsGrammar(schema, p);
    CheckIsGrammar(schema, LE(schema.messageId, 2) + body);
    hide *;
    LeastWellFormed(schema, body);
    if |p| >= 2 && Span(schema.fields, true, p[2..]).Some? { SpanAtLeastMinimum(schema.fields, true, p[2..]); }
    AcceptedSpans(schema, p);
  }

  lemma AcceptedSpans(schema: SchemaDef, p: seq<byte>)
    ensures WellFormed(schema, p) ==> |p| >= 2 && Span(schema.fields, true, p[2..]) == Some(|p| - 2)
  {
    hide Span;
  }

  lemma LeastWellFormed(schema: SchemaDef, body: seq<byte>)
    requires Span(schema.fields, true, body) == Some(|body|)
    requires Word(LE(schema.messageId, 2) + body) == schema.messageId % 65536
    ensures WellFormed(schema, LE(schema.messageId, 2) + body)
  {
    hide Span, Word, LE;
    assert (LE(schema.messageId, 2) + body)[2..] == body;
  }

  lemma StartUnfolds(fields: seq<FieldDef>, p: seq<byte>, cursor: nat, k: nat)
    requires 0 < k <= |fields| && cursor <= |p| && FieldStart(fields, p, cursor, k).Some?
    ensures FieldSpan(fields[0], true, p[cursor..]).Some?
    ensures FieldStart(fields, p, cursor, k)
      == FieldStart(fields[1..], p, cursor + FieldSpan(fields[0], true, p[cursor..]).value, k - 1)
  {
    hide FieldSpan;
  }

  lemma {:induction false} StartAtLeast(fields: seq<FieldDef>, p: seq<byte>, cursor: nat, k: nat)
    requires k <= |fields| && cursor <= |p| && FieldStart(fields, p, cursor, k).Some?
    ensures var at := FieldStart(fields, p, cursor, k).value;
      && at >= cursor + MinimumSize(fields[..k]) - 2
      && (AllFixed(fields[..k]) ==> at == cursor + MinimumSize(fields[..k]) - 2)
    decreases k
  {
    if k > 0 {
      hide *;
      StartUnfolds(fields, p, cursor, k);
      OwnSpan(fields[0], p[cursor..]);
      StartAtLeast(fields[1..], p, cursor + FieldSpan(fields[0], true, p[cursor..]).value, k - 1);
      LeastBytesSum(fields[..k]);
      FirstFixed(fields[..k]);
      assert fields[..k][1..] == fields[1..][..k - 1];
    }
  }

  lemma OwnSpan(f: FieldDef, d: seq<byte>)
    ensures FieldSpan(f, true, d).Some? ==> FieldSpan(f, true, d).value >= LeastBytes(f)
    ensures FieldSpan(f, true, d).Some? && !f.ftype.Variable() ==> FieldSpan(f, true, d).value == LeastBytes(f)
  {
  }

  lemma FirstFixed(fields: seq<FieldDef>)
    requires fields != []
    ensures AllFixed(fields) ==> !fields[0].ftype.Variable() && AllFixed(fields[1..])
  {
  }

  /**
   * The offsets of a layout: in every packet field k starts at its offset or after it, and exactly there unless its
   * offset is called dynamic; then a string or byte array comes before it.
   */
  lemma LayoutOffsets(schema: SchemaDef, p: seq<byte>, k: nat)
    requires |p| >= 2 && k < |schema.fields| && FieldStart(schema.fields, p, 2, k).Some?
    ensures var entry, at := LayoutOf(schema).fields[k], FieldStart(schema.fields, p, 2, k).value;
      && entry.byteOffset <= at && (!entry.dynamicOffset ==> at == entry.byteOffset)
      && (entry.dynamicOffset <==> exists i :: 0 <= i < k && schema.fields[i].ftype.Variable())
  {
    StartAtLeast(schema.fields, p, 2, k);
    hide FieldStart, MinimumSize;
    var front := schema.fields[..k];
    assert LayoutOf(schema).fields[k] == LayoutEntry(schema.fields, k);
    if !AllFixed(front) {
      var i :| 0 <= i < |front| && front[i].ftype.Variable();
      assert schema.fields[i] == front[i];
    }
    if i :| 0 <= i < k && schema.fields[i].ftype.Variable() { assert front[i] == schema.fields[i]; }
  }
}
