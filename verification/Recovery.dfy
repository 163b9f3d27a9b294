/** The synchronizer's loops: the walkers over a layout, the search for the next packet, and recovery of all of them. */
module Recovery {
  import opened Wire
  import opened Bits
  import opened Schema
  import opened Registry
  import opened Codec
  import opened RuntimeOptimizer
  import opened Corruption
  import opened Synchronizer

  /** One variable field: the cursor after it. */
  method MeasureVariableField(l: FieldLayout, ghost f: FieldDef, data: seq<byte>, start: nat)
    returns (next: Option<nat>)
    requires start <= |data| && f.ftype.Variable()
    requires l.ftype == f.ftype && l.hasMax == f.hasMax && l.maxLength == f.maxLength
    ensures next == Further(start, FieldSpan(f, true, data[start..]))
    ensures next.Some? ==> start <= next.value <= |data|
  {
    var cursor := start;
    if cursor + 2 > |data| { return None; }
    var size := data[cursor] as int + 256 * data[cursor + 1] as int;
    assert size == Word(data[start..]);
    cursor := cursor + 2;
    if l.ftype.String? && size == REFERENCE {
      if cursor + 2 > |data| { return None; }
      return Some(cursor + 2);
    }
    if l.hasMax && size > l.maxLength { return None; }
    if cursor + size > |data| { return None; }
    return Some(cursor + size);
  }

  /** What is left to measure, when the walk has come to `cursor` before field i. */
  ghost predicate Measuring(schema: SchemaDef, flags: seq<bool>, data: seq<byte>, start: nat, i: nat, cursor: nat)
    requires |flags| == |schema.fields| && i <= |flags| && start <= |data| && cursor <= |data|
  {
    Further(start, OptimizedSpan(schema.fields, flags, data[start..]))
      == Further(cursor, OptimizedSpan(schema.fields[i..], flags[i..], data[cursor..]))
  }

  lemma MeasuringEnds(schema: SchemaDef, flags: seq<bool>, data: seq<byte>, start: nat, cursor: nat)
    requires |flags| == |schema.fields| && start <= |data| && cursor <= |data|
    ensures Measuring(schema, flags, data, start, 0, start)
    ensures Measuring(schema, flags, data, start, |flags|, cursor) ==>
      Further(start, OptimizedSpan(schema.fields, flags, data[start..])) == Some(cursor)
  {
    assert schema.fields[0..] == schema.fields && flags[0..] == flags;
  }

  lemma MeasuringStep(schema: SchemaDef, flags: seq<bool>, data: seq<byte>, start: nat, i: nat, cursor: nat)
    requires |flags| == |schema.fields| && i < |flags| && start <= |data| && cursor <= |data|
    requires Measuring(schema, flags, data, start, i, cursor)
    ensures var f := schema.fields[i];
      var next := if !f.ftype.Variable() && flags[i] then Some(cursor)
                  else Further(cursor, FieldSpan(f, true, data[cursor..]));
      match next
      case None => OptimizedSpan(schema.fields, flags, data[start..]) == None
      case Some(c) => c <= |data| && Measuring(schema, flags, data, start, i + 1, c)
  {
    hide OptimizedSpan, FieldSpan;
    var fields, d := schema.fields[i..], data[cursor..];
    assert fields[0] == schema.fields[i] && fields[1..] == schema.fields[i + 1..] && flags[i..][1..] == flags[i + 1..];
    if !fields[0].ftype.Variable() && flags[i..][0] {
      OptimizedOmitted(fields, flags[i..], d);
    } else {
      OptimizedUnfolds(fields, flags[i..], d);
      if FieldSpan(fields[0], true, d).Some? {
        FieldSpanFits(fields[0], d);
        SliceStep(data, cursor, FieldSpan(fields[0], true, d).value);
      }
    }
  }

  lemma EntryOf(schema: SchemaDef, layout: PacketLayout, i: nat)
    requires layout == LayoutOf(schema) && i < |schema.fields|
    ensures var l, f := layout.fields[i], schema.fields[i];
      && l.ftype == f.ftype && l.fixedSize == f.ftype.Size() && l.variable == f.ftype.Variable()
      && l.hasMax == f.hasMax && l.maxLength == f.maxLength
  {
    assert layout.fields[i] == LayoutEntry(schema.fields, i);
  }

  /** Nothing is omitted from a plain body. */
  function NoneOmitted(n: nat): (flags: seq<bool>)
    ensures |flags| == n
  {
    seq(n, _ => false)
  }

  lemma {:induction false} PlainIsOptimizedByNothing(fields: seq<FieldDef>, d: seq<byte>)
    ensures OptimizedSpan(fields, NoneOmitted(|fields|), d) == Span(fields, true, d)
    decreases |fields|
  {
    hide *;
    if fields == [] {
      NoFields(fields, d);
    } else {
      var k := FieldSpan(fields[0], true, d);
      NoneOmittedParts(|fields|);
      OptimizedUnfolds(fields, NoneOmitted(|fields|), d);
      FurtherIs(if k.Some? then k.value else 0, Span(fields[1..], true, if k.Some? then d[k.value..] else d));
      if k.Some? {
        SpanUnfolds(fields, true, d, k.value);
        PlainIsOptimizedByNothing(fields[1..], d[k.value..]);
      } else {
        SpanStops(fields, d);
      }
    }
  }

  lemma NoFields(fields: seq<FieldDef>, d: seq<byte>)
    requires fields == []
    ensures OptimizedSpan(fields, NoneOmitted(0), d) == Span(fields, true, d)
  {
  }

  lemma NoneOmittedParts(n: nat)
    requires n > 0
    ensures !NoneOmitted(n)[0] && NoneOmitted(n)[1..] == NoneOmitted(n - 1)
  {
  }

  lemma SpanStops(fields: seq<FieldDef>, d: seq<byte>)
    requires fields != [] && FieldSpan(fields[0], true, d).None?
    ensures Span(fields, true, d) == None
  {
    hide FieldSpan;
  }

  /** The loop both walkers share: field by field, skipping the fixed fields whose bit is set. */
  method MeasureFields(schema: SchemaDef, layout: PacketLayout, flags: seq<bool>, data: seq<byte>, start: nat)
    returns (end: Option<nat>)
    requires layout == LayoutOf(schema) && |flags| == |schema.fields| && start <= |data|
    ensures end == Further(start, OptimizedSpan(schema.fields, flags, data[start..]))
  {
    hide *;
    var cursor: nat := start;
    MeasuringEnds(schema, flags, data, start, cursor);
    FurtherIs(start, OptimizedSpan(schema.fields, flags, data[start..]));
    for i := 0 to |layout.fields|
      invariant cursor <= |data| && |layout.fields| == |schema.fields|
      invariant Measuring(schema, flags, data, start, i, cursor)
    {
      MeasuringStep(schema, flags, data, start, i, cursor);
      EntryOf(schema, layout, i);
      var l := layout.fields[i];
      if !l.variable {
        FixedSpan(schema.fields[i], data, cursor);
        if flags[i] { continue; }
        if cursor + l.fixedSize > |data| { return None; }
        cursor := cursor + l.fixedSize;
      } else {
        var next := MeasureVariableField(l, schema.fields[i], data, cursor);
        if next.None? { return None; }
        cursor := next.value;
      }
    }
    MeasuringEnds(schema, flags, data, start, cursor);
    return Some(cursor);
  }

  lemma FixedSpan(f: FieldDef, data: seq<byte>, cursor: nat)
    requires !f.ftype.Variable() && cursor <= |data|
    ensures Further(cursor, FieldSpan(f, true, data[cursor..]))
      == if cursor + f.ftype.Size() > |data| then None else Some(cursor + f.ftype.Size())
  {
  }

  method MeasureUnoptimizedPacket(schema: SchemaDef, layout: PacketLayout, data: seq<byte>, offset: nat)
    returns (n: Option<nat>)
    requires layout == LayoutOf(schema) && offset <= |data|
    ensures n == MeasurePlain(schema, data[offset..])
  {
    hide *;
    PlainFrom(schema, data, offset);
    if offset + 2 > |data| { return None; }
    DropTwice(data, offset, 2);
    FixedLayout(schema, layout);
    if layout.fixedOnly {
      FixedMeasure(schema, data[offset..]);
      if offset + layout.fixedPacketSize > |data| { return None; }
      return Some(layout.fixedPacketSize);
    }
    PlainIsOptimizedByNothing(schema.fields, data[offset + 2..]);
    var end := MeasureFields(schema, layout, NoneOmitted(|schema.fields|), data, offset + 2);
    FurtherIs(2, Span(schema.fields, true, data[offset + 2..]));
    FurtherIs(offset + 2, Span(schema.fields, true, data[offset + 2..]));
    return if end.Some? then Some(end.value - offset) else None;
  }

  lemma PlainFrom(schema: SchemaDef, data: seq<byte>, offset: nat)
    requires offset <= |data|
    ensures offset + 2 > |data| ==> MeasurePlain(schema, data[offset..]) == None
    ensures offset + 2 <= |data| ==>
      MeasurePlain(schema, data[offset..]) == Further(2, Span(schema.fields, true, data[offset..][2..]))
  {
    MeasurePlainIs(schema, data[offset..]);
    hide MeasurePlain, Span;
    if offset + 2 > |data| { MeasurePlainShort(schema, data[offset..]); }
  }

  lemma MeasurePlainShort(schema: SchemaDef, s: seq<byte>)
    requires |s| < 2
    ensures MeasurePlain(schema, s) == None
  {
  }

  lemma FixedLayout(schema: SchemaDef, layout: PacketLayout)
    requires layout == LayoutOf(schema)
    ensures layout.fixedOnly == AllFixed(schema.fields)
    ensures layout.fixedOnly ==> layout.fixedPacketSize == MinimumSize(schema.fields)
  {
    hide FixedBytes, VariableFields;
  }

  /** The shortcut for schemas of fixed size measures what the walk would. */
  lemma FixedMeasure(schema: SchemaDef, s: seq<byte>)
    requires AllFixed(schema.fields) && |s| >= 2
    ensures MeasurePlain(schema, s)
      == if |s| >= MinimumSize(schema.fields) then Some(MinimumSize(schema.fields)) else None
  {
    SpanOfFixed(schema.fields, true, s[2..]);
    NoVariableFields(schema.fields);
  }

  predicate FrameAt(schema: SchemaDef, data: seq<byte>, offset: nat)
  {
    && offset + 4 <= |data| && data[offset + 2] == MARKER && data[offset + 3] == BitmapSize(|schema.fields|)
    && offset + 4 + data[offset + 3] as int <= |data|
  }

  lemma OptimizedAt(schema: SchemaDef, data: seq<byte>, offset: nat)
    requires offset <= |data|
    ensures MeasureOptimized(schema, data[offset..])
      == if !FrameAt(schema, data, offset) then None
         else
           var body := 4 + data[offset + 3] as int;
           Further(body,
             OptimizedSpan(schema.fields, Flags(data[offset + 4..], |schema.fields|), data[offset + body..]))
  {
    hide OptimizedSpan, Flags;
    if FrameAt(schema, data, offset) {
      assert data[offset..][4..] == data[offset + 4..];
      assert data[offset..][4 + data[offset + 3] as int..] == data[offset + 4 + data[offset + 3] as int..];
    }
  }

  function Since(offset: nat, end: Option<nat>): Option<nat>
    requires end.Some? ==> offset <= end.value
  {
    match end case None => None case Some(e) => Some(e - offset)
  }

  /** Where the body of a framed candidate begins. */
  function BodyStart(data: seq<byte>, offset: nat): nat
    requires offset + 4 <= |data|
  {
    offset + 4 + data[offset + 3] as int
  }

  lemma FrameMeasured(schema: SchemaDef, data: seq<byte>, offset: nat)
    requires FrameAt(schema, data, offset)
    ensures offset + 4 <= |data| && offset <= BodyStart(data, offset) <= |data|
    ensures var body := BodyStart(data, offset);
      MeasureOptimized(schema, data[offset..])
        == Since(offset, Further(body,
             OptimizedSpan(schema.fields, Flags(data[offset + 4..], |schema.fields|), data[body..])))
  {
    hide MeasureOptimized, OptimizedSpan, Flags, BitmapSize;
    OptimizedAt(schema, data, offset);
    var body := BodyStart(data, offset);
    var n := OptimizedSpan(schema.fields, Flags(data[offset + 4..], |schema.fields|), data[body..]);
    SinceFurther(offset, body - offset, n);
  }

  lemma SinceFurther(offset: nat, k: nat, n: Option<nat>)
    ensures Further(offset + k, n).Some? ==> offset <= Further(offset + k, n).value
    ensures Since(offset, Further(offset + k, n)) == Further(k, n)
  {
  }

  method MeasureFrame(schema: SchemaDef, layout: PacketLayout, data: seq<byte>, offset: nat) returns (n: Option<nat>)
    requires layout == LayoutOf(schema) && FrameAt(schema, data, offset)
    ensures n == MeasureOptimized(schema, data[offset..])
  {
    hide *;
    FrameMeasured(schema, data, offset);
    var flags := Flags(data[offset + 4..], |layout.fields|);
    var end := MeasureFields(schema, layout, flags, data, BodyStart(data, offset));
    FurtherGrows(BodyStart(data, offset), OptimizedSpan(schema.fields, flags, data[BodyStart(data, offset)..]));
    return Since(offset, end);
  }

  lemma FurtherGrows(k: nat, n: Option<nat>)
    ensures Further(k, n).Some? ==> k <= Further(k, n).value
  {
  }

  method MeasureOptimizedPacket(schema: SchemaDef, layout: PacketLayout, data: seq<byte>, offset: nat)
    returns (n: Option<nat>)
    requires layout == LayoutOf(schema) && offset <= |data|
    ensures n == MeasureOptimized(schema, data[offset..])
  {
    OptimizedAt(schema, data, offset);
    hide MeasureOptimized, OptimizedSpan, Flags, LayoutOf, BitmapSize, Further;
    if !FrameAt(schema, data, offset) { return None; }
    n := MeasureFrame(schema, layout, data, offset);
  }

  method CandidateIsValid(schema: SchemaDef, layout: PacketLayout, candidate: seq<byte>) returns (ok: bool)
    requires layout == LayoutOf(schema)
    ensures ok == CandidateValid(schema, candidate)
  {
    hide Deoptimize, Check;
    var r := DeoptimizePacket(schema, candidate);
    if !r.ok { return false; }
    var verdict := CheckKeydropPacket(r.packet, schema, layout);
    return verdict.Accepted?;
  }

  /** The dispatch on the marker and the measurement of one candidate. */
  method MeasureCandidate(schema: SchemaDef, layout: PacketLayout, data: seq<byte>, offset: nat)
    returns (n: Option<nat>)
    requires layout == LayoutOf(schema) && offset <= |data|
    ensures n == Measure(schema, data[offset..])
  {
    hide MeasureOptimized, MeasurePlain;
    if offset + 3 <= |data| && data[offset + 2] == MARKER {
      n := MeasureOptimizedPacket(schema, layout, data, offset);
    } else {
      n := MeasureUnoptimizedPacket(schema, layout, data, offset);
    }
  }

  /**
   * The search, one offset after the other. The candidate check is made as the original makes it; by walker
   * agreement it never turns a measured candidate down.
   */
  method RecoverNextPacket(data: seq<byte>, reg: Registry) returns (r: Option<Recovered>)
    requires reg.Valid()
    ensures match NextFrom(reg, data, 0)
      case None => r == None
      case Some(at) => r == Some(RecoveredAt(reg, data, 0, at))
  {
    if |data| < 2 { return None; }
    var offset := 0;
    while offset + 2 <= |data|
      invariant offset <= |data|
      invariant NextFrom(reg, data, 0) == NextFrom(reg, data, offset)
    {
      var found := TryOffset(data, reg, offset);
      hide PacketAt;
      if found.Some? { return found; }
      offset := offset + 1;
    }
    return None;
  }

  method TryOffset(data: seq<byte>, reg: Registry, offset: nat) returns (r: Option<Recovered>)
    requires reg.Valid() && offset + 2 <= |data|
    ensures match PacketAt(reg, data[offset..])
      case None => r == None
      case Some(_) => r == Some(RecoveredAt(reg, data, 0, offset))
  {
    hide Measure, CandidateValid;
    var id := data[offset] as int + 256 * data[offset + 1] as int;
    assert id == Word(data[offset..]);
    var schema := reg.FindById(id);
    if schema.None? { return None; }
    var layout := BuildPacketLayout(schema.value);
    var size := MeasureCandidate(schema.value, layout, data, offset);
    if size.None? { return None; }
    var candidate := data[offset..offset + size.value];
    assert candidate == data[offset..][..size.value];
    WalkerAgreement(reg, data[offset..]);
    var valid := CandidateIsValid(schema.value, layout, candidate);
    if !valid { return None; }
    return Some(Recovered(offset, offset, id, schema.value.name, candidate));
  }

  // Positions in what remains, and in the whole stream.

  lemma {:induction false} NextShifted(reg: Registry, data: seq<byte>, consumed: nat, start: nat)
    requires consumed + start <= |data|
    ensures NextFrom(reg, data, consumed + start) == Further(consumed, NextFrom(reg, data[consumed..], start))
    decreases |data| - start
  {
    hide PacketAt, NextFrom;
    RemainingNext(data, consumed, start);
    NextUnfolds(reg, data, consumed + start);
    NextUnfolds(reg, data[consumed..], start);
    if consumed + start + 2 <= |data| && PacketAt(reg, data[consumed + start..]).None? {
      NextShifted(reg, data, consumed, start + 1);
    }
  }

  lemma NextUnfolds(reg: Registry, data: seq<byte>, start: nat)
    requires start <= |data|
    ensures NextFrom(reg, data, start)
      == if start + 2 > |data| then None
         else if PacketAt(reg, data[start..]).Some? then Some(start)
         else NextFrom(reg, data, start + 1)
  {
    hide PacketAt;
  }

  lemma RecoveredShifted(reg: Registry, data: seq<byte>, consumed: nat, at: nat)
    requires consumed + at <= |data| && PacketAt(reg, data[consumed..][at..]).Some?
    ensures data[consumed..][at..] == data[consumed + at..]
    ensures var r := RecoveredAt(reg, data[consumed..], 0, at);
      RecoveredAt(reg, data, consumed, consumed + at) == r.(offset := r.offset + consumed)
  {
    hide PacketAt;
  }

  /** What is left to recover. */
  ghost predicate Recovering(reg: Registry, data: seq<byte>, consumed: nat, found: seq<Recovered>)
  {
    consumed <= |data| && RecoverFrom(reg, data, 0) == found + RecoverFrom(reg, data, consumed)
  }

  lemma RecoveringStep(reg: Registry, data: seq<byte>, consumed: nat, found: seq<Recovered>)
    requires Recovering(reg, data, consumed, found)
    ensures match NextFrom(reg, data[consumed..], 0)
      case None => RecoverFrom(reg, data, 0) == found
      case Some(at) =>
        var r := RecoveredAt(reg, data[consumed..], 0, at);
        && |r.packet| >= 2 && r.skipped == at && at + |r.packet| <= |data| - consumed
        && Recovering(reg, data, consumed + at + |r.packet|, found + [r.(offset := r.offset + consumed)])
  {
    hide PacketAt, NextFrom, RecoverFrom, RecoveredAt;
    NextShifted(reg, data, consumed, 0);
    var next := NextFrom(reg, data[consumed..], 0);
    if next.None? {
      RecoverNothing(reg, data, consumed);
      assert found + [] == found;
    } else {
      var at := next.value;
      RecoveredShifted(reg, data, consumed, at);
      RecoveredSize(reg, data[consumed..], 0, at);
      RecoverUnfolds(reg, data, consumed, consumed + at);
      var r := RecoveredAt(reg, data, consumed, consumed + at);
      assert found + ([r] + RecoverFrom(reg, data, r.End())) == found + [r] + RecoverFrom(reg, data, r.End());
    }
  }

  lemma RecoverNothing(reg: Registry, data: seq<byte>, start: nat)
    requires start <= |data| && NextFrom(reg, data, start) == None
    ensures RecoverFrom(reg, data, start) == []
  {
  }

  lemma RecoveredSize(reg: Registry, data: seq<byte>, start: nat, at: nat)
    requires start <= at <= |data| && PacketAt(reg, data[at..]).Some?
    ensures var r := RecoveredAt(reg, data, start, at);
      |r.packet| >= 2 && at + |r.packet| <= |data| && r.skipped == at - start && r.offset == at
  {
    hide Measure;
  }

  lemma RecoveringStart(reg: Registry, data: seq<byte>)
    ensures Recovering(reg, data, 0, []) && data[0..] == data
  {
    assert [] + RecoverFrom(reg, data, 0) == RecoverFrom(reg, data, 0);
  }

  lemma RemainingNext(data: seq<byte>, consumed: nat, k: nat)
    requires consumed + k <= |data|
    ensures data[consumed..][k..] == data[consumed + k..] && |data[consumed..]| == |data| - consumed
  {
  }

  method RecoverAllPackets(data: seq<byte>, reg: Registry) returns (found: seq<Recovered>)
    requires reg.Valid()
    ensures found == RecoverFrom(reg, data, 0)
  {
    hide *;
    found := [];
    var remaining: seq<byte>, consumed: nat := data, 0;
    RecoveringStart(reg, data);
    while remaining != []
      invariant consumed <= |data| && remaining == data[consumed..]
      invariant Recovering(reg, data, consumed, found)
      decreases |remaining|
    {
      RecoveringStep(reg, data, consumed, found);
      var r := RecoverNextPacket(remaining, reg);
      if r.None? { return; }
      var used := r.value.skipped + |r.value.packet|;
      RemainingNext(data, consumed, used);
      found := found + [r.value.(offset := r.value.offset + consumed)];
      consumed := consumed + used;
      if used >= |remaining| { break; }
      remaining := remaining[used..];
    }
    NothingAfter(reg, data, consumed, found);
  }

  lemma NothingAfter(reg: Registry, data: seq<byte>, consumed: nat, found: seq<Recovered>)
    requires Recovering(reg, data, consumed, found) && consumed == |data|
    ensures RecoverFrom(reg, data, 0) == found
  {
    assert RecoverFrom(reg, data, |data|) == [];
    assert found + [] == found;
  }
}
