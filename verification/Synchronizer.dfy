/** Finding packets in a byte stream: the measuring walkers, and recovery of every packet with the gaps between them. */
module Synchronizer {
  import opened Wire
  import opened Bits
  import opened Schema
  import opened Registry
  import opened Codec
  import opened RuntimeOptimizer
  import opened Corruption

  // What the walkers compute, on the bytes from the candidate's start on.

  function MeasurePlain(schema: SchemaDef, s: seq<byte>): (n: Option<nat>)
    ensures n.Some? ==> 2 <= n.value <= |s|
  {
    if |s| < 2 then None
    else match Span(schema.fields, true, s[2..]) case None => None case Some(n) => Some(2 + n)
  }

  /** The bytes an optimized body occupies: omitted fields none, the others their span within the limits. */
  function OptimizedSpan(fields: seq<FieldDef>, flags: seq<bool>, d: seq<byte>): (span: Option<nat>)
    requires |flags| == |fields|
    ensures span.Some? ==> span.value <= |d|
  {
    if fields == [] then Some(0)
    else
      var first := if !fields[0].ftype.Variable() && flags[0] then Some(0) else FieldSpan(fields[0], true, d);
      if first.None? then None
      else Further(first.value, OptimizedSpan(fields[1..], flags[1..], d[first.value..]))
  }

  function MeasureOptimized(schema: SchemaDef, s: seq<byte>): (n: Option<nat>)
    ensures n.Some? ==> 4 <= n.value <= |s|
  {
    if |s| < 4 || s[2] != MARKER || s[3] != BitmapSize(|schema.fields|) || |s| < 4 + s[3] as int then None
    else
      var size := s[3] as int;
      match OptimizedSpan(schema.fields, Flags(s[4..], |schema.fields|), s[4 + size..])
      case None => None
      case Some(n) => Some(4 + size + n)
  }

  function Measure(schema: SchemaDef, s: seq<byte>): (n: Option<nat>)
    ensures n.Some? ==> 2 <= n.value <= |s|
  {
    if IsOptimized(s) then MeasureOptimized(schema, s) else MeasurePlain(schema, s)
  }

  /** The length of the packet of a registered schema that the stream starts with. */
  function PacketAt(reg: Registry, s: seq<byte>): (n: Option<nat>)
    ensures n.Some? ==> 2 <= n.value <= |s|
  {
    if |s| < 2 then None
    else match reg.FindById(Word(s)) case None => None case Some(schema) => Measure(schema, s)
  }

  /** The candidate check: the slice restores and the restored packet is accepted. */
  function CandidateValid(schema: SchemaDef, p: seq<byte>): bool
  {
    var r := Deoptimize(schema.fields, p);
    r.ok && Check(schema, r.packet).Accepted?
  }

  // Agreement of the walkers.

  lemma OptimizedOmitted(fields: seq<FieldDef>, flags: seq<bool>, d: seq<byte>)
    requires fields != [] && |flags| == |fields| && !fields[0].ftype.Variable() && flags[0]
    ensures OptimizedSpan(fields, flags, d) == OptimizedSpan(fields[1..], flags[1..], d)
  {
    assert d[0..] == d;
  }

  /** A longer span, if there is one. */
  function Further(k: nat, n: Option<nat>): Option<nat>
  {
    match n case None => None case Some(m) => Some(k + m)
  }

  lemma OptimizedUnfolds(fields: seq<FieldDef>, flags: seq<bool>, d: seq<byte>)
    requires fields != [] && |flags| == |fields| && (fields[0].ftype.Variable() || !flags[0])
    ensures FieldSpan(fields[0], true, d).None? ==> OptimizedSpan(fields, flags, d) == None
    ensures FieldSpan(fields[0], true, d).Some? ==>
      var k := FieldSpan(fields[0], true, d).value;
      OptimizedSpan(fields, flags, d) == Further(k, OptimizedSpan(fields[1..], flags[1..], d[k..]))
  {
    hide FieldSpan;
  }

  lemma OptimizedKept(fields: seq<FieldDef>, flags: seq<bool>, d: seq<byte>, wire: seq<byte>, tail: seq<byte>)
    requires fields != [] && |flags| == |fields| && (fields[0].ftype.Variable() || !flags[0])
    requires d == wire + tail && FieldSpan(fields[0], true, d) == Some(|wire|)
    ensures OptimizedSpan(fields, flags, d) == Further(|wire|, OptimizedSpan(fields[1..], flags[1..], tail))
  {
    hide *;
    OptimizedUnfolds(fields, flags, d);
    SplitAt(d, wire, tail);
  }

  /** The first field of a body that can be measured: its bytes and the rest. */
  lemma OptimizedFirst(fields: seq<FieldDef>, flags: seq<bool>, d: seq<byte>) returns (wire: seq<byte>, tail: seq<byte>)
    requires fields != [] && |flags| == |fields| && (fields[0].ftype.Variable() || !flags[0])
    requires OptimizedSpan(fields, flags, d).Some?
    ensures d == wire + tail && FieldSpan(fields[0], true, d) == Some(|wire|)
    ensures OptimizedSpan(fields, flags, d) == Further(|wire|, OptimizedSpan(fields[1..], flags[1..], tail))
  {
    OptimizedUnfolds(fields, flags, d);
    hide OptimizedSpan;
    var k := FieldSpan(fields[0], true, d).value;
    hide FieldSpan;
    wire, tail := d[..k], d[k..];
    JoinAt(d, k);
  }

  lemma NoOptimizedFields(fields: seq<FieldDef>, flags: seq<bool>, d: seq<byte>)
    requires fields == [] && |flags| == 0
    ensures OptimizedSpan(fields, flags, d) == Some(0)
  {
  }

  lemma TakeOfSplit(d: seq<byte>, wire: seq<byte>, tail: seq<byte>, n: nat, suffix: seq<byte>)
    requires d == wire + tail && |wire| <= n <= |d|
    ensures d[..n] + suffix == wire + (tail[..n - |wire|] + suffix)
  {
  }

  lemma {:induction false} OptimizedSpanLocal(fields: seq<FieldDef>, flags: seq<bool>, d: seq<byte>, n: nat,
                                              suffix: seq<byte>)
    requires |flags| == |fields| && n <= |d| && OptimizedSpan(fields, flags, d) == Some(n)
    ensures OptimizedSpan(fields, flags, d[..n] + suffix) == Some(n)
    decreases |fields|
  {
    hide *;
    if fields == [] {
      NoOptimizedFields(fields, flags, d);
      NoOptimizedFields(fields, flags, d[..n] + suffix);
    } else {
      if !fields[0].ftype.Variable() && flags[0] {
        OptimizedOmitted(fields, flags, d);
        OptimizedOmitted(fields, flags, d[..n] + suffix);
        OptimizedSpanLocal(fields[1..], flags[1..], d, n, suffix);
      } else {
        var wire, tail := OptimizedFirst(fields, flags, d);
        FurtherIs(|wire|, OptimizedSpan(fields[1..], flags[1..], tail));
        var rest := tail[..n - |wire|] + suffix;
        FurtherIs(|wire|, OptimizedSpan(fields[1..], flags[1..], rest));
        OptimizedSpanLocal(fields[1..], flags[1..], tail, n - |wire|, suffix);
        SplitAt(d, wire, tail);
        FieldSpanLocal(fields[0], true, d, |wire|, rest);
        TakeOfSplit(d, wire, tail, n, suffix);
        OptimizedKept(fields, flags, d[..n] + suffix, wire, rest);
      }
    }
  }

  /** What restoring a body makes of it is within the grammar, and uses the body up. */
  predicate RestoresWithin(fields: seq<FieldDef>, flags: seq<bool>, d: seq<byte>)
    requires |flags| == |fields|
  {
    match Restore(fields, flags, d)
    case None => false
    case Some((body, rest)) => rest == [] && Span(fields, true, body) == Some(|body|)
  }

  lemma RestoresOmitted(fields: seq<FieldDef>, flags: seq<bool>, d: seq<byte>)
    requires fields != [] && |flags| == |fields| && !fields[0].ftype.Variable() && flags[0]
    ensures RestoresWithin(fields, flags, d) == RestoresWithin(fields[1..], flags[1..], d)
  {
    RestoreOmitted(fields, flags, d);
    var rest := Restore(fields[1..], flags[1..], d);
    hide Restore;
    if rest.Some? {
      ZerosSpan(fields[0], rest.value.0);
      hide FieldSpan;
      SpanStep(fields, true, Zeros(fields[0].ftype.Size()), rest.value.0);
    }
  }

  lemma RestoresKept(fields: seq<FieldDef>, flags: seq<bool>, wire: seq<byte>, tail: seq<byte>)
    requires fields != [] && |flags| == |fields| && (fields[0].ftype.Variable() || !flags[0])
    requires FieldSpan(fields[0], true, wire + tail) == Some(|wire|)
    ensures RestoresWithin(fields, flags, wire + tail) == RestoresWithin(fields[1..], flags[1..], tail)
  {
    hide *;
    FieldUnlimited(fields[0], wire + tail);
    RestoreKept(fields, flags, wire, tail);
    WithinIs(fields, flags, wire + tail);
    WithinIs(fields[1..], flags[1..], tail);
    var rest := Restore(fields[1..], flags[1..], tail);
    PrefixedIs(wire, rest);
    if rest.Some? {
      SplitAt(wire + tail, wire, tail);
      FieldSpanLocal(fields[0], true, wire + tail, |wire|, rest.value.0);
      SpanStep(fields, true, wire, rest.value.0);
    }
  }

  lemma PrefixedIs(wire: seq<byte>, rest: Option<(seq<byte>, seq<byte>)>)
    ensures rest.None? ==> Prefixed(wire, rest) == None
    ensures rest.Some? ==> Prefixed(wire, rest) == Some((wire + rest.value.0, rest.value.1))
  {
  }

  /** A field outside the limits keeps the whole body from restoring to one within them. */
  lemma RestoresNothing(fields: seq<FieldDef>, flags: seq<bool>, d: seq<byte>)
    requires fields != [] && |flags| == |fields| && (fields[0].ftype.Variable() || !flags[0])
    requires FieldSpan(fields[0], true, d) == None
    ensures !RestoresWithin(fields, flags, d)
  {
    if RestoresWithin(fields, flags, d) {
      assert FieldSpan(fields[0], false, d).Some?;
      var k := FieldSpan(fields[0], false, d).value;
      JoinAt(d, k);
      hide FieldSpan;
      RestoreKept(fields, flags, d[..k], d[k..]);
      hide Restore;
      KeptWithinLimit(fields, d[..k], d[k..], Restore(fields[1..], flags[1..], d[k..]).value.0);
    }
  }

  /** A body is measured to its end exactly when it restores, leaving nothing, to a body within the grammar. */
  lemma {:induction false} MeasuredExactly(fields: seq<FieldDef>, flags: seq<bool>, d: seq<byte>)
    requires |flags| == |fields|
    ensures OptimizedSpan(fields, flags, d) == Some(|d|) <==> RestoresWithin(fields, flags, d)
    decreases |fields|
  {
    hide *;
    if fields == [] {
      NoOptimizedFields(fields, flags, d);
      NothingRestores(fields, flags, d);
    } else {
      if !fields[0].ftype.Variable() && flags[0] {
        OptimizedOmitted(fields, flags, d);
        RestoresOmitted(fields, flags, d);
        MeasuredExactly(fields[1..], flags[1..], d);
      } else if FieldSpan(fields[0], true, d).None? {
        OptimizedUnfolds(fields, flags, d);
        RestoresNothing(fields, flags, d);
      } else {
        var k := FieldSpan(fields[0], true, d).value;
        FieldSpanFits(fields[0], d);
        var wire, tail := d[..k], d[k..];
        JoinAt(d, k);
        FurtherIs(k, OptimizedSpan(fields[1..], flags[1..], tail));
        OptimizedKept(fields, flags, d, wire, tail);
        RestoresKept(fields, flags, wire, tail);
        MeasuredExactly(fields[1..], flags[1..], tail);
      }
    }
  }

  lemma NothingRestores(fields: seq<FieldDef>, flags: seq<bool>, d: seq<byte>)
    requires fields == [] && |flags| == 0
    ensures RestoresWithin(fields, flags, d) <==> d == []
  {
  }

  lemma FieldSpanFits(f: FieldDef, d: seq<byte>)
    requires FieldSpan(f, true, d).Some?
    ensures FieldSpan(f, true, d).value <= |d|
  {
  }

  /** A field that spans `wire` before one tail, and is within the limits before another, spans it within them. */
  lemma KeptWithinLimit(fields: seq<FieldDef>, wire: seq<byte>, tail: seq<byte>, body: seq<byte>)
    requires fields != [] && FieldSpan(fields[0], false, wire + tail) == Some(|wire|)
    requires Span(fields, true, wire + body).Some?
    ensures FieldSpan(fields[0], true, wire + tail) == FieldSpan(fields[0], true, wire + body) == Some(|wire|)
  {
    FieldSpanLocal(fields[0], false, wire + tail, |wire|, body);
    assert (wire + tail)[..|wire|] == wire;
    if fields[0].ftype.Variable() { assert Word(wire + tail) == Word(wire + body); }
  }

  lemma ZerosSpan(f: FieldDef, rest: seq<byte>)
    requires !f.ftype.Variable()
    ensures FieldSpan(f, true, Zeros(f.ftype.Size()) + rest) == Some(|Zeros(f.ftype.Size())|)
  {
  }

  lemma FieldUnlimited(f: FieldDef, d: seq<byte>)
    requires FieldSpan(f, true, d).Some?
    ensures FieldSpan(f, false, d) == FieldSpan(f, true, d)
  {
  }

  lemma FlagsLocal(bitmap: seq<byte>, n: nat, suffix: seq<byte>)
    requires |bitmap| == BitmapSize(n)
    ensures Flags(bitmap + suffix, n) == Flags(bitmap, n)
  {
    forall i | 0 <= i < n ensures BitAt(bitmap + suffix, i) == BitAt(bitmap, i) {
      hide BitOf;
      assert i / 8 < |bitmap|;
    }
  }

  /** The parts of an optimized packet the walkers look at. */
  predicate Framed(schema: SchemaDef, s: seq<byte>, bitmap: seq<byte>, d: seq<byte>)
  {
    && |s| >= 4 && s[2] == MARKER && s[3] == BitmapSize(|schema.fields|) == |bitmap|
    && s[4..] == bitmap + d
  }

  lemma FramedParts(schema: SchemaDef, s: seq<byte>, bitmap: seq<byte>, d: seq<byte>)
    requires Framed(schema, s, bitmap, d)
    ensures var size := s[3] as int; |s| >= 4 + size && s[4..4 + size] == bitmap && s[4 + size..] == d
    ensures Flags(s[4..], |schema.fields|) == Flags(bitmap, |schema.fields|)
  {
    SplitAt(s[4..], bitmap, d);
    assert s[4..4 + |bitmap|] == s[4..][..|bitmap|];
    assert s[4 + |bitmap|..] == s[4..][|bitmap|..];
    FlagsLocal(bitmap, |schema.fields|, d);
  }

  lemma MeasureFramed(schema: SchemaDef, s: seq<byte>, bitmap: seq<byte>, d: seq<byte>)
    requires Framed(schema, s, bitmap, d)
    ensures IsOptimized(s)
    ensures MeasureOptimized(schema, s)
      == Further(4 + |bitmap|, OptimizedSpan(schema.fields, Flags(bitmap, |schema.fields|), d))
    ensures Deoptimize(schema.fields, s)
      == match Restore(schema.fields, Flags(bitmap, |schema.fields|), d)
         case None => Unapplied(false, [])
         case Some((body, rest)) => (if rest != [] then Unapplied(false, []) else Applied(s, s[..2] + body))
  {
    FramedParts(schema, s, bitmap, d);
    hide OptimizedSpan, Flags, Restore;
  }

  lemma MakeFrame(schema: SchemaDef, s: seq<byte>) returns (bitmap: seq<byte>, d: seq<byte>)
    requires |s| >= 4 && s[2] == MARKER && s[3] == BitmapSize(|schema.fields|) && |s| >= 4 + s[3] as int
    ensures Framed(schema, s, bitmap, d) && d == s[4 + s[3] as int..]
  {
    var size := s[3] as int;
    bitmap, d := s[4..4 + size], s[4 + size..];
    assert s[4..] == bitmap + d;
  }

  lemma WellFormedJoined(schema: SchemaDef, head: seq<byte>, body: seq<byte>)
    requires |head| == 2
    ensures WellFormed(schema, head + body) <==>
      Word(head) == schema.messageId && Span(schema.fields, true, body) == Some(|body|)
  {
    SplitAt(head + body, head, body);
  }

  /**
   * The measuring walkers agree with restoring and checking: a candidate with the schema's id is measured to its end
   * exactly when it deoptimizes and the structural check accepts what comes out.
   */
  lemma CandidateAgrees(schema: SchemaDef, p: seq<byte>)
    requires |p| >= 2
    ensures CandidateValid(schema, p) <==> Word(p) == schema.messageId && Measure(schema, p) == Some(|p|)
  {
    hide *;
    MeasureBy(schema, p);
    if !IsOptimized(p) {
      PlainCandidate(schema, p);
    } else if |p| < 4 || p[3] != BitmapSize(|schema.fields|) || |p| < 4 + p[3] as int {
      NoFrame(schema, p);
    } else {
      FrameStarts(p);
      var bitmap, d := MakeFrame(schema, p);
      FramedCandidate(schema, p, bitmap, d);
    }
  }

  lemma MeasureBy(schema: SchemaDef, s: seq<byte>)
    ensures Measure(schema, s) == if IsOptimized(s) then MeasureOptimized(schema, s) else MeasurePlain(schema, s)
  {
    hide MeasureOptimized, MeasurePlain;
  }

  lemma PlainCandidate(schema: SchemaDef, p: seq<byte>)
    requires |p| >= 2 && !IsOptimized(p)
    ensures CandidateValid(schema, p) <==> Word(p) == schema.messageId && MeasurePlain(schema, p) == Some(|p|)
  {
    hide Check, Span, Word;
    CheckIsGrammar(schema, p);
  }

  lemma NoFrame(schema: SchemaDef, p: seq<byte>)
    requires IsOptimized(p) && (|p| < 4 || p[3] != BitmapSize(|schema.fields|) || |p| < 4 + p[3] as int)
    ensures !CandidateValid(schema, p) && MeasureOptimized(schema, p) == None
  {
    hide Check;
  }

  lemma FrameStarts(p: seq<byte>)
    requires IsOptimized(p)
    ensures |p| >= 3 && p[2] == MARKER
  {
  }

  lemma FramedCandidate(schema: SchemaDef, p: seq<byte>, bitmap: seq<byte>, d: seq<byte>)
    requires Framed(schema, p, bitmap, d)
    ensures CandidateValid(schema, p) <==> Word(p) == schema.messageId && MeasureOptimized(schema, p) == Some(|p|)
  {
    hide *;
    var flags := Flags(bitmap, |schema.fields|);
    FramedLength(schema, p, bitmap, d);
    MeasureFramed(schema, p, bitmap, d);
    MeasuredExactly(schema.fields, flags, d);
    RestoredCandidate(schema, p, Restore(schema.fields, flags, d));
    WithinIs(schema.fields, flags, d);
    FurtherIs(4 + |bitmap|, OptimizedSpan(schema.fields, flags, d));
    match Restore(schema.fields, flags, d)
    case None =>
    case Some((body, rest)) =>
      CheckIsGrammar(schema, p[..2] + body);
      WellFormedJoined(schema, p[..2], body);
  }

  lemma FramedLength(schema: SchemaDef, p: seq<byte>, bitmap: seq<byte>, d: seq<byte>)
    requires Framed(schema, p, bitmap, d)
    ensures |p| == 4 + |bitmap| + |d| && Word(p[..2]) == Word(p)
  {
    assert |p[4..]| == |bitmap| + |d|;
  }

  lemma FurtherIs(k: nat, n: Option<nat>)
    ensures Further(k, n) == match n case None => None case Some(m) => Some(k + m)
  {
  }

  /** What the candidate check makes of a packet that restores, or does not. */
  lemma RestoredCandidate(schema: SchemaDef, p: seq<byte>, restored: Option<(seq<byte>, seq<byte>)>)
    requires |p| >= 2
    requires Deoptimize(schema.fields, p)
      == match restored
         case None => Unapplied(false, [])
         case Some((body, rest)) => (if rest != [] then Unapplied(false, []) else Applied(p, p[..2] + body))
    ensures restored.None? ==> !CandidateValid(schema, p)
    ensures restored.Some? ==>
      var (body, rest) := restored.value;
      CandidateValid(schema, p) <==> rest == [] && Check(schema, p[..2] + body).Accepted?
  {
    hide Check, Deoptimize, SizeSaved;
  }

  lemma WithinIs(fields: seq<FieldDef>, flags: seq<bool>, d: seq<byte>)
    requires |flags| == |fields|
    ensures RestoresWithin(fields, flags, d) <==>
      match Restore(fields, flags, d)
      case None => false
      case Some((body, rest)) => rest == [] && Span(fields, true, body) == Some(|body|)
  {
    hide Restore, Span;
  }

  lemma MeasuredFrame(schema: SchemaDef, s: seq<byte>, n: nat) returns (bitmap: seq<byte>, d: seq<byte>, k: nat)
    requires MeasureOptimized(schema, s) == Some(n)
    ensures Framed(schema, s, bitmap, d) && k <= |d| && n == 4 + |bitmap| + k
    ensures OptimizedSpan(schema.fields, Flags(bitmap, |schema.fields|), d) == Some(k)
  {
    hide *;
    HasFrame(schema, s);
    bitmap, d := MakeFrame(schema, s);
    MeasureFramed(schema, s, bitmap, d);
    FurtherIs(4 + |bitmap|, OptimizedSpan(schema.fields, Flags(bitmap, |schema.fields|), d));
    k := n - 4 - |bitmap|;
  }

  lemma HasFrame(schema: SchemaDef, s: seq<byte>)
    requires MeasureOptimized(schema, s).Some?
    ensures |s| >= 4 && s[2] == MARKER && s[3] == BitmapSize(|schema.fields|) && |s| >= 4 + s[3] as int
  {
    hide OptimizedSpan, Flags;
  }

  lemma OptimizedLocal(schema: SchemaDef, s: seq<byte>, n: nat, suffix: seq<byte>)
    requires MeasureOptimized(schema, s) == Some(n)
    ensures Measure(schema, s[..n] + suffix) == Some(n)
  {
    hide MeasureOptimized, OptimizedSpan, Flags, Framed, IsOptimized, MeasurePlain, Deoptimize, Restore;
    var bitmap, d, k := MeasuredFrame(schema, s, n);
    FrameAgain(schema, s, bitmap, d, k, suffix);
    OptimizedSpanLocal(schema.fields, Flags(bitmap, |schema.fields|), d, k, suffix);
    MeasureFramed(schema, s[..n] + suffix, bitmap, d[..k] + suffix);
  }

  lemma FrameAgain(schema: SchemaDef, s: seq<byte>, bitmap: seq<byte>, d: seq<byte>, k: nat, suffix: seq<byte>)
    requires Framed(schema, s, bitmap, d) && k <= |d|
    ensures Framed(schema, s[..4 + |bitmap| + k] + suffix, bitmap, d[..k] + suffix)
  {
    var t := s[..4 + |bitmap| + k] + suffix;
    assert |s| == 4 + |bitmap| + |d|;
    assert s[..4 + |bitmap| + k][4..] == bitmap + d[..k] by {
      assert s[..4 + |bitmap| + k][4..] == s[4..][..|bitmap| + k];
    }
    assert t[4..] == s[..4 + |bitmap| + k][4..] + suffix;
    Assoc(bitmap, d[..k], suffix);
  }

  lemma PlainLocal(schema: SchemaDef, s: seq<byte>, n: nat, suffix: seq<byte>)
    requires schema.fields != [] && !IsOptimized(s) && MeasurePlain(schema, s) == Some(n)
    ensures n >= 3 && Measure(schema, s[..n] + suffix) == Some(n)
  {
    hide *;
    MeasurePlainIs(schema, s);
    FurtherIs(2, Span(schema.fields, true, s[2..]));
    SpanAtLeastMinimum(schema.fields, true, s[2..]);
    SpanLocal(schema.fields, true, s[2..], n - 2, suffix);
    PrefixBody(s, n, suffix);
    MeasureBy(schema, s[..n] + suffix);
    MeasurePlainIs(schema, s[..n] + suffix);
    FurtherIs(2, Span(schema.fields, true, s[2..][..n - 2] + suffix));
  }

  lemma MeasurePlainIs(schema: SchemaDef, s: seq<byte>)
    ensures MeasurePlain(schema, s).Some? ==> |s| >= 2
    ensures |s| >= 2 ==> MeasurePlain(schema, s) == Further(2, Span(schema.fields, true, s[2..]))
  {
    hide Span;
  }

  lemma PrefixBody(s: seq<byte>, n: nat, suffix: seq<byte>)
    requires 3 <= n <= |s|
    ensures (s[..n] + suffix)[2..] == s[2..][..n - 2] + suffix
    ensures IsOptimized(s[..n] + suffix) == IsOptimized(s)
  {
  }

  /** A measured packet, cut out or followed by other bytes, measures the same. */
  lemma MeasureLocal(schema: SchemaDef, s: seq<byte>, n: nat, suffix: seq<byte>)
    requires schema.fields != [] && Measure(schema, s) == Some(n)
    ensures n >= 3 && n <= |s| && Measure(schema, s[..n] + suffix) == Some(n)
  {
    hide MeasureOptimized, MeasurePlain;
    if IsOptimized(s) { OptimizedLocal(schema, s, n, suffix); } else { PlainLocal(schema, s, n, suffix); }
  }

  /** Walker agreement: what is measured at a registered id always passes the candidate check. */
  lemma WalkerAgreement(reg: Registry, s: seq<byte>)
    requires reg.Valid() && PacketAt(reg, s).Some?
    ensures CandidateValid(reg.FindById(Word(s)).value, s[..PacketAt(reg, s).value])
  {
    var schema, n := reg.FindById(Word(s)).value, PacketAt(reg, s).value;
    reg.FoundIsRegistered(Word(s));
    MeasureLocal(schema, s, n, []);
    hide Measure, CandidateValid;
    assert s[..n] + [] == s[..n];
    CandidateAgrees(schema, s[..n]);
    assert Word(s[..n]) == Word(s);
  }

  /** The format is self-delimiting: bytes after a packet do not change where it ends. */
  lemma SelfDelimiting(reg: Registry, p: seq<byte>, suffix: seq<byte>)
    requires reg.Valid() && PacketAt(reg, p) == Some(|p|)
    ensures PacketAt(reg, p + suffix) == Some(|p|)
  {
    reg.FoundIsRegistered(Word(p));
    MeasureLocal(reg.FindById(Word(p)).value, p, |p|, suffix);
    hide Measure;
    assert p[..|p|] == p;
    assert Word(p + suffix) == Word(p);
  }

  // Recovery.

  /** A recovered packet: where it starts in the stream, and how many bytes were passed over to reach it. */
  datatype Recovered = Recovered(offset: nat, skipped: nat, id: u16, name: string, packet: seq<byte>) {
    function End(): nat { offset + |packet| }
  }

  /** The first position from `start` on at which a packet starts. */
  function NextFrom(reg: Registry, stream: seq<byte>, start: nat): (next: Option<nat>)
    requires start <= |stream|
    ensures next.Some? ==> start <= next.value <= |stream| && PacketAt(reg, stream[next.value..]).Some?
    decreases |stream| - start
  {
    if start + 2 > |stream| then None
    else if PacketAt(reg, stream[start..]).Some? then Some(start)
    else NextFrom(reg, stream, start + 1)
  }

  function RecoveredAt(reg: Registry, stream: seq<byte>, start: nat, at: nat): Recovered
    requires start <= at <= |stream| && PacketAt(reg, stream[at..]).Some?
  {
    var s := stream[at..];
    Recovered(at, at - start, Word(s), reg.FindById(Word(s)).value.name, s[..PacketAt(reg, s).value])
  }

  function RecoverFrom(reg: Registry, stream: seq<byte>, start: nat): seq<Recovered>
    requires start <= |stream|
    decreases |stream| - start
  {
    match NextFrom(reg, stream, start)
    case None => []
    case Some(at) =>
      var r := RecoveredAt(reg, stream, start, at);
      [r] + RecoverFrom(reg, stream, r.End())
  }

  /** No packet starts in this stretch of the stream. */
  ghost predicate Silent(reg: Registry, stream: seq<byte>, start: nat, end: nat)
    requires end <= |stream|
  {
    forall at :: start <= at < end ==> PacketAt(reg, stream[at..]).None?
  }

  lemma {:induction false} NextIsFirst(reg: Registry, stream: seq<byte>, start: nat)
    requires start <= |stream|
    ensures var next := NextFrom(reg, stream, start);
      Silent(reg, stream, start, if next.Some? then next.value else |stream|)
    decreases |stream| - start
  {
    hide PacketAt;
    if start + 2 > |stream| {
      forall at | start <= at < |stream| ensures PacketAt(reg, stream[at..]).None? { TooShort(reg, stream[at..]); }
    } else if PacketAt(reg, stream[start..]).None? {
      NextIsFirst(reg, stream, start + 1);
    }
  }

  lemma TooShort(reg: Registry, s: seq<byte>)
    requires |s| < 2
    ensures PacketAt(reg, s).None?
  {
  }

  /** The packet is where it says and of the schema it names, ends where the walkers say, and follows silence. */
  ghost predicate Placed(reg: Registry, stream: seq<byte>, start: nat, r: Recovered)
  {
    && r.offset == start + r.skipped && |r.packet| >= 2 && r.End() <= |stream|
    && stream[r.offset..r.End()] == r.packet
    && PacketAt(reg, stream[r.offset..]) == Some(|r.packet|)
    && r.id == Word(r.packet) && reg.FindById(r.id).Some? && reg.FindById(r.id).value.name == r.name
    && CandidateValid(reg.FindById(r.id).value, r.packet) && Silent(reg, stream, start, r.offset)
  }

  /** Where the search for packet i starts. */
  function StartOf(start: nat, rs: seq<Recovered>, i: nat): nat
    requires i <= |rs|
  {
    if i == 0 then start else rs[i - 1].End()
  }

  lemma FoundNamed(reg: Registry, s: seq<byte>)
    requires PacketAt(reg, s).Some?
    ensures |s| >= 2 && reg.FindById(Word(s)).Some? && Word(s[..PacketAt(reg, s).value]) == Word(s)
  {
    hide Measure;
  }

  lemma FirstPlaced(reg: Registry, stream: seq<byte>, start: nat, at: nat)
    requires reg.Valid() && start <= |stream| && NextFrom(reg, stream, start) == Some(at)
    ensures Placed(reg, stream, start, RecoveredAt(reg, stream, start, at))
  {
    NextIsFirst(reg, stream, start);
    WalkerAgreement(reg, stream[at..]);
    FoundNamed(reg, stream[at..]);
    var n := PacketAt(reg, stream[at..]).value;
    hide PacketAt, CandidateValid, Silent, Word, Registry.FindById, NextFrom;
    assert stream[at..][..n] == stream[at..at + n];
  }

  /**
   * Recovery tiles the stream: gap, packet, gap, packet and so on up to a tail, every packet at its offset and
   * valid, and no recoverable packet starting in any gap or in the tail.
   */
  lemma {:induction false} RecoveryTiles(reg: Registry, stream: seq<byte>, start: nat)
    requires reg.Valid() && start <= |stream|
    ensures var rs := RecoverFrom(reg, stream, start);
      && (forall i :: 0 <= i < |rs| ==> Placed(reg, stream, StartOf(start, rs, i), rs[i]))
      && StartOf(start, rs, |rs|) <= |stream|
      && Silent(reg, stream, StartOf(start, rs, |rs|), |stream|)
    decreases |stream| - start
  {
    NextIsFirst(reg, stream, start);
    var rs := RecoverFrom(reg, stream, start);
    if rs != [] {
      FirstPlaced(reg, stream, start, NextFrom(reg, stream, start).value);
      assert rs[1..] == RecoverFrom(reg, stream, rs[0].End());
      hide NextFrom, RecoverFrom, Silent;
      RecoveryTiles(reg, stream, rs[0].End());
      TilesLater(reg, stream, start, rs);
    }
  }

  lemma TilesLater(reg: Registry, stream: seq<byte>, start: nat, rs: seq<Recovered>)
    requires rs != [] && Placed(reg, stream, start, rs[0])
    requires forall i :: 0 <= i < |rs[1..]| ==> Placed(reg, stream, StartOf(rs[0].End(), rs[1..], i), rs[1..][i])
    ensures forall i :: 0 <= i < |rs| ==> Placed(reg, stream, StartOf(start, rs, i), rs[i])
    ensures StartOf(start, rs, |rs|) == StartOf(rs[0].End(), rs[1..], |rs[1..]|)
  {
    hide Placed;
    forall i | 1 <= i < |rs| ensures Placed(reg, stream, StartOf(start, rs, i), rs[i]) {
      assert rs[i] == rs[1..][i - 1];
      assert StartOf(start, rs, i) == StartOf(rs[0].End(), rs[1..], i - 1);
    }
  }

  function Concat(packets: seq<seq<byte>>): seq<byte>
  {
    if packets == [] then [] else packets[0] + Concat(packets[1..])
  }

  /** A complete packet of a registered schema, and nothing else. */
  predicate Frame(reg: Registry, p: seq<byte>) { PacketAt(reg, p) == Some(|p|) }

  ghost predicate AllFrames(reg: Registry, packets: seq<seq<byte>>)
  {
    forall i :: 0 <= i < |packets| ==> Frame(reg, packets[i])
  }

  lemma NextHere(reg: Registry, stream: seq<byte>, start: nat)
    requires start <= |stream| && PacketAt(reg, stream[start..]).Some?
    ensures NextFrom(reg, stream, start) == Some(start)
  {
    hide PacketAt;
    assert |stream[start..]| == |stream| - start;
  }

  lemma RecoverUnfolds(reg: Registry, stream: seq<byte>, start: nat, at: nat)
    requires start <= |stream| && NextFrom(reg, stream, start) == Some(at)
    ensures var r := RecoveredAt(reg, stream, start, at);
      r.End() <= |stream| && RecoverFrom(reg, stream, start) == [r] + RecoverFrom(reg, stream, r.End())
  {
    hide NextFrom, PacketAt;
  }

  lemma FrontDropped(d: seq<byte>, start: nat, p: seq<byte>, rest: seq<byte>)
    requires start <= |d| && d[start..] == p + rest
    ensures start + |p| <= |d| && d[start + |p|..] == rest && d[start..][..|p|] == p
  {
    SplitAt(d[start..], p, rest);
    DropTwice(d, start, |p|);
  }

  /** A packet at the front of what is left is recovered at once. */
  lemma FrontRecovered(reg: Registry, p: seq<byte>, rest: seq<byte>, stream: seq<byte>, start: nat)
    returns (r: Recovered)
    requires reg.Valid() && start <= |stream| && stream[start..] == p + rest && Frame(reg, p)
    ensures start + |p| <= |stream| && stream[start + |p|..] == rest
    ensures r.packet == p && r.skipped == 0
    ensures RecoverFrom(reg, stream, start) == [r] + RecoverFrom(reg, stream, start + |p|)
  {
    hide PacketAt, NextFrom, RecoverFrom;
    SelfDelimiting(reg, p, rest);
    FrontDropped(stream, start, p, rest);
    NextHere(reg, stream, start);
    RecoverUnfolds(reg, stream, start, start);
    r := RecoveredAt(reg, stream, start, start);
  }

  ghost predicate RecoveredAs(rs: seq<Recovered>, packets: seq<seq<byte>>)
  {
    |rs| == |packets| && forall i :: 0 <= i < |rs| ==> rs[i].packet == packets[i] && rs[i].skipped == 0
  }

  lemma RecoveredCons(r: Recovered, rs: seq<Recovered>, packets: seq<seq<byte>>)
    requires packets != [] && r.packet == packets[0] && r.skipped == 0 && RecoveredAs(rs, packets[1..])
    ensures RecoveredAs([r] + rs, packets)
  {
    forall i | 1 <= i < |packets| ensures ([r] + rs)[i].packet == packets[i] && ([r] + rs)[i].skipped == 0 {
      assert ([r] + rs)[i] == rs[i - 1] && packets[i] == packets[1..][i - 1];
    }
  }

  lemma FramesLater(reg: Registry, packets: seq<seq<byte>>)
    requires AllFrames(reg, packets) && packets != []
    ensures Frame(reg, packets[0]) && AllFrames(reg, packets[1..])
    ensures Concat(packets) == packets[0] + Concat(packets[1..])
  {
    hide Frame;
    forall i | 0 <= i < |packets[1..]| ensures Frame(reg, packets[1..][i]) { assert packets[1..][i] == packets[i + 1]; }
  }

  lemma NothingRecovered(reg: Registry, stream: seq<byte>, start: nat)
    requires start <= |stream| && stream[start..] == Concat([])
    ensures RecoveredAs(RecoverFrom(reg, stream, start), [])
  {
    assert start == |stream|;
  }

  /** A concatenation of packets is recovered as exactly those packets, with nothing skipped. */
  lemma {:induction false} ConcatenationRecovered(reg: Registry, packets: seq<seq<byte>>, stream: seq<byte>, start: nat)
    requires reg.Valid() && start <= |stream| && stream[start..] == Concat(packets) && AllFrames(reg, packets)
    ensures RecoveredAs(RecoverFrom(reg, stream, start), packets)
    decreases |packets|
  {
    hide *;
    if packets == [] {
      NothingRecovered(reg, stream, start);
    } else {
      FramesLater(reg, packets);
      var r := FrontRecovered(reg, packets[0], Concat(packets[1..]), stream, start);
      var next := start + |packets[0]|;
      ConcatenationRecovered(reg, packets[1..], stream, next);
      RecoveredCons(r, RecoverFrom(reg, stream, next), packets);
    }
  }
}
