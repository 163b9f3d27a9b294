/**
 * Zero omission: fixed-size fields whose bytes are all zero are replaced by one bitmap bit.
 * Optimized packet: id (2), 0xFD, bitmap size, bitmap, the fields that were kept.
 */
module RuntimeOptimizer {
  import opened Wire
  import opened Bits
  import opened Schema
  import opened Codec

  const MARKER: byte := 0xFD

  predicate IsOptimized(p: seq<byte>) { |p| >= 3 && p[2] == MARKER }

  predicate AllZero(d: seq<byte>) { forall i :: 0 <= i < |d| ==> d[i] == 0 }

  predicate Omits(f: FieldDef, d: seq<byte>)
  {
    !f.ftype.Variable() && |d| >= f.ftype.Size() && AllZero(d[..f.ftype.Size()])
  }

  /** Which fields of the body `d` are omitted, one flag a field. */
  function Omitted(fields: seq<FieldDef>, d: seq<byte>): (flags: seq<bool>)
    ensures |flags| == |fields|
  {
    if fields == [] then []
    else
      var n := FieldSpan(fields[0], false, d);
      if n.None? then seq(|fields|, _ => false)
      else [Omits(fields[0], d)] + Omitted(fields[1..], d[n.value..])
  }

  /** The bytes of the fields that are not omitted. */
  function Kept(fields: seq<FieldDef>, d: seq<byte>): (body: seq<byte>)
  {
    if fields == [] then []
    else
      var n := FieldSpan(fields[0], false, d);
      if n.None? then []
      else (if Omits(fields[0], d) then [] else d[..n.value]) + Kept(fields[1..], d[n.value..])
  }

  datatype Result = Result(ok: bool, applied: bool, packet: seq<byte>, saved: nat)

  /** The size difference as an unsigned 64-bit subtraction, which wraps around when the packet has grown. */
  function SizeSaved(before: nat, after: nat): nat { (before - after) % 0x1_0000_0000_0000_0000 }

  function Unapplied(ok: bool, p: seq<byte>): Result { Result(ok, false, p, 0) }

  function Applied(before: seq<byte>, after: seq<byte>): Result
  {
    Result(true, true, after, SizeSaved(|before|, |after|))
  }

  function Compressed(fields: seq<FieldDef>, p: seq<byte>): (q: seq<byte>)
    requires |p| >= 2 && |fields| <= 2040
  {
    p[..2] + [MARKER, BitmapSize(|fields|)] + Pack(Omitted(fields, p[2..])) + Kept(fields, p[2..])
  }

  /** `optimize_packet` with the option on. */
  function Optimize(fields: seq<FieldDef>, p: seq<byte>): Result
  {
    if |p| < 2 || |fields| > 2040 || Span(fields, false, p[2..]) != Some(|p| - 2) then Unapplied(false, p)
    else if |Compressed(fields, p)| >= |p| then Unapplied(true, p)
    else Applied(p, Compressed(fields, p))
  }

  /** The body an optimized body stands for, and the bytes after it. */
  function Restore(fields: seq<FieldDef>, flags: seq<bool>, d: seq<byte>): Option<(seq<byte>, seq<byte>)>
    requires |flags| == |fields|
  {
    if fields == [] then Some(([], d))
    else
      var n := if !fields[0].ftype.Variable() && flags[0] then Some(0) else FieldSpan(fields[0], false, d);
      if n.None? then None
      else
        var rest := Restore(fields[1..], flags[1..], d[n.value..]);
        if rest.None? then None
        else
          var own := if !fields[0].ftype.Variable() && flags[0] then Zeros(fields[0].ftype.Size()) else d[..n.value];
          Some((own + rest.value.0, rest.value.1))
  }

  function Deoptimize(fields: seq<FieldDef>, p: seq<byte>): Result
  {
    if !IsOptimized(p) then Unapplied(true, p)
    else if |p| < 4 || p[3] != BitmapSize(|fields|) || |p| < 4 + p[3] as int then Unapplied(false, [])
    else
      var bitmap, d := p[4..4 + p[3] as int], p[4 + p[3] as int..];
      match Restore(fields, Flags(bitmap, |fields|), d)
      case None => Unapplied(false, [])
      case Some((body, rest)) => if rest != [] then Unapplied(false, []) else Applied(p, p[..2] + body)
  }

  function Prefixed(done: seq<byte>, r: Option<(seq<byte>, seq<byte>)>): Option<(seq<byte>, seq<byte>)>
  {
    match r case None => None case Some((body, rest)) => Some((done + body, rest))
  }

  lemma RestoreOmitted(fields: seq<FieldDef>, flags: seq<bool>, d: seq<byte>)
    requires fields != [] && |flags| == |fields| && !fields[0].ftype.Variable() && flags[0]
    ensures Restore(fields, flags, d) == Prefixed(Zeros(fields[0].ftype.Size()), Restore(fields[1..], flags[1..], d))
  {
    assert d[0..] == d;
  }

  lemma RestoreKept(fields: seq<FieldDef>, flags: seq<bool>, wire: seq<byte>, tail: seq<byte>)
    requires fields != [] && |flags| == |fields| && (fields[0].ftype.Variable() || !flags[0])
    requires FieldSpan(fields[0], false, wire + tail) == Some(|wire|)
    ensures Restore(fields, flags, wire + tail) == Prefixed(wire, Restore(fields[1..], flags[1..], tail))
  {
    assert (wire + tail)[|wire|..] == tail && (wire + tail)[..|wire|] == wire;
    hide FieldSpan;
  }

  lemma {:induction false} RestoreOfKept(fields: seq<FieldDef>, d: seq<byte>)
    requires Span(fields, false, d) == Some(|d|)
    ensures Restore(fields, Omitted(fields, d), Kept(fields, d)) == Some((d, []))
    decreases |fields|
  {
    if fields != [] {
      var n := FieldSpan(fields[0], false, d).value;
      var flags, rest := Omitted(fields, d), Kept(fields[1..], d[n..]);
      assert flags == [Omits(fields[0], d)] + Omitted(fields[1..], d[n..]);
      assert Kept(fields, d) == (if Omits(fields[0], d) then [] else d[..n]) + rest;
      assert Span(fields[1..], false, d[n..]) == Some(|d[n..]|);
      hide Span, Kept, Omitted, Restore;
      RestoreOfKept(fields[1..], d[n..]);
      RestoreFirst(fields, flags, d, n, rest);
    }
  }

  lemma RestoreFirst(fields: seq<FieldDef>, flags: seq<bool>, d: seq<byte>, n: nat, rest: seq<byte>)
    requires fields != [] && |flags| == |fields| && FieldSpan(fields[0], false, d) == Some(n)
    requires flags[0] == Omits(fields[0], d) && Restore(fields[1..], flags[1..], rest) == Some((d[n..], []))
    ensures Restore(fields, flags, (if flags[0] then [] else d[..n]) + rest) == Some((d, []))
  {
    assert d == d[..n] + d[n..];
    assert [] + rest == rest;
    hide Restore;
    if flags[0] {
      OmittedIsZeros(d[..n]);
      RestoreOmitted(fields, flags, rest);
    } else {
      FieldSpanLocal(fields[0], false, d, n, rest);
      hide FieldSpan, Omits;
      RestoreKept(fields, flags, d[..n], rest);
    }
  }

  lemma OmittedIsZeros(wire: seq<byte>)
    requires AllZero(wire)
    ensures wire == Zeros(|wire|)
  {
  }

  /**
   * Zero omission preserves meaning: every well-formed plain packet is accepted, an applied result is strictly
   * shorter by the reported number of bytes, and restoring it gives the packet back byte for byte, references
   * included. A result that was not applied is the packet itself; it is left alone unless its third byte happens to
   * be the marker.
   */
  lemma ZeroOmissionRestores(fields: seq<FieldDef>, p: seq<byte>)
    requires |p| >= 2 && |fields| <= 2040 && Span(fields, false, p[2..]) == Some(|p| - 2)
    ensures var q := Optimize(fields, p);
      && q.ok
      && (q.applied ==> |q.packet| < |p| && q.saved == (|p| - |q.packet|) % 0x1_0000_0000_0000_0000)
      && (q.applied ==> IsOptimized(q.packet) && Deoptimize(fields, q.packet) == Applied(q.packet, p))
      && (!q.applied ==> q.packet == p)
      && (!q.applied && !IsOptimized(p) ==> Deoptimize(fields, q.packet) == Unapplied(true, p))
  {
    hide Optimize, Deoptimize, Span, Compressed, IsOptimized, SizeSaved;
    OptimizeCases(fields, p);
    if Optimize(fields, p).applied {
      RestoreOfKept(fields, p[2..]);
      CompressedRestores(fields, p);
    } else if !IsOptimized(p) {
      PlainUnchanged(fields, p);
    }
  }

  lemma OptimizeCases(fields: seq<FieldDef>, p: seq<byte>)
    requires |p| >= 2 && |fields| <= 2040 && Span(fields, false, p[2..]) == Some(|p| - 2)
    ensures Optimize(fields, p)
      == if |Compressed(fields, p)| >= |p| then Unapplied(true, p) else Applied(p, Compressed(fields, p))
    ensures |Compressed(fields, p)| < |p| ==>
      SizeSaved(|p|, |Compressed(fields, p)|) == (|p| - |Compressed(fields, p)|) % 0x1_0000_0000_0000_0000
  {
    hide Span, Compressed;
  }

  lemma PlainUnchanged(fields: seq<FieldDef>, p: seq<byte>)
    requires !IsOptimized(p)
    ensures Deoptimize(fields, p) == Unapplied(true, p)
  {
    hide IsOptimized;
  }

  lemma CompressedRestores(fields: seq<FieldDef>, p: seq<byte>)
    requires |p| >= 2 && |fields| <= 2040
    requires Restore(fields, Omitted(fields, p[2..]), Kept(fields, p[2..])) == Some((p[2..], []))
    ensures IsOptimized(Compressed(fields, p))
    ensures Deoptimize(fields, Compressed(fields, p)) == Applied(Compressed(fields, p), p)
  {
    hide *;
    var flags, kept := Omitted(fields, p[2..]), Kept(fields, p[2..]);
    CompressedIs(fields, p);
    FourParts(p[..2], [MARKER, BitmapSize(|fields|)], Pack(flags), kept);
    FlagsOfPack(flags);
    JoinAt(p, 2);
    FramedRestores(fields, Compressed(fields, p), Pack(flags), p[2..], kept);
  }

  lemma CompressedIs(fields: seq<FieldDef>, p: seq<byte>)
    requires |p| >= 2 && |fields| <= 2040
    ensures BitmapSize(|fields|) < 256
    ensures Compressed(fields, p)
      == p[..2] + [MARKER, BitmapSize(|fields|)] + Pack(Omitted(fields, p[2..])) + Kept(fields, p[2..])
    ensures |Pack(Omitted(fields, p[2..]))| == BitmapSize(|fields|)
  {
    hide Omitted, Kept, Pack;
  }

  lemma FourParts(head: seq<byte>, mark: seq<byte>, bitmap: seq<byte>, kept: seq<byte>)
    requires |head| == 2 && |mark| == 2
    ensures var q := head + mark + bitmap + kept;
      && q[..2] == head && q[2] == mark[0] && q[3] == mark[1]
      && q[4..4 + |bitmap|] == bitmap && q[4 + |bitmap|..] == kept
  {
  }

  lemma FramedRestores(fields: seq<FieldDef>, q: seq<byte>, bitmap: seq<byte>, body: seq<byte>, kept: seq<byte>)
    requires |q| >= 4 + |bitmap| && q[2] == MARKER && q[3] == BitmapSize(|fields|) == |bitmap|
    requires q[4..4 + |bitmap|] == bitmap && q[4 + |bitmap|..] == kept
    requires Restore(fields, Flags(bitmap, |fields|), kept) == Some((body, []))
    ensures IsOptimized(q) && Deoptimize(fields, q) == Applied(q, q[..2] + body)
  {
    hide Restore, Flags, SizeSaved, BitmapSize;
  }

  // The loops.

  method CheckAllZero(data: seq<byte>, offset: nat, size: nat) returns (zero: bool)
    requires offset + size <= |data|
    ensures zero == AllZero(data[offset..offset + size])
  {
    for i := 0 to size
      invariant AllZero(data[offset..offset + i])
    {
      if data[offset + i] != 0 {
        assert data[offset..offset + size][i] != 0;
        return false;
      }
      assert data[offset..offset + i + 1] == data[offset..offset + i] + [data[offset + i]];
    }
    return true;
  }

  method VariableSpan(f: FieldDef, data: seq<byte>, cursor: nat) returns (span: Option<nat>)
    requires f.ftype.Variable() && cursor <= |data|
    ensures span == FieldSpan(f, false, data[cursor..])
  {
    if cursor + 2 > |data| { return None; }
    var size := data[cursor] as int + 256 * data[cursor + 1] as int;
    var reference := f.ftype.String? && size == REFERENCE;
    var total := if reference then 4 else 2 + size;
    if cursor + total > |data| { return None; }
    return Some(total);
  }

  /** One field of the input: its span, and whether it is a fixed field of zero bytes. */
  method InspectField(f: FieldDef, data: seq<byte>, cursor: nat) returns (span: Option<nat>, zero: bool)
    requires cursor <= |data|
    ensures span == FieldSpan(f, false, data[cursor..])
    ensures span.Some? ==> zero == Omits(f, data[cursor..])
  {
    if !f.ftype.Variable() {
      var size := f.ftype.Size();
      if cursor + size > |data| { return None, false; }
      zero := CheckAllZero(data, cursor, size);
      assert data[cursor..][..size] == data[cursor..cursor + size];
      return Some(size), zero;
    }
    span := VariableSpan(f, data, cursor);
    return span, false;
  }

  /** Everything the optimizer computes from the body of a packet. */
  datatype Walk = Walk(span: Option<nat>, flags: seq<bool>, kept: seq<byte>) {
    /** The walk with one more field in front of it. */
    function After(zero: bool, wire: seq<byte>): Walk
    {
      Walk(match span case None => None case Some(k) => Some(|wire| + k), [zero] + flags,
           (if zero then [] else wire) + kept)
    }

    /** `rest` is what this walk leaves after i fields of `used` bytes, with this bitmap and these kept bytes. */
    predicate Leaves(rest: Walk, i: nat, used: nat, bitmap: seq<byte>, body: seq<byte>)
    {
      && i <= |flags| && |bitmap| == BitmapSize(|flags|)
      && span == (match rest.span case None => None case Some(k) => Some(used + k))
      && flags[i..] == rest.flags && kept == body + rest.kept
      && PackFrom(flags, i, bitmap) == Pack(flags)
    }

    lemma LeavesStep(rest: Walk, i: nat, used: nat, bitmap: seq<byte>, body: seq<byte>, zero: bool, wire: seq<byte>)
      requires Leaves(rest.After(zero, wire), i, used, bitmap, body)
      ensures i < |flags|
      ensures Leaves(rest, i + 1, used + |wire|, if zero then WithBit(bitmap, i) else bitmap,
                     if zero then body else body + wire)
    {
      assert flags[i..][0] == flags[i] && flags[i..][1..] == flags[i + 1..];
      hide Pack, WithBit;
      if zero { assert body + ([] + rest.kept) == body + rest.kept; } else { Assoc(body, wire, rest.kept); }
    }
  }

  function WalkFrom(fields: seq<FieldDef>, i: nat, d: seq<byte>, cursor: nat): Walk
    requires i <= |fields| && cursor <= |d|
  {
    Walk(Span(fields[i..], false, d[cursor..]), Omitted(fields[i..], d[cursor..]), Kept(fields[i..], d[cursor..]))
  }

  lemma WalkStep(fields: seq<FieldDef>, d: seq<byte>, i: nat, cursor: nat)
    requires i < |fields| && cursor <= |d|
    ensures var n := FieldSpan(fields[i], false, d[cursor..]);
      && (n.None? ==> WalkFrom(fields, i, d, cursor).span.None?)
      && (n.Some? ==>
            var rest := WalkFrom(fields, i + 1, d, cursor + n.value);
            WalkFrom(fields, i, d, cursor) == rest.After(Omits(fields[i], d[cursor..]), d[cursor..cursor + n.value]))
  {
    hide FieldSpan, Omits;
    var rest, n := fields[i..], FieldSpan(fields[i], false, d[cursor..]);
    assert rest[1..] == fields[i + 1..] && rest[0] == fields[i];
    if n.Some? {
      SpanFits(fields[i], d, cursor);
      SliceStep(d, cursor, n.value);
    }
  }

  lemma SliceStep(d: seq<byte>, cursor: nat, n: nat)
    requires cursor + n <= |d|
    ensures d[cursor..][n..] == d[cursor + n..] && d[cursor..][..n] == d[cursor..cursor + n]
  {
  }

  ghost predicate Progress(fields: seq<FieldDef>, i: nat, d: seq<byte>, cursor: nat, bitmap: seq<byte>, body: seq<byte>)
    requires i <= |fields| && 2 <= cursor <= |d|
  {
    WalkFrom(fields, 0, d, 2).Leaves(WalkFrom(fields, i, d, cursor), i, cursor - 2, bitmap, body)
  }

  lemma ProgressStep(fields: seq<FieldDef>, i: nat, d: seq<byte>, cursor: nat, bitmap: seq<byte>, body: seq<byte>,
                     n: nat, zero: bool)
    requires i < |fields| && 2 <= cursor && cursor + n <= |d| && |bitmap| == BitmapSize(|fields|)
    requires Progress(fields, i, d, cursor, bitmap, body)
    requires FieldSpan(fields[i], false, d[cursor..]) == Some(n) && zero == Omits(fields[i], d[cursor..])
    ensures |WithBit(bitmap, i)| == |bitmap|
    ensures Progress(fields, i + 1, d, cursor + n, if zero then WithBit(bitmap, i) else bitmap,
                     if zero then body else body + d[cursor..cursor + n])
  {
    hide *;
    WalkStep(fields, d, i, cursor);
    BitHasByte(i, |fields|);
    ProgressIs(fields, i, d, cursor, bitmap, body);
    var next, wire := WalkFrom(fields, i + 1, d, cursor + n), d[cursor..cursor + n];
    WalkFrom(fields, 0, d, 2).LeavesStep(next, i, cursor - 2, bitmap, body, zero, wire);
    ProgressIs(fields, i + 1, d, cursor + n, if zero then WithBit(bitmap, i) else bitmap,
      if zero then body else body + wire);
  }

  lemma ProgressIs(fields: seq<FieldDef>, i: nat, d: seq<byte>, cursor: nat, bitmap: seq<byte>, body: seq<byte>)
    requires i <= |fields| && 2 <= cursor <= |d|
    ensures Progress(fields, i, d, cursor, bitmap, body)
      <==> WalkFrom(fields, 0, d, 2).Leaves(WalkFrom(fields, i, d, cursor), i, cursor - 2, bitmap, body)
  {
    hide WalkFrom, Walk.Leaves;
  }

  lemma ProgressStops(fields: seq<FieldDef>, i: nat, d: seq<byte>, cursor: nat, bitmap: seq<byte>, body: seq<byte>)
    requires i < |fields| && 2 <= cursor <= |d|
    requires Progress(fields, i, d, cursor, bitmap, body) && FieldSpan(fields[i], false, d[cursor..]) == None
    ensures WalkFrom(fields, 0, d, 2).span.None?
  {
    WalkStep(fields, d, i, cursor);
    hide FieldSpan, Omits, WalkFrom;
  }

  lemma ProgressStart(fields: seq<FieldDef>, d: seq<byte>, bitmap: seq<byte>)
    requires |d| >= 2 && bitmap == Zeros(BitmapSize(|fields|))
    ensures Progress(fields, 0, d, 2, bitmap, [])
  {
    var whole := WalkFrom(fields, 0, d, 2);
    assert |whole.flags| == |fields| by { assert fields[0..] == fields; }
    assert [] + whole.kept == whole.kept;
  }

  lemma WalkEnds(fields: seq<FieldDef>, d: seq<byte>, cursor: nat)
    requires 2 <= cursor <= |d|
    ensures WalkFrom(fields, 0, d, 2)
      == Walk(Span(fields, false, d[2..]), Omitted(fields, d[2..]), Kept(fields, d[2..]))
    ensures WalkFrom(fields, |fields|, d, cursor) == Walk(Some(0), [], [])
  {
    assert fields[0..] == fields;
  }

  lemma EverythingKept(whole: Walk, used: nat, bitmap: seq<byte>, body: seq<byte>)
    requires whole.Leaves(Walk(Some(0), [], []), |whole.flags|, used, bitmap, body)
    ensures whole == Walk(Some(used), whole.flags, body) && bitmap == Pack(whole.flags)
  {
    assert body + [] == body;
    hide Pack;
  }

  lemma ProgressEnd(fields: seq<FieldDef>, d: seq<byte>, cursor: nat, bitmap: seq<byte>, body: seq<byte>)
    requires 2 <= cursor <= |d|
    requires Progress(fields, |fields|, d, cursor, bitmap, body)
    ensures Span(fields, false, d[2..]) == Some(cursor - 2)
    ensures bitmap == Pack(Omitted(fields, d[2..])) && body == Kept(fields, d[2..])
  {
    hide Pack, Span, Kept, Omitted, WalkFrom, Walk.Leaves;
    WalkEnds(fields, d, cursor);
    EverythingKept(WalkFrom(fields, 0, d, 2), cursor - 2, bitmap, body);
  }

  method ClearBitmap(size: nat) returns (bitmap: array<byte>)
    ensures fresh(bitmap) && bitmap[..] == Zeros(size)
  {
    bitmap := new byte[size](_ => 0);
  }

  /** One round of the loop: the field is marked in the bitmap or its bytes are kept. */
  method OptimizeField(fields: seq<FieldDef>, i: nat, input: seq<byte>, cursor: nat, bitmap: array<byte>,
                       body: seq<byte>)
    returns (next: Option<nat>, kept: seq<byte>)
    requires i < |fields| && 2 <= cursor <= |input| && bitmap.Length == BitmapSize(|fields|)
    requires Progress(fields, i, input, cursor, bitmap[..], body)
    modifies bitmap
    ensures next.None? ==> WalkFrom(fields, 0, input, 2).span.None?
    ensures next.Some? ==> 2 <= next.value <= |input| && Progress(fields, i + 1, input, next.value, bitmap[..], kept)
  {
    hide *;
    var span, zero := InspectField(fields[i], input, cursor);
    if span.None? {
      ProgressStops(fields, i, input, cursor, bitmap[..], body);
      return None, body;
    }
    SpanFits(fields[i], input, cursor);
    ProgressStep(fields, i, input, cursor, bitmap[..], body, span.value, zero);
    BitHasByte(i, |fields|);
    next := Some(cursor + span.value);
    if zero {
      kept := body;
      MarkBit(bitmap, i);
    } else {
      kept := body + input[cursor..cursor + span.value];
    }
  }

  lemma SpanFits(f: FieldDef, d: seq<byte>, cursor: nat)
    requires cursor <= |d| && FieldSpan(f, false, d[cursor..]).Some?
    ensures cursor + FieldSpan(f, false, d[cursor..]).value <= |d|
  {
  }

  method OptimizePacket(schema: SchemaDef, input: seq<byte>) returns (r: Result)
    ensures r == Optimize(schema.fields, input)
  {
    var fields := schema.fields;
    if |input| < 2 || |fields| > 2040 { return Unapplied(false, input); }
    var bitmap := ClearBitmap(BitmapSize(|fields|));
    var body: seq<byte> := [];
    var cursor := 2;
    ProgressStart(fields, input, bitmap[..]);
    hide *;
    for i := 0 to |fields|
      invariant 2 <= cursor <= |input| && bitmap.Length == BitmapSize(|fields|)
      invariant Progress(fields, i, input, cursor, bitmap[..], body)
    {
      var next;
      next, body := OptimizeField(fields, i, input, cursor, bitmap, body);
      if next.None? {
        NoSpan(fields, input);
        return Unapplied(false, input);
      }
      cursor := next.value;
    }
    ProgressEnd(fields, input, cursor, bitmap[..], body);
    r := Finish(fields, input, cursor, bitmap, body);
  }

  lemma BitHasByte(i: nat, n: nat)
    requires i < n
    ensures i / 8 < BitmapSize(n)
  {
  }

  lemma NoSpan(fields: seq<FieldDef>, p: seq<byte>)
    requires |p| >= 2 && WalkFrom(fields, 0, p, 2).span.None?
    ensures Optimize(fields, p) == Unapplied(false, p)
  {
    assert fields[0..] == fields;
  }

  method Finish(fields: seq<FieldDef>, input: seq<byte>, cursor: nat, bitmap: array<byte>, body: seq<byte>)
    returns (r: Result)
    requires 2 <= cursor <= |input| && |fields| <= 2040
    requires Span(fields, false, input[2..]) == Some(cursor - 2)
    requires bitmap[..] == Pack(Omitted(fields, input[2..])) && body == Kept(fields, input[2..])
    ensures r == Optimize(fields, input)
  {
    if cursor != |input| { return Unapplied(false, input); }
    var candidate := input[..2] + [MARKER, bitmap.Length] + bitmap[..] + body;
    if |candidate| >= |input| { return Unapplied(true, input); }
    return Applied(input, candidate);
  }

  method MarkBit(bitmap: array<byte>, i: nat)
    requires i / 8 < bitmap.Length
    modifies bitmap
    ensures bitmap[..] == WithBit(old(bitmap[..]), i)
    ensures Pow2(i % 8) > 0
    ensures var b := old(bitmap[i / 8]);
      bitmap[i / 8] == if b / Pow2(i % 8) % 2 == 1 then b else b + Pow2(i % 8)
    ensures forall k :: 0 <= k < bitmap.Length && k != i / 8 ==> bitmap[k] == old(bitmap[k])
  {
    SetBitValue(bitmap[i / 8], i % 8);
    hide Pow2, SetBit;
    bitmap[i / 8] := ByteWithBit(bitmap[i / 8], i % 8);
  }

  ghost predicate Restoring(fields: seq<FieldDef>, flags: seq<bool>, input: seq<byte>, start: nat, i: nat, cursor: nat,
                            body: seq<byte>)
    requires |flags| == |fields| && i <= |fields| && start <= cursor <= |input|
  {
    Restore(fields, flags, input[start..]) == Prefixed(body, Restore(fields[i..], flags[i..], input[cursor..]))
  }

  lemma RestoringEnds(fields: seq<FieldDef>, flags: seq<bool>, input: seq<byte>, start: nat, cursor: nat,
                      body: seq<byte>)
    requires |flags| == |fields| && start <= cursor <= |input|
    ensures Restoring(fields, flags, input, start, 0, start, [])
    ensures Restoring(fields, flags, input, start, |fields|, cursor, body) ==>
      Restore(fields, flags, input[start..]) == Some((body, input[cursor..]))
  {
    assert fields[0..] == fields && flags[0..] == flags;
    PrefixedNothing(Restore(fields, flags, input[start..]));
    assert body + [] == body;
  }

  lemma RestoringOmitted(fields: seq<FieldDef>, flags: seq<bool>, input: seq<byte>, start: nat, i: nat, cursor: nat,
                         body: seq<byte>)
    requires |flags| == |fields| && i < |fields| && start <= cursor <= |input|
    requires Restoring(fields, flags, input, start, i, cursor, body)
    requires !fields[i].ftype.Variable() && flags[i]
    ensures Restoring(fields, flags, input, start, i + 1, cursor, body + Zeros(fields[i].ftype.Size()))
  {
    hide Restore, Zeros, Prefixed;
    TailOf(fields, flags, i);
    RestoreOmitted(fields[i..], flags[i..], input[cursor..]);
    PrefixedTwice(body, Zeros(fields[i].ftype.Size()), Restore(fields[i + 1..], flags[i + 1..], input[cursor..]));
  }

  lemma TailOf(fields: seq<FieldDef>, flags: seq<bool>, i: nat)
    requires |flags| == |fields| && i < |fields|
    ensures fields[i..][1..] == fields[i + 1..] && flags[i..][1..] == flags[i + 1..]
    ensures fields[i..][0] == fields[i] && flags[i..][0] == flags[i]
  {
  }

  lemma RestoringKept(fields: seq<FieldDef>, flags: seq<bool>, input: seq<byte>, start: nat, i: nat, cursor: nat,
                      body: seq<byte>, n: nat)
    requires |flags| == |fields| && i < |fields| && start <= cursor <= |input|
    requires Restoring(fields, flags, input, start, i, cursor, body)
    requires fields[i].ftype.Variable() || !flags[i]
    requires FieldSpan(fields[i], false, input[cursor..]) == Some(n) && cursor + n <= |input|
    ensures Restoring(fields, flags, input, start, i + 1, cursor + n, body + input[cursor..cursor + n])
  {
    hide Restore, FieldSpan, Prefixed;
    var wire, tail := input[cursor..cursor + n], input[cursor + n..];
    TailOf(fields, flags, i);
    SliceStep(input, cursor, n);
    JoinAt(input[cursor..], n);
    RestoreKept(fields[i..], flags[i..], wire, tail);
    PrefixedTwice(body, wire, Restore(fields[i + 1..], flags[i + 1..], tail));
  }

  lemma RestoringStops(fields: seq<FieldDef>, flags: seq<bool>, input: seq<byte>, start: nat, i: nat, cursor: nat,
                       body: seq<byte>)
    requires |flags| == |fields| && i < |fields| && start <= cursor <= |input|
    requires Restoring(fields, flags, input, start, i, cursor, body)
    requires fields[i].ftype.Variable() || !flags[i]
    requires FieldSpan(fields[i], false, input[cursor..]) == None
    ensures Restore(fields, flags, input[start..]) == None
  {
    hide FieldSpan;
    assert Restore(fields[i..], flags[i..], input[cursor..]) == None;
  }

  lemma FlagAt(bitmap: seq<byte>, n: nat, i: nat)
    requires i < n
    ensures Flags(bitmap, n)[i] == BitAt(bitmap, i)
  {
    hide BitAt;
  }

  /** One round of the loop: the field's bytes, zeros or taken from the input. */
  method RestoreField(fields: seq<FieldDef>, bitmap: seq<byte>, input: seq<byte>, start: nat, i: nat, cursor: nat,
                      body: seq<byte>)
    returns (next: Option<nat>, longer: seq<byte>)
    requires i < |fields| && start <= cursor <= |input|
    requires Restoring(fields, Flags(bitmap, |fields|), input, start, i, cursor, body)
    ensures next.None? ==> Restore(fields, Flags(bitmap, |fields|), input[start..]).None?
    ensures next.Some? ==> cursor <= next.value <= |input|
    ensures next.Some? ==> Restoring(fields, Flags(bitmap, |fields|), input, start, i + 1, next.value, longer)
  {
    hide *;
    FlagAt(bitmap, |fields|, i);
    if !fields[i].ftype.Variable() && BitAt(bitmap, i) {
      RestoringOmitted(fields, Flags(bitmap, |fields|), input, start, i, cursor, body);
      return Some(cursor), body + Zeros(fields[i].ftype.Size());
    }
    var span, _ := InspectField(fields[i], input, cursor);
    if span.Some? { SpanFits(fields[i], input, cursor); }
    if span.None? {
      RestoringStops(fields, Flags(bitmap, |fields|), input, start, i, cursor, body);
      return None, body;
    }
    RestoringKept(fields, Flags(bitmap, |fields|), input, start, i, cursor, body, span.value);
    return Some(cursor + span.value), body + input[cursor..cursor + span.value];
  }

  /** The loop over the fields: the restored body, and where the optimized one ends. */
  method RestoreBody(fields: seq<FieldDef>, bitmap: seq<byte>, input: seq<byte>, start: nat)
    returns (restored: Option<seq<byte>>, cursor: nat)
    requires start <= |input|
    ensures start <= cursor <= |input|
    ensures var whole := Restore(fields, Flags(bitmap, |fields|), input[start..]);
      && (restored.None? <==> whole.None?)
      && (restored.Some? ==> whole == Some((restored.value, input[cursor..])))
  {
    hide *;
    var body: seq<byte> := [];
    cursor := start;
    RestoringEnds(fields, Flags(bitmap, |fields|), input, start, start, []);
    for i := 0 to |fields|
      invariant start <= cursor <= |input|
      invariant Restoring(fields, Flags(bitmap, |fields|), input, start, i, cursor, body)
    {
      var next;
      next, body := RestoreField(fields, bitmap, input, start, i, cursor, body);
      if next.None? { return None, cursor; }
      cursor := next.value;
    }
    RestoringEnds(fields, Flags(bitmap, |fields|), input, start, cursor, body);
    return Some(body), cursor;
  }

  method DeoptimizePacket(schema: SchemaDef, input: seq<byte>) returns (r: Result)
    ensures r == Deoptimize(schema.fields, input)
  {
    hide Restore, Flags, SizeSaved, BitAt;
    var fields := schema.fields;
    if !(|input| >= 3 && input[2] == MARKER) { return Unapplied(true, input); }
    if |input| < 4 { return Unapplied(false, []); }
    var size := input[3] as int;
    if size != BitmapSize(|fields|) || |input| < 4 + size { return Unapplied(false, []); }
    var restored, cursor := RestoreBody(fields, input[4..4 + size], input, 4 + size);
    if restored.None? || cursor != |input| { return Unapplied(false, []); }
    return Applied(input, input[..2] + restored.value);
  }

  lemma PrefixedNothing(r: Option<(seq<byte>, seq<byte>)>)
    ensures Prefixed([], r) == r
  {
    if r.Some? { assert [] + r.value.0 == r.value.0; }
  }

  lemma PrefixedTwice(a: seq<byte>, b: seq<byte>, r: Option<(seq<byte>, seq<byte>)>)
    ensures Prefixed(a, Prefixed(b, r)) == Prefixed(a + b, r)
  {
    if r.Some? { Assoc(a, b, r.value.0); }
  }
}
