/** Packets that end too early or too late: deltas, batches and optimized packets are never taken for others. */
module Damage {
  import opened Wire
  import opened Bits
  import opened Schema
  import opened Codec
  import opened Delta
  import opened RuntimeOptimizer
  import opened StreamOptimizer
  import opened Synchronizer

  lemma PrefixParts(d: seq<byte>, n: nat, used: nat)
    requires used <= n <= |d|
    ensures d[..n][used..] == d[used..][..n - used] && d[..n][..used] == d[..used]
  {
  }

  // Deltas.

  /** A number read from a body that is cut: the same while its bytes are there, otherwise a read past the end. */
  lemma NumericCut(previous: FieldValue, d: seq<byte>, n: nat)
    requires n <= |d| && ReadNumeric(previous, d).Took?
    ensures ReadNumeric(previous, d).used <= |d|
    ensures ReadNumeric(previous, d[..n])
      == if n < ReadNumeric(previous, d).used then DeltaRead.Threw else ReadNumeric(previous, d)
  {
    hide FromLE, FieldType.Cast, SignExtend;
    var used := ReadNumeric(previous, d).used;
    if n >= used {
      PrefixParts(d, n, used);
      if used >= 1 { assert d[..n][1..used] == d[1..used]; }
    }
  }

  lemma FieldCut(f: FieldDef, base: FieldValue, d: seq<byte>, n: nat)
    requires n <= |d| && ReadDeltaField(f, base, d).Took?
    ensures ReadDeltaField(f, base, d[..n])
      == if n < ReadDeltaField(f, base, d).used then DeltaRead.Threw else ReadDeltaField(f, base, d)
  {
    if !f.ftype.Variable() {
      NumericCut(base, d, n);
      hide ReadNumeric;
    } else {
      assert n >= 2 ==> Word(d[..n]) == Word(d);
      if n >= 2 + Word(d) { assert d[..n][2..2 + Word(d)] == d[2..2 + Word(d)]; }
      hide Word;
    }
  }

  lemma GrowFirst(fields: seq<FieldDef>, flags: seq<bool>, previous: Payload, d: seq<byte>)
    requires fields != [] && |flags| == |fields| && Grow(fields, flags, previous, d).Grown?
    ensures fields[0].name in previous
    ensures var base := previous[fields[0].name];
      var r := if flags[0] then ReadDeltaField(fields[0], base, d) else Took(base, 0);
      && r.Took? && Grow(fields[1..], flags[1..], previous, d[r.used..]).Grown?
      && Grow(fields, flags, previous, d)
         == Grown([r.value] + Grow(fields[1..], flags[1..], previous, d[r.used..]).values,
                  Grow(fields[1..], flags[1..], previous, d[r.used..]).rest)
  {
    hide ReadDeltaField;
  }

  /** The bytes that are left over are the end of the body. */
  lemma {:induction false} GrownEnds(fields: seq<FieldDef>, flags: seq<bool>, previous: Payload, d: seq<byte>)
    requires |flags| == |fields| && Grow(fields, flags, previous, d).Grown?
    ensures |Grow(fields, flags, previous, d).rest| <= |d|
    decreases |fields|
  {
    if fields != [] {
      GrowFirst(fields, flags, previous, d);
      var base := previous[fields[0].name];
      var used := if flags[0] then ReadDeltaField(fields[0], base, d).used else 0;
      GrownEnds(fields[1..], flags[1..], previous, d[used..]);
    }
  }

  /** A body that is cut reads the same while everything it needs is there; otherwise some read goes past its end. */
  lemma {:induction false} GrowCut(fields: seq<FieldDef>, flags: seq<bool>, previous: Payload, d: seq<byte>, n: nat)
    requires |flags| == |fields| && n <= |d| && Grow(fields, flags, previous, d).Grown?
    ensures |Grow(fields, flags, previous, d).rest| <= |d|
    ensures var g := Grow(fields, flags, previous, d);
      var needed := |d| - |g.rest|;
      Grow(fields, flags, previous, d[..n])
        == if n < needed then Stopped(true) else Grown(g.values, g.rest[..n - needed])
    decreases |fields|
  {
    GrownEnds(fields, flags, previous, d);
    if fields != [] {
      GrowFirst(fields, flags, previous, d);
      var base := previous[fields[0].name];
      if flags[0] { FieldCut(fields[0], base, d, n); }
      hide ReadDeltaField, Grow;
      var used := if flags[0] then ReadDeltaField(fields[0], base, d).used else 0;
      GrownEnds(fields[1..], flags[1..], previous, d[used..]);
      if n >= used {
        PrefixParts(d, n, used);
        GrowCut(fields[1..], flags[1..], previous, d[used..], n - used);
      }
      GrowCutStep(fields, flags, previous, d, n);
    }
  }

  lemma GrowCutStep(fields: seq<FieldDef>, flags: seq<bool>, previous: Payload, d: seq<byte>, n: nat)
    requires fields != [] && |flags| == |fields| && n <= |d| && Grow(fields, flags, previous, d).Grown?
    requires fields[0].name in previous
    requires var base := previous[fields[0].name];
      flags[0] ==>
        && ReadDeltaField(fields[0], base, d).Took?
        && ReadDeltaField(fields[0], base, d[..n])
           == (if n < ReadDeltaField(fields[0], base, d).used then DeltaRead.Threw
               else ReadDeltaField(fields[0], base, d))
    requires var used := if flags[0] then ReadDeltaField(fields[0], previous[fields[0].name], d).used else 0;
      n >= used ==>
        var g := Grow(fields[1..], flags[1..], previous, d[used..]);
        && g.Grown? && |g.rest| <= |d| - used && d[..n][used..] == d[used..][..n - used]
        && Grow(fields[1..], flags[1..], previous, d[used..][..n - used])
           == if n < |d| - |g.rest| then Stopped(true) else Grown(g.values, g.rest[..n - (|d| - |g.rest|)])
    requires var used := if flags[0] then ReadDeltaField(fields[0], previous[fields[0].name], d).used else 0;
      var g := Grow(fields[1..], flags[1..], previous, d[used..]); g.Grown? ==> |g.rest| <= |d| - used
    ensures |Grow(fields, flags, previous, d).rest| <= |d|
    ensures var g := Grow(fields, flags, previous, d);
      var needed := |d| - |g.rest|;
      Grow(fields, flags, previous, d[..n])
        == if n < needed then Stopped(true) else Grown(g.values, g.rest[..n - needed])
  {
    hide ReadDeltaField;
  }

  lemma SuffixParts(d: seq<byte>, used: nat, extra: seq<byte>)
    requires used <= |d|
    ensures (d + extra)[..used] == d[..used] && (d + extra)[used..] == d[used..] + extra
  {
  }

  lemma FieldLonger(f: FieldDef, base: FieldValue, d: seq<byte>, extra: seq<byte>)
    requires ReadDeltaField(f, base, d).Took?
    ensures ReadDeltaField(f, base, d + extra) == ReadDeltaField(f, base, d)
  {
    hide FromLE, FieldType.Cast, SignExtend;
    var used := ReadDeltaField(f, base, d).used;
    SuffixParts(d, used, extra);
    if f.ftype.Variable() {
      assert Word(d + extra) == Word(d) && (d + extra)[2..used] == d[2..used];
    } else if used >= 1 {
      assert (d + extra)[1..used] == d[1..used];
    }
  }

  lemma {:induction false} GrowLonger(fields: seq<FieldDef>, flags: seq<bool>, previous: Payload, d: seq<byte>,
                                      extra: seq<byte>)
    requires |flags| == |fields| && Grow(fields, flags, previous, d).Grown?
    ensures var g := Grow(fields, flags, previous, d);
      Grow(fields, flags, previous, d + extra) == Grown(g.values, g.rest + extra)
    decreases |fields|
  {
    if fields != [] {
      GrowFirst(fields, flags, previous, d);
      var base := previous[fields[0].name];
      if flags[0] { FieldLonger(fields[0], base, d, extra); }
      hide ReadDeltaField;
      var used := if flags[0] then ReadDeltaField(fields[0], base, d).used else 0;
      SuffixParts(d, used, extra);
      GrowLonger(fields[1..], flags[1..], previous, d[used..], extra);
    }
  }

  // Batches.

  lemma SplitFirst(count: nat, d: seq<byte>)
    requires count > 0 && SplitParts(count, d).Some?
    ensures |d| >= 2 && |d| >= 2 + Word(d) && SplitParts(count - 1, d[2 + Word(d)..]).Some?
  {
    hide Word;
  }

  /** The packets of a batch cannot be split out of fewer bytes, or of more. */
  lemma {:induction false} SplitCut(count: nat, d: seq<byte>, n: nat)
    requires SplitParts(count, d).Some? && n < |d|
    ensures SplitParts(count, d[..n]).None?
    decreases count
  {
    if count > 0 {
      SplitFirst(count, d);
      var k: nat := 2 + Word(d);
      assert n >= 2 ==> Word(d[..n]) == Word(d);
      if n >= k {
        PrefixParts(d, n, k);
        SplitCut(count - 1, d[k..], n - k);
      }
      hide Word;
    }
  }

  lemma CutIsShorter(d: seq<byte>, extra: seq<byte>)
    ensures (d + extra)[..|d|] == d
  {
  }

  lemma SplitLonger(count: nat, d: seq<byte>, extra: seq<byte>)
    requires SplitParts(count, d).Some? && extra != []
    ensures SplitParts(count, d + extra).None?
  {
    if SplitParts(count, d + extra).Some? {
      SplitCut(count, d + extra, |d|);
      CutIsShorter(d, extra);
    }
  }

  /** A batch that is cut anywhere, or followed by anything, is malformed. */
  lemma DamagedBatch(p: Packet, n: nat, extra: seq<byte>)
    requires p != [] && p[0] == BATCH && ExpandIncoming(p).Some?
    ensures n < |p| ==> ExpandIncoming(p[..n]) == None
    ensures extra != [] ==> ExpandIncoming(p + extra) == None
  {
    if n < |p| && n >= 2 {
      PrefixParts(p, n, 2);
      SplitCut(p[1], p[2..], n - 2);
    }
    if extra != [] {
      SplitLonger(p[1], p[2..], extra);
      assert (p + extra)[2..] == p[2..] + extra;
    }
    hide SplitParts;
  }

  // Optimized packets.

  lemma RestoreParts(fields: seq<FieldDef>, flags: seq<bool>, d: seq<byte>) returns (k: nat)
    requires fields != [] && |flags| == |fields| && Restore(fields, flags, d).Some?
    ensures k <= |d| && Restore(fields[1..], flags[1..], d[k..]).Some?
    ensures Restore(fields[1..], flags[1..], d[k..]).value.1 == Restore(fields, flags, d).value.1
    ensures if !fields[0].ftype.Variable() && flags[0] then k == 0 else FieldSpan(fields[0], false, d) == Some(k)
  {
    hide FieldSpan;
    k := if !fields[0].ftype.Variable() && flags[0] then 0 else FieldSpan(fields[0], false, d).value;
  }

  /** What is left over is the end of the body. */
  lemma {:induction false} RestLeft(fields: seq<FieldDef>, flags: seq<bool>, d: seq<byte>)
    requires |flags| == |fields| && Restore(fields, flags, d).Some?
    ensures |Restore(fields, flags, d).value.1| <= |d|
    decreases |fields|
  {
    if fields != [] {
      var k := RestoreParts(fields, flags, d);
      RestLeft(fields[1..], flags[1..], d[k..]);
    }
  }

  /** One field of a body that is cut: there in full, or not there. */
  lemma SpanCut(f: FieldDef, d: seq<byte>, n: nat, k: nat)
    requires n <= |d| && FieldSpan(f, false, d) == Some(k)
    ensures FieldSpan(f, false, d[..n]) == if n < k then None else Some(k)
  {
    assert n >= 2 ==> Word(d[..n]) == Word(d);
    hide Word;
  }

  lemma RestoreStep(fields: seq<FieldDef>, flags: seq<bool>, d: seq<byte>, k: nat)
    requires fields != [] && |flags| == |fields| && k <= |d|
    requires if !fields[0].ftype.Variable() && flags[0] then k == 0 else FieldSpan(fields[0], false, d) == Some(k)
    ensures Restore(fields, flags, d).Some? <==> Restore(fields[1..], flags[1..], d[k..]).Some?
    ensures Restore(fields, flags, d).Some? ==>
      Restore(fields, flags, d).value.1 == Restore(fields[1..], flags[1..], d[k..]).value.1
  {
    hide FieldSpan;
  }

  lemma RestoreFails(fields: seq<FieldDef>, flags: seq<bool>, d: seq<byte>)
    requires fields != [] && |flags| == |fields|
    requires (fields[0].ftype.Variable() || !flags[0]) && FieldSpan(fields[0], false, d).None?
    ensures Restore(fields, flags, d).None?
  {
  }

  /** A body that is cut inside what it needs does not restore; cut behind it, less is left over. */
  lemma {:induction false} RestoreCut(fields: seq<FieldDef>, flags: seq<bool>, d: seq<byte>, n: nat)
    requires |flags| == |fields| && n <= |d| && Restore(fields, flags, d).Some?
    ensures |Restore(fields, flags, d).value.1| <= |d|
    ensures var needed, r := |d| - |Restore(fields, flags, d).value.1|, Restore(fields, flags, d[..n]);
      if n < needed then r.None? else r.Some? && |r.value.1| == n - needed
    decreases |fields|
  {
    RestLeft(fields, flags, d);
    if fields != [] {
      var k := RestoreParts(fields, flags, d);
      RestLeft(fields[1..], flags[1..], d[k..]);
      if fields[0].ftype.Variable() || !flags[0] { SpanCut(fields[0], d, n, k); }
      hide Restore, FieldSpan;
      if n < k {
        RestoreFails(fields, flags, d[..n]);
      } else {
        PrefixParts(d, n, k);
        RestoreCut(fields[1..], flags[1..], d[k..], n - k);
        RestoreStep(fields, flags, d[..n], k);
      }
    }
  }

  // Both, as packets.

  /** Flags do not depend on what follows the bitmap. */
  lemma FlagsOfPrefix(p: seq<byte>, at: nat, n: nat, count: nat)
    requires at + BitmapSize(count) <= n <= |p|
    ensures Flags(p[..n][at..], count) == Flags(p[at..], count)
  {
    var size := BitmapSize(count);
    var bitmap := p[at..at + size];
    FlagsLocal(bitmap, count, p[at + size..n]);
    FlagsLocal(bitmap, count, p[at + size..]);
    hide Flags;
    assert p[..n][at..] == bitmap + p[at + size..n];
    assert p[at..] == bitmap + p[at + size..];
  }

  /** The first six bytes of a prefix that has them. */
  lemma HeadOfPrefix(p: seq<byte>, n: nat)
    requires 6 <= n <= |p|
    ensures var q := p[..n];
      |q| == n && q[0] == p[0] && q[5] == p[5] && Word(q[1..]) == Word(p[1..]) && Word(q[3..]) == Word(p[3..])
  {
  }

  /** Why a delta is refused before its fields are read. */
  lemma HeadExpands(schema: SchemaDef, q: seq<byte>, last: Option<Payload>, expected: u16)
    requires |q| >= 6 ==>
      q[0] == DELTA && Word(q[1..]) == schema.messageId && Word(q[3..]) == expected && last.Some?
    ensures |q| < 6 || |q| < 6 + q[5] as int ==> ExpandDelta(schema, q, last, expected) == Refused
    ensures |q| >= 6 && |q| >= 6 + q[5] as int ==>
      var flags := Flags(q[6..], |schema.fields|);
      ExpandDelta(schema, q, last, expected)
        == match Grow(schema.fields, flags, last.value, q[6 + q[5] as int..])
           case Stopped(threw) => (if threw then Exception else Refused)
           case Grown(values, rest) =>
             if rest != [] then Refused
             else Expanded(PlainPacket(schema, values), Overlay(schema.fields, flags, last.value, values))
  {
    hide Grow, Overlay, PlainPacket, Flags, Word;
  }

  /** How much of a delta the receiver needs before it starts on the fields: six bytes and the bitmap. */
  lemma DeltaPrefix(schema: SchemaDef, p: seq<byte>, last: Option<Payload>, expected: u16, n: nat)
    requires n <= |p| && |p| >= 6 && p[5] == BitmapSize(|schema.fields|)
    requires |p| >= 6 + p[5] as int && last.Some? && p[0] == DELTA
    requires Word(p[1..]) == schema.messageId && Word(p[3..]) == expected
    ensures n < 6 + p[5] as int ==> ExpandDelta(schema, p[..n], last, expected) == Refused
    ensures n >= 6 + p[5] as int ==>
      var size := 6 + p[5] as int;
      var flags := Flags(p[6..], |schema.fields|);
      ExpandDelta(schema, p[..n], last, expected)
        == match Grow(schema.fields, flags, last.value, p[size..][..n - size])
           case Stopped(threw) => (if threw then Exception else Refused)
           case Grown(values, rest) =>
             if rest != [] then Refused
             else Expanded(PlainPacket(schema, values), Overlay(schema.fields, flags, last.value, values))
  {
    hide *;
    var size := 6 + p[5] as int;
    if n >= 6 { HeadOfPrefix(p, n); }
    HeadExpands(schema, p[..n], last, expected);
    if n >= size {
      FlagsOfPrefix(p, 6, n, |schema.fields|);
      PrefixParts(p, n, size);
    }
  }

  /**
   * A delta the receiver would take is not taken when it is cut: it is refused inside its header or bitmap, and a read
   * past its end throws inside its fields. With anything after it, it is refused.
   */
  lemma DamagedDelta(schema: SchemaDef, p: seq<byte>, last: Option<Payload>, expected: u16, n: nat, extra: seq<byte>)
    requires ExpandDelta(schema, p, last, expected).Expanded?
    requires p[5] == BitmapSize(|schema.fields|)
    ensures n < |p| ==>
      ExpandDelta(schema, p[..n], last, expected) == if n < 6 + p[5] as int then Refused else Exception
    ensures extra != [] ==> ExpandDelta(schema, p + extra, last, expected) == Refused
  {
    hide *;
    DeltaParts(schema, p, last, expected);
    var size := 6 + p[5] as int;
    var flags := Flags(p[6..], |schema.fields|);
    if n < |p| {
      DeltaPrefix(schema, p, last, expected, n);
      if n >= size { GrowCut(schema.fields, flags, last.value, p[size..], n - size); }
    }
    if extra != [] { LongerDelta(schema, p, last, expected, extra); }
  }

  lemma DeltaParts(schema: SchemaDef, p: seq<byte>, last: Option<Payload>, expected: u16)
    requires ExpandDelta(schema, p, last, expected).Expanded?
    ensures |p| >= 6 && |p| >= 6 + p[5] as int && last.Some? && p[0] == DELTA
    ensures Word(p[1..]) == schema.messageId && Word(p[3..]) == expected
    ensures var g := Grow(schema.fields, Flags(p[6..], |schema.fields|), last.value, p[6 + p[5] as int..]);
      g.Grown? && g.rest == []
  {
    hide Grow, Overlay, PlainPacket, Flags, Word;
  }

  lemma LongerDelta(schema: SchemaDef, p: seq<byte>, last: Option<Payload>, expected: u16, extra: seq<byte>)
    requires ExpandDelta(schema, p, last, expected).Expanded?
    requires p[5] == BitmapSize(|schema.fields|) && extra != []
    ensures ExpandDelta(schema, p + extra, last, expected) == Refused
  {
    var q := p + extra;
    hide *;
    DeltaParts(schema, p, last, expected);
    HeadSame(p, extra);
    CutIsShorter(p, extra);
    var size := 6 + p[5] as int;
    DeltaPrefix(schema, q, last, expected, |q|);
    WholePrefix(q);
    FlagsOfPrefix(q, 6, |p|, |schema.fields|);
    SuffixParts(p, size, extra);
    GrowLonger(schema.fields, Flags(p[6..], |schema.fields|), last.value, p[size..], extra);
    assert [] + extra == extra && q[size..][..|q| - size] == q[size..];
  }

  lemma HeadSame(p: seq<byte>, extra: seq<byte>)
    requires |p| >= 6
    ensures var q := p + extra;
      q[0] == p[0] && q[5] == p[5] && Word(q[1..]) == Word(p[1..]) && Word(q[3..]) == Word(p[3..])
  {
  }

  lemma WholePrefix(q: seq<byte>)
    ensures q[..|q|] == q
  {
  }

  lemma {:induction false} RestoreLonger(fields: seq<FieldDef>, flags: seq<bool>, d: seq<byte>, extra: seq<byte>)
    requires |flags| == |fields| && Restore(fields, flags, d).Some?
    ensures Restore(fields, flags, d + extra).Some?
    ensures Restore(fields, flags, d + extra).value.1 == Restore(fields, flags, d).value.1 + extra
    decreases |fields|
  {
    if fields != [] {
      var k := RestoreParts(fields, flags, d);
      SuffixParts(d, k, extra);
      if fields[0].ftype.Variable() || !flags[0] { FieldSpanLocal(fields[0], false, d, k, d[k..] + extra); }
      hide Restore, FieldSpan;
      RestoreLonger(fields[1..], flags[1..], d[k..], extra);
      assert d[..k] + (d[k..] + extra) == d + extra;
      RestoreStep(fields, flags, d + extra, k);
    }
  }

  lemma DeoptimizeIs(fields: seq<FieldDef>, q: seq<byte>)
    requires |q| >= 3 && q[2] == MARKER && (|q| >= 4 ==> q[3] == BitmapSize(|fields|))
    ensures |q| < 4 || |q| < 4 + q[3] as int ==> !Deoptimize(fields, q).ok
    ensures |q| >= 4 && |q| >= 4 + q[3] as int ==>
      var r := Restore(fields, Flags(q[4..4 + q[3] as int], |fields|), q[4 + q[3] as int..]);
      Deoptimize(fields, q).ok <==> r.Some? && r.value.1 == []
  {
    hide Restore, Flags, BitmapSize;
  }

  lemma DeoptimizePrefix(fields: seq<FieldDef>, p: seq<byte>, n: nat)
    requires 3 <= n <= |p| && |p| >= 4 && p[2] == MARKER && p[3] == BitmapSize(|fields|) && |p| >= 4 + p[3] as int
    ensures n < 4 + p[3] as int ==> !Deoptimize(fields, p[..n]).ok
    ensures n >= 4 + p[3] as int ==>
      var size := 4 + p[3] as int;
      var r := Restore(fields, Flags(p[4..], |fields|), p[size..][..n - size]);
      Deoptimize(fields, p[..n]).ok <==> r.Some? && r.value.1 == []
  {
    hide *;
    var size := 4 + p[3] as int;
    DeoptimizeIs(fields, p[..n]);
    if n >= size {
      FlagsOfPrefix(p, 4, size, |fields|);
      assert p[..n][4..size] == p[..size][4..];
      PrefixParts(p, n, size);
    }
  }

  /** An optimized packet that restores does so only as a whole: neither a part of it nor more than it restores. */
  lemma DamagedOptimized(fields: seq<FieldDef>, p: seq<byte>, n: nat, extra: seq<byte>)
    requires IsOptimized(p) && Deoptimize(fields, p).ok
    ensures 3 <= n < |p| ==> !Deoptimize(fields, p[..n]).ok
    ensures extra != [] ==> !Deoptimize(fields, p + extra).ok
  {
    hide Restore, Flags, BitmapSize;
    assert |p| >= 4 && p[3] == BitmapSize(|fields|) && |p| >= 4 + p[3] as int;
    hide Deoptimize;
    var size, flags := 4 + p[3] as int, Flags(p[4..], |fields|);
    DeoptimizePrefix(fields, p, |p|);
    WholePrefix(p);
    WholePrefix(p[size..]);
    if 3 <= n < |p| {
      DeoptimizePrefix(fields, p, n);
      if n >= size { RestoreCut(fields, flags, p[size..], n - size); }
    }
    if extra != [] {
      var q := p + extra;
      DeoptimizePrefix(fields, q, |q|);
      WholePrefix(q);
      FlagsOfPrefix(q, 4, |p|, |fields|);
      CutIsShorter(p, extra);
      SuffixParts(p, size, extra);
      WholePrefix(q[size..]);
      RestoreLonger(fields, flags, p[size..], extra);
    }
  }

  /** An optimized packet whose bitmap is not just long enough for the fields does not restore. */
  lemma WrongBitmap(fields: seq<FieldDef>, p: seq<byte>)
    requires |p| >= 3 && p[2] == 0xFD
    requires |p| >= 4 ==> 8 * p[3] as int < |fields| || 8 * p[3] as int >= |fields| + 8
    ensures Deoptimize(fields, p) == Unapplied(false, [])
  {
    hide Restore, Flags;
  }

  /** The tags of a number are 0 to 3, and 2 only where the field is wide enough for it. */
  lemma UnknownTag(t: FieldType, previous: int, d: seq<byte>)
    requires t in {U16, I16, U32, I32} && d != []
    ensures ReadTagged(t, previous, d) == BadField <==> d[0] > 3 || (d[0] == 2 && t in {U16, I16})
  {
    hide FromLE, FieldType.Cast, SignExtend;
  }

  /** A changed number cannot be read over a value that is no number, and any number is read at the held type. */
  lemma NumericBase(base: FieldValue, d: seq<byte>)
    requires base.Number? ==> !base.ntype.Variable()
    ensures !base.Number? ==> ReadNumeric(base, d) == BadField
    ensures ReadNumeric(base, d).Took? ==> ReadNumeric(base, d).value.Type() == base.Type()
  {
    hide FromLE, FieldType.Cast, SignExtend;
  }
}
