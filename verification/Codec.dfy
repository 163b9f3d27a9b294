/**
 * The packet grammar and the general codec: one field after another, each on the bytes the previous field left.
 * String fields may be replaced by a four-byte reference into the adaptive dictionary.
 */
module Codec {
  import opened Wire
  import opened Schema
  import opened Dictionary

  /** The length word that announces a dictionary reference instead of a string. */
  const REFERENCE: u16 := 65535

  // Grammar: how many bytes a field, and a list of fields, takes at the front of `d`.

  function FieldSpan(f: FieldDef, limited: bool, d: seq<byte>): (span: Option<nat>)
    ensures span.Some? ==> span.value <= |d| && (f.ftype.Variable() ==> span.value >= 2)
  {
    if !f.ftype.Variable() then
      if |d| >= f.ftype.Size() then Some(f.ftype.Size()) else None
    else if |d| < 2 then None
    else if f.ftype.String? && Word(d) == REFERENCE then
      if |d| >= 4 then Some(4) else None
    else if limited && f.hasMax && Word(d) > f.maxLength then None
    else if |d| >= 2 + Word(d) then Some(2 + Word(d)) else None
  }

  function Span(fields: seq<FieldDef>, limited: bool, d: seq<byte>): (span: Option<nat>)
    ensures span.Some? ==> span.value <= |d|
  {
    if fields == [] then Some(0)
    else
      var first := FieldSpan(fields[0], limited, d);
      if first.None? then None
      else
        var rest := Span(fields[1..], limited, d[first.value..]);
        if rest.None? then None else Some(first.value + rest.value)
  }

  /** Bytes after the span do not matter. */
  lemma FieldSpanLocal(f: FieldDef, limited: bool, d: seq<byte>, n: nat, suffix: seq<byte>)
    requires FieldSpan(f, limited, d) == Some(n)
    ensures FieldSpan(f, limited, d[..n] + suffix) == Some(n)
  {
    if f.ftype.Variable() { SameWord(d, n, suffix); }
    hide Word;
  }

  lemma SameWord(d: seq<byte>, n: nat, suffix: seq<byte>)
    requires 2 <= n <= |d|
    ensures Word(d[..n] + suffix) == Word(d)
  {
  }

  /** The span of a body whose first field is `wire`. */
  lemma SpanStep(fields: seq<FieldDef>, limited: bool, wire: seq<byte>, tail: seq<byte>)
    requires fields != [] && FieldSpan(fields[0], limited, wire + tail) == Some(|wire|)
    ensures Span(fields, limited, wire + tail)
      == match Span(fields[1..], limited, tail) case None => None case Some(k) => Some(|wire| + k)
  {
    hide *;
    SplitAt(wire + tail, wire, tail);
    SpanUnfolds(fields, limited, wire + tail, |wire|);
  }

  lemma SpanUnfolds(fields: seq<FieldDef>, limited: bool, d: seq<byte>, k: nat)
    requires fields != [] && k <= |d| && FieldSpan(fields[0], limited, d) == Some(k)
    ensures Span(fields, limited, d)
      == match Span(fields[1..], limited, d[k..]) case None => None case Some(n) => Some(k + n)
  {
    hide FieldSpan;
  }

  /** The first field's span and the rest of the body's. */
  lemma SpanParts(fields: seq<FieldDef>, limited: bool, d: seq<byte>, n: nat)
    requires fields != [] && Span(fields, limited, d) == Some(n)
    ensures FieldSpan(fields[0], limited, d).Some?
    ensures var k := FieldSpan(fields[0], limited, d).value;
      k <= n <= |d| && Span(fields[1..], limited, d[k..]) == Some(n - k)
  {
    hide FieldSpan;
  }

  lemma {:induction false} SpanLocal(fields: seq<FieldDef>, limited: bool, d: seq<byte>, n: nat, suffix: seq<byte>)
    requires Span(fields, limited, d) == Some(n)
    ensures Span(fields, limited, d[..n] + suffix) == Some(n)
    decreases |fields|
  {
    hide FieldSpan;
    if fields != [] {
      SpanParts(fields, limited, d, n);
      var k := FieldSpan(fields[0], limited, d).value;
      SpanLocal(fields[1..], limited, d[k..], n - k, suffix);
      hide Span;
      SpanLocalStep(fields, limited, d, k, n, suffix);
    }
  }

  lemma SpanLocalStep(fields: seq<FieldDef>, limited: bool, d: seq<byte>, k: nat, n: nat, suffix: seq<byte>)
    requires fields != [] && k <= n <= |d| && FieldSpan(fields[0], limited, d) == Some(k)
    requires Span(fields[1..], limited, d[k..][..n - k] + suffix) == Some(n - k)
    ensures Span(fields, limited, d[..n] + suffix) == Some(n)
  {
    hide *;
    var tail := d[k..][..n - k] + suffix;
    FieldSpanLocal(fields[0], limited, d, k, tail);
    TakeInParts(d, k, n, suffix);
    SpanStep(fields, limited, d[..k], tail);
  }

  /** A span within the length limits is also a span without them. */
  lemma {:induction false} SpanUnlimited(fields: seq<FieldDef>, d: seq<byte>)
    requires Span(fields, true, d).Some?
    ensures Span(fields, false, d) == Span(fields, true, d)
    decreases |fields|
  {
    if fields != [] {
      FieldSpanUnlimited(fields[0], d);
      hide FieldSpan;
      SpanUnlimited(fields[1..], d[FieldSpan(fields[0], true, d).value..]);
    }
  }

  lemma FieldSpanUnlimited(f: FieldDef, d: seq<byte>)
    ensures FieldSpan(f, true, d).Some? ==> FieldSpan(f, false, d) == FieldSpan(f, true, d)
  {
    hide Word;
  }

  lemma {:induction false} SpanOfFixed(fields: seq<FieldDef>, limited: bool, d: seq<byte>)
    requires AllFixed(fields)
    ensures Span(fields, limited, d) == if |d| >= FixedBytes(fields) then Some(FixedBytes(fields)) else None
    decreases |fields|
  {
    if fields != [] {
      assert !fields[0].ftype.Variable();
      if |d| >= fields[0].ftype.Size() { SpanOfFixed(fields[1..], limited, d[fields[0].ftype.Size()..]); }
    }
  }

  /** No accepted packet is shorter than the layout's minimum. */
  lemma {:induction false} SpanAtLeastMinimum(fields: seq<FieldDef>, limited: bool, d: seq<byte>)
    requires Span(fields, limited, d).Some?
    ensures 2 + Span(fields, limited, d).value >= MinimumSize(fields) >= 2 + |fields|
    decreases |fields|
  {
    if fields != [] { SpanAtLeastMinimum(fields[1..], limited, d[FieldSpan(fields[0], limited, d).value..]); }
  }

  // Encoding.

  function PlainValue(v: FieldValue): (wire: seq<byte>)
  {
    match v
    case Number(t, n) => LE(n, t.Size())
    case Text(s) => LE(|s|, 2) + s
    case Blob(b) => LE(|b|, 2) + b
  }

  function PlainValues(values: seq<FieldValue>): (wire: seq<byte>)
  {
    if values == [] then [] else PlainValue(values[0]) + PlainValues(values[1..])
  }

  function PlainPacket(schema: SchemaDef, values: seq<FieldValue>): (packet: seq<byte>)
  {
    LE(schema.messageId, 2) + PlainValues(values)
  }

  /** A known string goes out as a reference; an unknown one is stored and goes out in full. */
  function EncodeValue(dict: Dict, v: FieldValue): (seq<byte>, Dict)
  {
    if v.Text? && dict.config.Active() then
      if v.text in dict.idOf then (LE(REFERENCE, 2) + LE(dict.idOf[v.text], 2), dict)
      else (PlainValue(v), dict.CreateOrGet(v.text).0)
    else (PlainValue(v), dict)
  }

  function EncodeValues(dict: Dict, values: seq<FieldValue>): (seq<byte>, Dict)
    decreases |values|
  {
    if values == [] then ([], dict)
    else
      var (wire, mid) := EncodeValue(dict, values[0]);
      var (rest, last) := EncodeValues(mid, values[1..]);
      (wire + rest, last)
  }

  // Decoding.

  datatype FieldRead = Read(value: FieldValue, used: nat, dict: Dict) | Truncated | Missing

  function DecodeField(f: FieldDef, dict: Dict, d: seq<byte>): (r: FieldRead)
    ensures r.Read? ==> r.used <= |d|
  {
    if !f.ftype.Variable() then
      if |d| < f.ftype.Size() then Truncated
      else Read(Number(f.ftype, f.ftype.Cast(FromLE(d[..f.ftype.Size()]))), f.ftype.Size(), dict)
    else if |d| < 2 then Truncated
    else if f.ftype.String? && Word(d) == REFERENCE then
      if |d| < 4 then Truncated
      else if Word(d[2..]) !in dict.valueOf then Missing
      else Read(Text(dict.valueOf[Word(d[2..])]), 4, dict)
    else if |d| < 2 + Word(d) then Truncated
    else
      var body := d[2..2 + Word(d)];
      if f.ftype.String? then
        Read(Text(body), 2 + Word(d), if dict.config.Active() then dict.CreateOrGet(body).0 else dict)
      else Read(Blob(body), 2 + Word(d), dict)
  }

  datatype Ending = Complete | OutOfBytes | UnknownReference

  /** The values read, what ended the reading, the bytes left over and the dictionary as it then stands. */
  datatype Decoded = Decoded(ending: Ending, values: seq<FieldValue>, rest: seq<byte>, dict: Dict)

  function DecodeValues(fields: seq<FieldDef>, dict: Dict, d: seq<byte>): (r: Decoded)
    ensures r.ending.Complete? ==> |r.values| == |fields|
  {
    if fields == [] then Decoded(Complete, [], d, dict)
    else
      match DecodeField(fields[0], dict, d)
      case Truncated => Decoded(OutOfBytes, [], d, dict)
      case Missing => Decoded(UnknownReference, [], d, dict)
      case Read(v, used, next) =>
        var tail := DecodeValues(fields[1..], next, d[used..]);
        tail.(values := [v] + tail.values)
  }

  // Round trips.

  lemma SmallMod(x: nat, m: nat)
    requires x < m
    ensures x % m == x
  {
  }

  lemma CastUnwraps(t: FieldType, n: int)
    requires !t.Variable() && t.Holds(n) && n < 0
    ensures t.Cast(n + t.Modulus()) == n
  {
    assert t.Signed();
    match t
    case I8 => SmallMod(n + 256, 256);
    case I16 => SmallMod(n + 65536, 65536);
    case I32 => SmallMod(n + 4294967296, 4294967296);
  }

  lemma NumberRoundTrip(t: FieldType, n: int)
    requires !t.Variable() && t.Holds(n)
    ensures t.Cast(FromLE(LE(n, t.Size()))) == n
  {
    Pow256Values();
    assert Pow256(t.Size()) == t.Modulus();
    LERoundTrip(n, t.Size());
    if n < 0 { CastUnwraps(t, n); }
  }

  lemma NumberReadsBack(f: FieldDef, dict: Dict, v: FieldValue, suffix: seq<byte>)
    requires Carried(f, v) && v.Number?
    ensures DecodeField(f, dict, PlainValue(v) + suffix) == Read(v, |PlainValue(v)|, dict)
  {
    NumberRoundTrip(v.ntype, v.n);
    assert (PlainValue(v) + suffix)[..v.ntype.Size()] == LE(v.n, v.ntype.Size());
  }

  lemma CountedReadsBack(body: seq<byte>, suffix: seq<byte>)
    requires |body| <= 65535
    ensures var d := LE(|body|, 2) + body + suffix; Word(d) == |body| && d[2..2 + |body|] == body
  {
    WordRoundTrip(|body|, body + suffix);
    hide LE, Word;
    SmallMod(|body|, 65536);
    Assoc(LE(|body|, 2), body, suffix);
  }

  function Learn(dict: Dict, v: FieldValue): Dict
  {
    if v.Text? && dict.config.Active() then dict.CreateOrGet(v.text).0 else dict
  }

  lemma ReadsBack(f: FieldDef, dict: Dict, v: FieldValue, suffix: seq<byte>)
    requires Carried(f, v)
    ensures DecodeField(f, dict, PlainValue(v) + suffix) == Read(v, |PlainValue(v)|, Learn(dict, v))
  {
    match v
    case Number(_, _) => NumberReadsBack(f, dict, v, suffix);
    case Text(s) => CountedReadsBack(s, suffix);
    case Blob(b) => CountedReadsBack(b, suffix);
  }

  lemma ReferenceReads(f: FieldDef, dict: Dict, id: u16, suffix: seq<byte>)
    requires f.ftype.String?
    ensures DecodeField(f, dict, LE(REFERENCE, 2) + LE(id, 2) + suffix)
      == match dict.LookupValue(id) case None => Missing case Some(t) => Read(Text(t), 4, dict)
  {
    var d := LE(REFERENCE, 2) + LE(id, 2) + suffix;
    Assoc(LE(REFERENCE, 2), LE(id, 2), suffix);
    WordRoundTrip(REFERENCE, LE(id, 2) + suffix);
    assert d[2..] == LE(id, 2) + suffix;
    WordRoundTrip(id, suffix);
  }

  lemma ReferenceReadsBack(f: FieldDef, dict: Dict, s: Str, suffix: seq<byte>)
    requires f.ftype.String? && dict.Inv() && s in dict.idOf
    ensures DecodeField(f, dict, LE(REFERENCE, 2) + LE(dict.idOf[s], 2) + suffix) == Read(Text(s), 4, dict)
  {
    ReferenceReads(f, dict, dict.idOf[s], suffix);
    hide DecodeField;
  }

  /** Lockstep for one field: decoding an encoded value gives the value and the encoder's dictionary. */
  lemma EncodedReadsBack(f: FieldDef, dict: Dict, v: FieldValue, suffix: seq<byte>)
    requires Carried(f, v) && dict.Inv()
    ensures var (wire, next) := EncodeValue(dict, v);
      DecodeField(f, dict, wire + suffix) == Read(v, |wire|, next) && next.Inv() && next.config == dict.config
  {
    if v.Text? && dict.config.Active() {
      dict.CreateOrGetKeeps(v.text);
      if v.text in dict.idOf { ReferenceReadsBack(f, dict, v.text, suffix); } else { ReadsBack(f, dict, v, suffix); }
    } else {
      ReadsBack(f, dict, v, suffix);
    }
  }

  /**
   * Dictionary lockstep: a receiver whose dictionary equals the sender's reads every value back, consumes exactly
   * the encoded bytes and ends with the sender's new dictionary, evictions inside the packet included.
   */
  lemma {:induction false} Lockstep(fields: seq<FieldDef>, dict: Dict, values: seq<FieldValue>, suffix: seq<byte>)
    requires AllCarried(fields, values) && dict.Inv()
    ensures var (wire, next) := EncodeValues(dict, values);
      DecodeValues(fields, dict, wire + suffix) == Decoded(Complete, values, suffix, next)
      && next.Inv() && next.config == dict.config
    decreases |fields|
  {
    if fields != [] {
      var (wire, mid) := EncodeValue(dict, values[0]);
      var rest := EncodeValues(mid, values[1..]).0;
      EncodedReadsBack(fields[0], dict, values[0], rest + suffix);
      DecodeStep(fields, dict, wire, rest + suffix, values[0], mid);
      assert AllCarried(fields[1..], values[1..]);
      hide EncodeValue, DecodeField, Dict.Inv, AllCarried, DecodeValues;
      Lockstep(fields[1..], mid, values[1..], suffix);
      Assoc(wire, rest, suffix);
      assert [values[0]] + values[1..] == values;
    } else {
      assert [] + suffix == suffix;
    }
  }

  lemma DecodeStep(fields: seq<FieldDef>, dict: Dict, wire: seq<byte>, tail: seq<byte>, v: FieldValue, next: Dict)
    requires fields != [] && DecodeField(fields[0], dict, wire + tail) == Read(v, |wire|, next)
    ensures var rest := DecodeValues(fields[1..], next, tail);
      DecodeValues(fields, dict, wire + tail) == rest.(values := [v] + rest.values)
  {
    assert (wire + tail)[|wire|..] == tail;
  }

  /**
   * The same holds when the packet the sender encoded is thrown away and the receiver decodes the plain packet
   * of the same values instead: full strings teach its dictionary what the references would have relied on.
   */
  lemma {:induction false} LockstepOnPlain(fields: seq<FieldDef>, dict: Dict, values: seq<FieldValue>,
                                           suffix: seq<byte>)
    requires AllCarried(fields, values) && dict.Inv()
    ensures DecodeValues(fields, dict, PlainValues(values) + suffix)
      == Decoded(Complete, values, suffix, EncodeValues(dict, values).1)
    decreases |fields|
  {
    if fields != [] {
      var wire, rest := PlainValue(values[0]), PlainValues(values[1..]);
      var mid := Learn(dict, values[0]);
      EncodedReadsBack(fields[0], dict, values[0], []);
      LearnIsEncode(dict, values[0]);
      ReadsBack(fields[0], dict, values[0], rest + suffix);
      DecodeStep(fields, dict, wire, rest + suffix, values[0], mid);
      assert AllCarried(fields[1..], values[1..]);
      hide EncodeValue, DecodeField, Dict.Inv, AllCarried, DecodeValues, PlainValue, Learn;
      LockstepOnPlain(fields[1..], mid, values[1..], suffix);
      Assoc(wire, rest, suffix);
      assert [values[0]] + values[1..] == values;
    } else {
      assert [] + suffix == suffix;
    }
  }

  lemma LearnIsEncode(dict: Dict, v: FieldValue)
    ensures EncodeValue(dict, v).1 == Learn(dict, v)
  {
  }

  // A packet decoded later than it was encoded.

  /** The encoder would write a reference for this value. */
  predicate GoesByReference(dict: Dict, v: FieldValue)
  {
    v.Text? && dict.config.Active() && v.text in dict.idOf
  }

  /** The reference the packet has for this value no longer names it. */
  predicate Unbound(kept: Dict, now: Dict, v: FieldValue)
  {
    GoesByReference(kept, v) && now.LookupValue(kept.idOf[v.text]) != Some(v.text)
  }

  /** Every reference that encoding with `kept` writes still names its string where `now` meets it. */
  predicate StillBound(kept: Dict, now: Dict, values: seq<FieldValue>)
    decreases |values|
  {
    values == [] ||
    (&& !Unbound(kept, now, values[0])
     && StillBound(EncodeValue(kept, values[0]).1, EncodeValue(now, values[0]).1, values[1..]))
  }

  /** One value: it reads back, teaching `now` what encoding it would, exactly if its reference is still bound. */
  lemma LateReadsBack(f: FieldDef, kept: Dict, now: Dict, v: FieldValue, suffix: seq<byte>)
    requires Carried(f, v) && kept.Inv() && now.Inv()
    ensures EncodeValue(kept, v).1.Inv() && EncodeValue(now, v).1.Inv()
    ensures var wire := EncodeValue(kept, v).0;
      var r := DecodeField(f, now, wire + suffix);
      if Unbound(kept, now, v)
      then !r.Truncated? && (r.Read? ==> r.value != v && r.used == |wire|)
      else r == Read(v, |wire|, EncodeValue(now, v).1)
  {
    EncodedReadsBack(f, kept, v, []);
    EncodedReadsBack(f, now, v, []);
    if GoesByReference(kept, v) {
      ReferenceReads(f, now, kept.idOf[v.text], suffix);
      hide DecodeField;
    } else {
      ReadsBack(f, now, v, suffix);
      LearnIsEncode(now, v);
    }
  }

  /**
   * A packet that is decoded with another dictionary than it was encoded with, as a packet sent again is: it reads back
   * in full, and leaves the dictionary that encoding the values afresh would leave, if every reference in it is still
   * bound to its string; otherwise an unknown reference stops it or a string comes out wrong.
   */
  lemma {:induction false} LateLockstep(fields: seq<FieldDef>, kept: Dict, now: Dict, values: seq<FieldValue>,
                                        suffix: seq<byte>)
    requires AllCarried(fields, values) && kept.Inv() && now.Inv()
    ensures var r := DecodeValues(fields, now, EncodeValues(kept, values).0 + suffix);
      && (StillBound(kept, now, values) ==> r == Decoded(Complete, values, suffix, EncodeValues(now, values).1))
      && (!StillBound(kept, now, values) && r.ending.Complete? ==> Garbled(values, r.values))
    decreases |fields|
  {
    hide *;
    EncodeUnfolds(kept, values);
    EncodeUnfolds(now, values);
    BoundUnfolds(kept, now, values);
    CarriedLength(fields, values);
    if fields == [] {
      NothingDecoded(fields, now, suffix);
      assert [] + suffix == suffix;
    } else {
      var v, next := values[0], EncodeValue(now, values[0]).1;
      var (wire, mid) := EncodeValue(kept, v);
      var rest := EncodeValues(mid, values[1..]).0;
      CarriedFirst(fields, values);
      LateReadsBack(fields[0], kept, now, v, rest + suffix);
      Assoc(wire, rest, suffix);
      if Unbound(kept, now, v) {
        UnboundIs(kept, now, v);
        GarbledFirst(fields, now, wire + (rest + suffix), values);
      } else {
        DecodeStep(fields, now, wire, rest + suffix, v, next);
        LateLockstep(fields[1..], mid, next, values[1..], suffix);
        GarbledLater(values, DecodeValues(fields[1..], next, rest + suffix).values);
        assert [v] + values[1..] == values;
      }
    }
  }

  lemma UnboundIs(kept: Dict, now: Dict, v: FieldValue)
    ensures Unbound(kept, now, v) <==> GoesByReference(kept, v) && now.LookupValue(kept.idOf[v.text]) != Some(v.text)
    ensures Unbound(kept, now, v) ==> v.Text?
  {
  }

  lemma BoundUnfolds(kept: Dict, now: Dict, values: seq<FieldValue>)
    ensures values == [] ==> StillBound(kept, now, values)
    ensures values != [] ==> (StillBound(kept, now, values) <==>
      !Unbound(kept, now, values[0])
      && StillBound(EncodeValue(kept, values[0]).1, EncodeValue(now, values[0]).1, values[1..]))
  {
    hide EncodeValue, Dict.LookupValue;
  }

  lemma NothingDecoded(fields: seq<FieldDef>, dict: Dict, d: seq<byte>)
    requires fields == []
    ensures DecodeValues(fields, dict, d) == Decoded(Complete, [], d, dict)
  {
  }

  lemma CarriedFirst(fields: seq<FieldDef>, values: seq<FieldValue>)
    requires fields != [] && AllCarried(fields, values)
    ensures values != [] && Carried(fields[0], values[0]) && AllCarried(fields[1..], values[1..])
  {
    hide Carried;
  }

  lemma GarbledFirst(fields: seq<FieldDef>, now: Dict, d: seq<byte>, values: seq<FieldValue>)
    requires fields != [] && |values| == |fields| && values[0].Text?
    requires var r := DecodeField(fields[0], now, d); !r.Truncated? && (r.Read? ==> r.value != values[0])
    ensures DecodeValues(fields, now, d).ending.Complete? ==> Garbled(values, DecodeValues(fields, now, d).values)
  {
    hide DecodeField;
    var read := DecodeValues(fields, now, d).values;
    if |read| == |values| { assert values[0].Text? && (DecodeField(fields[0], now, d).Read? ==> read[0] != values[0]); }
  }

  lemma GarbledLater(values: seq<FieldValue>, read: seq<FieldValue>)
    requires values != []
    ensures Garbled(values[1..], read) ==> Garbled(values, [values[0]] + read)
  {
    if Garbled(values[1..], read) && |read| == |values| - 1 {
      var i :| 0 <= i < |values[1..]| && values[1..][i].Text? && read[i] != values[1..][i];
      assert values[i + 1].Text? && ([values[0]] + read)[i + 1] != values[i + 1];
    }
  }

  /** Some string differs. */
  predicate Garbled(sent: seq<FieldValue>, read: seq<FieldValue>)
  {
    |read| != |sent| || exists i :: 0 <= i < |sent| && sent[i].Text? && read[i] != sent[i]
  }

  /** Without an active dictionary the general encoder writes the plain packet and stores nothing. */
  lemma {:induction false} EncodeInactive(dict: Dict, values: seq<FieldValue>)
    requires !dict.config.Active()
    ensures EncodeValues(dict, values) == (PlainValues(values), dict)
  {
    if values != [] { EncodeInactive(dict, values[1..]); }
  }

  /** Every encoded value has the span the grammar assigns to its field, within the limit. */
  lemma EncodedSpan(f: FieldDef, dict: Dict, v: FieldValue, suffix: seq<byte>)
    requires Carried(f, v) && WithinLimit(f, v)
    ensures var wire := EncodeValue(dict, v).0; FieldSpan(f, true, wire + suffix) == Some(|wire|)
  {
    if v.Text? && dict.config.Active() && v.text in dict.idOf {
      var id := LE(dict.idOf[v.text], 2);
      assert LE(REFERENCE, 2) + id + suffix == LE(REFERENCE, 2) + (id + suffix);
      WordRoundTrip(REFERENCE, id + suffix);
    } else {
      match v
      case Number(_, _) =>
      case Text(s) => CountedReadsBack(s, suffix);
      case Blob(b) => CountedReadsBack(b, suffix);
    }
  }

  lemma {:induction false} EncodedSpans(fields: seq<FieldDef>, dict: Dict, values: seq<FieldValue>)
    requires AllCarried(fields, values) && Validated(fields, values)
    ensures var wire := EncodeValues(dict, values).0; Span(fields, true, wire) == Some(|wire|)
    decreases |fields|
  {
    hide *;
    EncodeUnfolds(dict, values);
    CarriedLength(fields, values);
    if fields == [] {
      NoSpan(fields);
    } else {
      var (wire, mid) := EncodeValue(dict, values[0]);
      var rest := EncodeValues(mid, values[1..]).0;
      CarriedTail(fields, values);
      EncodedSpan(fields[0], dict, values[0], rest);
      EncodedSpans(fields[1..], mid, values[1..]);
      SpanStep(fields, true, wire, rest);
    }
  }

  lemma EncodeUnfolds(dict: Dict, values: seq<FieldValue>)
    ensures values == [] ==> EncodeValues(dict, values) == ([], dict)
    ensures values != [] ==>
      var (wire, mid) := EncodeValue(dict, values[0]);
      EncodeValues(dict, values) == (wire + EncodeValues(mid, values[1..]).0, EncodeValues(mid, values[1..]).1)
  {
    hide EncodeValue;
  }

  lemma CarriedLength(fields: seq<FieldDef>, values: seq<FieldValue>)
    requires AllCarried(fields, values)
    ensures |values| == |fields|
  {
    hide Carried;
  }

  lemma NoSpan(fields: seq<FieldDef>)
    requires fields == []
    ensures Span(fields, true, []) == Some(0)
  {
  }

  lemma CarriedTail(fields: seq<FieldDef>, values: seq<FieldValue>)
    requires fields != [] && AllCarried(fields, values) && Validated(fields, values)
    ensures |values| == |fields| && Carried(fields[0], values[0]) && WithinLimit(fields[0], values[0])
    ensures AllCarried(fields[1..], values[1..]) && Validated(fields[1..], values[1..])
  {
    hide Carried, WithinLimit;
  }

  // Packets accepted by the grammar decode.

  /**
   * Totality: bytes with a complete span never run out while decoding; either every byte is consumed or a
   * reference is unknown. The values read have the declared types, and an over-long one came from a reference.
   */
  lemma {:induction false} SpannedDecodes(fields: seq<FieldDef>, dict: Dict, d: seq<byte>)
    requires Span(fields, true, d) == Some(|d|)
    ensures var r := DecodeValues(fields, dict, d);
      && !r.ending.OutOfBytes?
      && (r.ending.Complete? ==> r.rest == [])
      && (r.ending.Complete? ==> forall i :: 0 <= i < |fields| ==> r.values[i].Type() == fields[i].ftype)
    decreases |fields|
  {
    if fields != [] {
      var k := FieldSpan(fields[0], true, d).value;
      match DecodeField(fields[0], dict, d)
      case Missing =>
      case Truncated => assert false;
      case Read(v, used, next) =>
        assert used == k;
        SpannedDecodes(fields[1..], next, d[k..]);
    }
  }

  /** Position i holds a reference when the bytes are walked by the grammar. */
  predicate ReferenceAt(fields: seq<FieldDef>, d: seq<byte>, i: nat)
    requires i < |fields|
  {
    var span := FieldSpan(fields[0], false, d);
    if i == 0 then fields[0].ftype.String? && |d| >= 2 && Word(d) == REFERENCE
    else span.Some? && ReferenceAt(fields[1..], d[span.value..], i - 1)
  }

  /** A value the field itself carried is within the limit the grammar checked. */
  lemma CarriedWithinLimit(f: FieldDef, dict: Dict, d: seq<byte>)
    requires FieldSpan(f, true, d).Some? && DecodeField(f, dict, d).Read?
    ensures DecodeField(f, dict, d).used == FieldSpan(f, true, d).value
    ensures FieldSpan(f, false, d) == FieldSpan(f, true, d)
    ensures !WithinLimit(f, DecodeField(f, dict, d).value) ==>
      f.ftype.String? && |d| >= 2 && Word(d) == REFERENCE
  {
    hide Dict.CreateOrGet, FieldType.Cast, FromLE;
  }

  lemma {:induction false} OverLimitOnlyByReference(fields: seq<FieldDef>, dict: Dict, d: seq<byte>, i: nat)
    requires Span(fields, true, d) == Some(|d|) && i < |fields|
    requires DecodeValues(fields, dict, d).ending.Complete?
    requires !WithinLimit(fields[i], DecodeValues(fields, dict, d).values[i])
    ensures ReferenceAt(fields, d, i)
    decreases |fields|
  {
    var first := DecodeField(fields[0], dict, d);
    DecodedFirst(fields, dict, d);
    SpanParts(fields, true, d, |d|);
    hide DecodeValues, Span, DecodeField, WithinLimit, FieldSpan;
    CarriedWithinLimit(fields[0], dict, d);
    if i == 0 {
      ReferenceFirst(fields, d);
    } else {
      OverLimitOnlyByReference(fields[1..], first.dict, d[first.used..], i - 1);
    }
  }

  lemma DecodedFirst(fields: seq<FieldDef>, dict: Dict, d: seq<byte>)
    requires fields != [] && DecodeValues(fields, dict, d).ending.Complete?
    ensures DecodeField(fields[0], dict, d).Read?
    ensures var first := DecodeField(fields[0], dict, d);
      var rest := DecodeValues(fields[1..], first.dict, d[first.used..]);
      rest.ending.Complete? && DecodeValues(fields, dict, d).values == [first.value] + rest.values
  {
    hide DecodeField;
  }

  lemma ReferenceFirst(fields: seq<FieldDef>, d: seq<byte>)
    requires fields != []
    ensures fields[0].ftype.String? && |d| >= 2 && Word(d) == REFERENCE ==> ReferenceAt(fields, d, 0)
  {
  }
}
