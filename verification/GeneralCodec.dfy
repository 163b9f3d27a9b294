/** The runtime's encode and decode loops, proved to compute the codec functions. */
module GeneralCodec {
  import opened Wire
  import opened Schema
  import opened Dictionary
  import opened Core
  import opened Codec

  method WriteFullField(encoder: Encoder, v: FieldValue)
    modifies encoder
    ensures encoder.buffer == old(encoder.buffer) + PlainValue(v)
  {
    match v
    case Number(t, n) => encoder.WriteInt(n, t.Size());
    case Text(s) => encoder.WriteCounted(s);
    case Blob(b) => encoder.WriteCounted(b);
  }

  method EncodeString(encoder: Encoder, v: FieldValue, dictionary: AdaptiveDictionary)
    requires v.Text?
    modifies encoder, dictionary
    ensures var (wire, next) := EncodeValue(old(dictionary.State()), v);
      encoder.buffer == old(encoder.buffer) + wire && dictionary.State() == next
  {
    if dictionary.config.enabled && dictionary.config.strings {
      var known := dictionary.LookupId(v.text);
      if known.Some? {
        encoder.WriteInt(REFERENCE, 2);
        encoder.WriteInt(known.value, 2);
        return;
      }
      var _ := dictionary.CreateOrGet(v.text);
    }
    encoder.WriteCounted(v.text);
  }

  method EncodeField(encoder: Encoder, v: FieldValue, dictionary: AdaptiveDictionary)
    modifies encoder, dictionary
    ensures var (wire, next) := EncodeValue(old(dictionary.State()), v);
      encoder.buffer == old(encoder.buffer) + wire && dictionary.State() == next
  {
    if v.Text? { EncodeString(encoder, v, dictionary); } else { WriteFullField(encoder, v); }
  }

  lemma EncodeFrom(dict: Dict, values: seq<FieldValue>, i: nat)
    requires i < |values|
    ensures var (wire, mid) := EncodeValue(dict, values[i]);
      var (rest, last) := EncodeValues(mid, values[i + 1..]);
      EncodeValues(dict, values[i..]) == (wire + rest, last)
  {
    assert values[i..][1..] == values[i + 1..];
  }

  /** The encode loop: the message id, then every field in schema order. */
  method EncodeOrdered(schema: SchemaDef, values: seq<FieldValue>, dictionary: AdaptiveDictionary)
    returns (packet: seq<byte>)
    modifies dictionary
    ensures var (wire, next) := EncodeValues(old(dictionary.State()), values);
      packet == LE(schema.messageId, 2) + wire && dictionary.State() == next
  {
    var encoder := new Encoder();
    encoder.WriteInt(schema.messageId, 2);
    ghost var header := LE(schema.messageId, 2);
    assert encoder.buffer == header;
    ghost var (wire, next) := EncodeValues(dictionary.State(), values);
    assert values[0..] == values;
    for i := 0 to |values|
      invariant encoder.buffer + EncodeValues(dictionary.State(), values[i..]).0 == header + wire
      invariant EncodeValues(dictionary.State(), values[i..]).1 == next
    {
      ghost var before, state := encoder.buffer, dictionary.State();
      EncodeFrom(state, values, i);
      EncodeField(encoder, values[i], dictionary);
      Assoc(before, EncodeValue(state, values[i]).0, EncodeValues(dictionary.State(), values[i + 1..]).0);
    }
    packet := encoder.buffer;
    assert values[|values|..] == [] && packet + [] == packet;
  }

  /** Reads one field; None for the exception the reader or the dictionary would throw. */
  method ReadField(f: FieldDef, reader: PacketReader, dictionary: AdaptiveDictionary)
    returns (ending: Ending, v: FieldValue)
    requires reader.Valid()
    modifies reader, dictionary
    ensures reader.Valid()
    ensures match DecodeField(f, old(dictionary.State()), old(reader.Rest()))
      case Truncated => ending.OutOfBytes? && dictionary.State() == old(dictionary.State())
      case Missing => ending.UnknownReference? && dictionary.State() == old(dictionary.State())
      case Read(value, used, next) =>
        ending.Complete? && v == value && dictionary.State() == next && reader.Rest() == old(reader.Rest())[used..]
  {
    hide *;
    v := Blob([]);
    ghost var d := reader.Rest();
    FieldUnfolds(f, dictionary.State(), d);
    if !f.ftype.Variable() {
      var raw := reader.ReadUnsigned(f.ftype.Size());
      if raw.None? { return OutOfBytes, v; }
      return Complete, Number(f.ftype, f.ftype.Cast(raw.value));
    }
    var size := reader.ReadWord();
    if size.None? { return OutOfBytes, v; }
    if f.ftype.String? && size.value == REFERENCE {
      var id := reader.ReadWord();
      if id.None? { return OutOfBytes, v; }
      DropTwice(d, 2, 2);
      var known := dictionary.LookupValue(id.value);
      if known.None? { return UnknownReference, v; }
      return Complete, Text(known.value);
    }
    var body := reader.ReadBytes(size.value);
    if body.None? { return OutOfBytes, v; }
    DropTwice(d, 2, Word(d));
    if f.ftype.Bytes? { return Complete, Blob(body.value); }
    LearnString(dictionary, body.value);
    return Complete, Text(body.value);
  }

  /** A string received in full is stored when the dictionary is in use. */
  method LearnString(dictionary: AdaptiveDictionary, text: Str)
    modifies dictionary
    ensures dictionary.State() == Learn(old(dictionary.State()), Text(text))
  {
    if dictionary.config.enabled && dictionary.config.strings { var _ := dictionary.CreateOrGet(text); }
  }

  /** What one field decodes to, as the reader meets its parts. */
  lemma FieldUnfolds(f: FieldDef, dict: Dict, d: seq<byte>)
    ensures !f.ftype.Variable() ==>
      DecodeField(f, dict, d) ==
        if |d| < f.ftype.Size() then Truncated
        else Read(Number(f.ftype, f.ftype.Cast(FromLE(d[..f.ftype.Size()]))), f.ftype.Size(), dict)
    ensures f.ftype.Variable() && |d| < 2 ==> DecodeField(f, dict, d) == Truncated
    ensures f.ftype.String? && |d| >= 2 && Word(d) == REFERENCE ==>
      DecodeField(f, dict, d) ==
        if |d[2..]| < 2 then Truncated
        else match dict.LookupValue(Word(d[2..])) case None => Missing case Some(t) => Read(Text(t), 4, dict)
    ensures f.ftype.Variable() && |d| >= 2 && !(f.ftype.String? && Word(d) == REFERENCE) ==>
      DecodeField(f, dict, d) ==
        if |d[2..]| < Word(d) then Truncated
        else
          var body := d[2..][..Word(d)];
          if f.ftype.Bytes? then Read(Blob(body), 2 + Word(d), dict)
          else Read(Text(body), 2 + Word(d), Learn(dict, Text(body)))
    ensures f.ftype.Bytes? ==> f.ftype.Variable() && !f.ftype.String?
    ensures f.ftype.String? ==> f.ftype.Variable()
  {
    hide FromLE, FieldType.Cast, Dict.CreateOrGet, Word;
    if f.ftype.Variable() && |d| >= 2 && |d[2..]| >= Word(d) { SliceAfterDrop(d, 2, 0, Word(d)); }
  }

  /** The decode loop shared by `receive_with_schema` and `receive_ordered`. */
  method DecodeOrdered(fields: seq<FieldDef>, reader: PacketReader, dictionary: AdaptiveDictionary)
    returns (ending: Ending, values: seq<FieldValue>)
    requires reader.Valid()
    modifies reader, dictionary
    ensures reader.Valid()
    ensures var r := DecodeValues(fields, old(dictionary.State()), old(reader.Rest()));
      && ending == r.ending && values == r.values && dictionary.State() == r.dict
      && (ending.Complete? ==> reader.Rest() == r.rest)
  {
    values := [];
    ghost var whole := DecodeValues(fields, dictionary.State(), reader.Rest());
    for i := 0 to |fields|
      invariant reader.Valid()
      invariant var rest := DecodeValues(fields[i..], dictionary.State(), reader.Rest());
        whole == rest.(values := values + rest.values)
    {
      assert fields[i..][1..] == fields[i + 1..];
      ghost var left := DecodeValues(fields[i..], dictionary.State(), reader.Rest());
      var one, v := ReadField(fields[i], reader, dictionary);
      if !one.Complete? { return one, values; }
      ghost var rest := DecodeValues(fields[i + 1..], dictionary.State(), reader.Rest());
      assert left == rest.(values := [v] + rest.values);
      assert values + ([v] + rest.values) == values + [v] + rest.values;
      values := values + [v];
    }
    return Complete, values;
  }
}
