/** The flat JSON printer and parser. A char stands for a byte of text. */
module Json {
  import opened Wire

  datatype JsonValue = Integer(n: int) | Decimal(bits: nat) | Str(text: string) | Bytes(data: seq<byte>)

  type JsonObject = map<string, JsonValue>

  /** How the runtime library reads a decimal: its bit pattern, or nothing when it throws. */
  type DecimalReader = string -> Option<nat>

  // Printing.

  function Escape(s: string): string
  {
    if s == [] then [] else (if s[0] == '"' || s[0] == '\\' then ['\\'] else []) + [s[0]] + Escape(s[1..])
  }

  function Quoted(s: string): string { "\"" + Escape(s) + "\"" }

  function DigitChar(d: nat): char
    requires d < 10
  {
    '0' + d as char
  }

  function Digits(n: nat): (s: string)
    ensures s != []
  {
    if n < 10 then [DigitChar(n)] else Digits(n / 10) + [DigitChar(n % 10)]
  }

  function IntText(n: int): string { if n < 0 then "-" + Digits(-n) else Digits(n) }

  function HexChar(d: nat): char
    requires d < 16
  {
    if d < 10 then DigitChar(d) else 'a' + (d - 10) as char
  }

  function Hex(data: seq<byte>): string
  {
    if data == [] then [] else [HexChar(data[0] / 16), HexChar(data[0] % 16)] + Hex(data[1..])
  }

  /** Decimals are not part of what is printed here. */
  function ValueText(v: JsonValue): string
    requires !v.Decimal?
  {
    match v
    case Integer(n) => IntText(n)
    case Str(text) => Quoted(text)
    case Bytes(data) => "\"0x" + Hex(data) + "\""
  }

  type Member = (string, JsonValue)

  function MembersText(members: seq<Member>): string
    requires forall i :: 0 <= i < |members| ==> !members[i].1.Decimal?
  {
    if members == [] then []
    else
      Quoted(members[0].0) + ":" + ValueText(members[0].1) + (if |members| > 1 then "," else "")
      + MembersText(members[1..])
  }

  /** The text of an object whose members come in this order. */
  function Format(members: seq<Member>): string
    requires forall i :: 0 <= i < |members| ==> !members[i].1.Decimal?
  {
    "{" + MembersText(members) + "}"
  }

  // Parsing, on the text still to be read.

  predicate Space(c: char) { c in {' ', '\t', '\n', '\U{000B}', '\U{000C}', '\r'} }

  function SkipSpace(s: string): (r: string)
    ensures |r| <= |s|
  {
    if s != [] && Space(s[0]) then SkipSpace(s[1..]) else s
  }

  /** The characters up to the closing quote, and what follows it. A backslash takes the next character as it is. */
  function Unescape(s: string): (r: Option<(string, string)>)
    ensures r.Some? ==> |r.value.1| < |s|
  {
    if s == [] then None
    else if s[0] == '"' then Some(([], s[1..]))
    else if s[0] == '\\' then if |s| < 2 then None else Then(s[1], Unescape(s[2..]))
    else Then(s[0], Unescape(s[1..]))
  }

  function Then(c: char, r: Option<(string, string)>): Option<(string, string)>
  {
    match r case None => None case Some((v, rest)) => Some(([c] + v, rest))
  }

  function ParseString(s: string): (r: Option<(string, string)>)
    ensures r.Some? ==> |r.value.1| < |s|
  {
    var t := SkipSpace(s);
    if t == [] || t[0] != '"' then None else Unescape(t[1..])
  }

  predicate EndsToken(c: char) { c == ',' || c == '}' || Space(c) }

  function Token(s: string): (t: string)
    ensures t <= s
  {
    if s == [] || EndsToken(s[0]) then [] else [s[0]] + Token(s[1..])
  }

  function HexValue(c: char): Option<nat>
  {
    if '0' <= c <= '9' then Some((c - '0') as nat)
    else if 'a' <= c <= 'f' then Some((c - 'a') as nat + 10)
    else if 'A' <= c <= 'F' then Some((c - 'A') as nat + 10)
    else None
  }

  /** Pairs of hexadecimal digits. */
  function ParseHex(s: string): Option<seq<byte>>
  {
    if s == [] then Some([])
    else if |s| < 2 || HexValue(s[0]).None? || HexValue(s[1]).None? then None
    else
      var b := HexValue(s[0]).value * 16 + HexValue(s[1]).value;
      match ParseHex(s[2..]) case None => None case Some(rest) => Some([b % 256] + rest)
  }

  predicate Digit(c: char) { '0' <= c <= '9' }

  function DigitPrefix(s: string): (p: string)
    ensures p <= s && forall i :: 0 <= i < |p| ==> Digit(p[i])
  {
    if s == [] || !Digit(s[0]) then [] else [s[0]] + DigitPrefix(s[1..])
  }

  function DigitValue(c: char): nat
    requires Digit(c)
  {
    (c - '0') as nat
  }

  function DigitsValue(s: string): nat
    requires forall i :: 0 <= i < |s| ==> Digit(s[i])
  {
    if s == [] then 0 else 10 * DigitsValue(s[..|s| - 1]) + DigitValue(s[|s| - 1])
  }

  const I64_LIMIT := 0x8000_0000_0000_0000

  /** `stoll`: a sign, then as many digits as there are; what follows them is ignored. */
  function ReadInteger(s: string): Option<int>
  {
    var negative := s != [] && s[0] == '-';
    var digits := DigitPrefix(if s != [] && (s[0] == '-' || s[0] == '+') then s[1..] else s);
    if digits == [] then None
    else
      var n := if negative then -(DigitsValue(digits) as int) else DigitsValue(digits);
      if -I64_LIMIT <= n < I64_LIMIT then Some(n) else None
  }

  predicate LooksDecimal(s: string) { exists i :: 0 <= i < |s| && s[i] in {'.', 'e', 'E'} }

  predicate HexPrefixed(s: string) { |s| >= 2 && s[0] == '0' && s[1] == 'x' }

  /** What a quoted string is taken for: bytes when it begins with 0x. */
  function Interpret(v: string): Option<JsonValue>
  {
    if HexPrefixed(v) then match ParseHex(v[2..]) case None => None case Some(data) => Some(Bytes(data))
    else Some(Str(v))
  }

  function ParseNumber(t: string, decimal: DecimalReader): Option<JsonValue>
  {
    if LooksDecimal(t) then match decimal(t) case None => None case Some(bits) => Some(Decimal(bits))
    else match ReadInteger(t) case None => None case Some(n) => Some(Integer(n))
  }

  function ParseValue(s: string, decimal: DecimalReader): (r: Option<(JsonValue, string)>)
    ensures r.Some? ==> |r.value.1| <= |s|
  {
    if s != [] && s[0] == '"' then
      match ParseString(s)
      case None => None
      case Some((v, rest)) => match Interpret(v) case None => None case Some(value) => Some((value, rest))
    else
      match ParseNumber(Token(s), decimal) case None => None case Some(value) => Some((value, s[|Token(s)|..]))
  }

  datatype Parsed = Good(value: JsonObject) | Invalid

  /** One member: its name, its value and the text from the separator on. */
  function ParseMember(s: string, decimal: DecimalReader): (r: Option<(string, JsonValue, string)>)
    ensures r.Some? ==> |r.value.2| < |s|
  {
    match ParseString(s)
    case None => None
    case Some((name, afterName)) =>
      var colon := SkipSpace(afterName);
      if colon == [] || colon[0] != ':' then None
      else
        match ParseValue(SkipSpace(colon[1..]), decimal)
        case None => None
        case Some((value, rest)) => Some((name, value, SkipSpace(rest)))
  }

  function ParseMembers(s: string, out: JsonObject, decimal: DecimalReader): Parsed
    decreases |s|
  {
    match ParseMember(s, decimal)
    case None => Invalid
    case Some((name, value, rest)) =>
      var longer := out[name := value];
      if rest != [] && rest[0] == ',' then ParseMembers(rest[1..], longer, decimal)
      else if rest != [] && rest[0] == '}' then if SkipSpace(rest[1..]) == [] then Good(longer) else Invalid
      else Invalid
  }

  /** An empty object ends the parse at once, whatever follows it. */
  function Parse(text: string, decimal: DecimalReader): Parsed
  {
    var s := SkipSpace(text);
    if s == [] || s[0] != '{' then Invalid
    else
      var inner := SkipSpace(s[1..]);
      if inner != [] && inner[0] == '}' then Good(map[]) else ParseMembers(inner, map[], decimal)
  }

  // Round trips of the parts.

  lemma UnescapeOne(c: char, tail: string)
    ensures c == '"' ==> Unescape([c] + tail) == Some(([], tail))
    ensures c != '"' && c != '\\' ==> Unescape([c] + tail) == Then(c, Unescape(tail))
    ensures Unescape(['\\', c] + tail) == Then(c, Unescape(tail))
  {
    assert ([c] + tail)[1..] == tail && (['\\', c] + tail)[2..] == tail;
  }

  lemma {:induction false} EscapeReadsBack(s: string, rest: string)
    ensures Unescape(Escape(s) + "\"" + rest) == Some((s, rest))
    decreases |s|
  {
    var close := "\"" + rest;
    hide Unescape;
    if s == [] {
      assert Escape(s) + "\"" + rest == close;
      UnescapeOne('"', rest);
    } else {
      var c, tail := s[0], Escape(s[1..]) + "\"" + rest;
      EscapeReadsBack(s[1..], rest);
      UnescapeOne(c, tail);
      EscapeFront(s, rest);
      assert s == [c] + s[1..];
    }
  }

  lemma EscapeFront(s: string, rest: string)
    requires s != []
    ensures Escape(s) + "\"" + rest
      == (if s[0] == '"' || s[0] == '\\' then ['\\', s[0]] else [s[0]]) + (Escape(s[1..]) + "\"" + rest)
  {
  }

  lemma QuotedReadsBack(s: string, rest: string)
    ensures ParseString(Quoted(s) + rest) == Some((s, rest))
    ensures (Quoted(s) + rest)[0] == '"'
  {
    EscapeReadsBack(s, rest);
    assert Quoted(s) + rest == "\"" + (Escape(s) + "\"" + rest);
    assert ("\"" + (Escape(s) + "\"" + rest))[1..] == Escape(s) + "\"" + rest;
    hide Escape, Unescape;
  }

  lemma {:induction false} PlainIsEscaped(s: string)
    requires '"' !in s && '\\' !in s
    ensures Escape(s) == s
  {
    if s != [] {
      PlainIsEscaped(s[1..]);
      assert s == [s[0]] + s[1..];
    }
  }

  lemma HexCharBack(d: nat)
    requires d < 16
    ensures HexValue(HexChar(d)) == Some(d) && HexChar(d) != '"' && HexChar(d) != '\\'
  {
  }

  lemma {:induction false} HexIsPlain(data: seq<byte>)
    ensures '"' !in Hex(data) && '\\' !in Hex(data)
  {
    if data != [] {
      HexCharBack(data[0] / 16);
      HexCharBack(data[0] % 16);
      hide HexChar;
      HexIsPlain(data[1..]);
    }
  }

  lemma PairReads(hi: nat, lo: nat, rest: string)
    requires hi < 16 && lo < 16
    ensures ParseHex([HexChar(hi), HexChar(lo)] + rest)
      == match ParseHex(rest) case None => None case Some(data) => Some([(hi * 16 + lo) % 256] + data)
  {
    HexCharBack(hi);
    HexCharBack(lo);
    hide HexChar, HexValue;
    assert ([HexChar(hi), HexChar(lo)] + rest)[2..] == rest;
  }

  lemma {:induction false} HexReadsBack(data: seq<byte>)
    ensures ParseHex(Hex(data)) == Some(data)
  {
    hide *;
    HexUnfolds(data);
    if data == [] {
      EmptyHex();
    } else {
      var b := data[0];
      Nibbles(b);
      PairReads(b / 16, b % 16, Hex(data[1..]));
      HexReadsBack(data[1..]);
      assert data == [b] + data[1..];
    }
  }

  lemma HexUnfolds(data: seq<byte>)
    ensures Hex(data)
      == if data == [] then [] else [HexChar(data[0] / 16), HexChar(data[0] % 16)] + Hex(data[1..])
  {
    hide HexChar;
  }

  lemma EmptyHex()
    ensures ParseHex([]) == Some([])
  {
  }

  lemma Nibbles(b: byte)
    ensures b / 16 < 16 && b % 16 < 16 && (b / 16 * 16 + b % 16) % 256 == b
  {
  }

  predicate AllDigits(s: string) { forall i :: 0 <= i < |s| ==> Digit(s[i]) }

  lemma {:induction false} DigitsReadBack(n: nat)
    ensures AllDigits(Digits(n)) && DigitsValue(Digits(n)) == n
  {
    if n >= 10 {
      DigitsReadBack(n / 10);
      assert Digits(n)[..|Digits(n)| - 1] == Digits(n / 10);
    } else {
      assert Digits(n)[..0] == [];
    }
  }

  lemma {:induction false} PrefixOfDigits(s: string)
    requires AllDigits(s)
    ensures DigitPrefix(s) == s
  {
    if s != [] {
      PrefixOfDigits(s[1..]);
      assert s == [s[0]] + s[1..];
    }
  }

  lemma {:induction false} TokenStops(s: string, rest: string)
    requires forall i :: 0 <= i < |s| ==> !EndsToken(s[i])
    requires rest != [] && EndsToken(rest[0])
    ensures Token(s + rest) == s
  {
    if s == [] {
      assert s + rest == rest;
    } else {
      TokenStops(s[1..], rest);
      assert (s + rest)[1..] == s[1..] + rest && s == [s[0]] + s[1..];
    }
  }

  lemma DigitIsPlain(c: char)
    requires Digit(c) || c == '-'
    ensures !EndsToken(c) && !Space(c) && c !in {'.', 'e', 'E', '"', '+'}
    ensures Digit(c) ==> c != '-'
  {
  }

  lemma SignedReadsBack(n: int, d: string)
    requires -I64_LIMIT <= n < I64_LIMIT && d != [] && AllDigits(d)
    requires DigitsValue(d) == if n < 0 then -n else n
    ensures ReadInteger(if n < 0 then "-" + d else d) == Some(n)
  {
    PrefixOfDigits(d);
    DigitIsPlain(d[0]);
    hide DigitsValue, DigitPrefix;
    assert ("-" + d)[1..] == d;
  }

  lemma IntReadsBack(n: int)
    requires -I64_LIMIT <= n < I64_LIMIT
    ensures var t := IntText(n);
      && ReadInteger(t) == Some(n) && !LooksDecimal(t) && t != [] && t[0] != '"' && !Space(t[0])
      && forall i :: 0 <= i < |t| ==> !EndsToken(t[i])
  {
    var magnitude: nat := if n < 0 then -n else n;
    DigitsReadBack(magnitude);
    SignedReadsBack(n, Digits(magnitude));
    var t := IntText(n);
    hide Digits, DigitsValue, ReadInteger, EndsToken, Space;
    forall i | 0 <= i < |t| ensures !EndsToken(t[i]) && !Space(t[i]) && t[i] !in {'.', 'e', 'E', '"', '+'} {
      DigitIsPlain(t[i]);
    }
  }

  /** The value a printed value is read back as. */
  function Reread(v: JsonValue): Option<JsonValue>
  {
    if v.Str? then Interpret(v.text) else Some(v)
  }

  predicate Printable(v: JsonValue) { !v.Decimal? && (v.Integer? ==> -I64_LIMIT <= v.n < I64_LIMIT) }

  lemma BytesReadBack(data: seq<byte>)
    ensures Quoted("0x" + Hex(data)) == "\"0x" + Hex(data) + "\""
    ensures Interpret("0x" + Hex(data)) == Some(Bytes(data))
  {
    HexReadsBack(data);
    HexIsPlain(data);
    PlainIsEscaped("0x" + Hex(data));
    assert ("0x" + Hex(data))[2..] == Hex(data);
  }

  lemma IntegerReadsBack(n: int, rest: string, decimal: DecimalReader)
    requires -I64_LIMIT <= n < I64_LIMIT && rest != [] && EndsToken(rest[0])
    ensures ParseValue(IntText(n) + rest, decimal) == Some((Integer(n), rest))
  {
    IntReadsBack(n);
    TokenStops(IntText(n), rest);
    hide IntText, ReadInteger, Token, LooksDecimal;
    var t := IntText(n);
    assert (t + rest)[0] == t[0] && (t + rest)[|t|..] == rest;
  }

  lemma ValueReadsBack(v: JsonValue, rest: string, decimal: DecimalReader)
    requires Printable(v) && rest != [] && EndsToken(rest[0])
    ensures ParseValue(ValueText(v) + rest, decimal)
      == match Reread(v) case None => None case Some(w) => Some((w, rest))
    ensures ValueText(v) != [] && !Space(ValueText(v)[0])
  {
    match v
    case Integer(n) => IntReadsBack(n); IntegerReadsBack(n, rest, decimal);
    case Str(text) => QuotedReadsBack(text, rest);
    case Bytes(data) => BytesReadBack(data); QuotedReadsBack("0x" + Hex(data), rest);
  }

  // Whole objects.

  ghost predicate AllPrintable(members: seq<Member>)
  {
    forall i :: 0 <= i < |members| ==> Printable(members[i].1)
  }

  lemma PrintableLater(members: seq<Member>)
    requires AllPrintable(members) && members != []
    ensures Printable(members[0].1) && AllPrintable(members[1..])
  {
    forall i | 0 <= i < |members[1..]| ensures Printable(members[1..][i].1) {
      assert members[1..][i] == members[i + 1];
    }
  }

  lemma NotSpace(s: string)
    requires s == [] || !Space(s[0])
    ensures SkipSpace(s) == s
  {
  }

  /** A member before a separator. */
  lemma MemberReadsBack(name: string, v: JsonValue, rest: string, decimal: DecimalReader)
    requires Printable(v) && rest != [] && (rest[0] == ',' || rest[0] == '}')
    ensures ParseMember(Quoted(name) + ":" + ValueText(v) + rest, decimal)
      == match Reread(v) case None => None case Some(w) => Some((name, w, rest))
  {
    var text := ValueText(v) + rest;
    ValueReadsBack(v, rest, decimal);
    QuotedReadsBack(name, ":" + text);
    hide ParseString, ParseValue, ValueText, SkipSpace, Interpret, Quoted, Printable, ParseMember, Space, Reread;
    Regroup(Quoted(name), ":", ValueText(v), rest);
    assert text[0] == ValueText(v)[0];
    MemberFrom(Quoted(name) + (":" + text), name, text, decimal);
    SeparatorStays(rest);
  }

  lemma SeparatorStays(rest: string)
    requires rest != [] && (rest[0] == ',' || rest[0] == '}')
    ensures SkipSpace(rest) == rest
  {
  }

  lemma MemberFrom(s: string, name: string, text: string, decimal: DecimalReader)
    requires ParseString(s) == Some((name, ":" + text)) && text != [] && !Space(text[0])
    ensures ParseMember(s, decimal)
      == match ParseValue(text, decimal) case None => None case Some((v, rest)) => Some((name, v, SkipSpace(rest)))
  {
    hide ParseString, ParseValue;
    NotSpace(":" + text);
    NotSpace(text);
    assert (":" + text)[1..] == text;
  }

  /** The members read one after the other, each as its printed value is read back. */
  function Reading(members: seq<Member>, out: JsonObject): Parsed
    decreases |members|
  {
    if members == [] then Good(out)
    else
      match Reread(members[0].1)
      case None => Invalid
      case Some(w) => Reading(members[1..], out[members[0].0 := w])
  }

  lemma MembersTextSplits(members: seq<Member>)
    requires AllPrintable(members) && members != [] && AllPrintable(members[1..])
    ensures MembersText(members) + "}"
      == Quoted(members[0].0) + ":" + ValueText(members[0].1)
         + (if |members| > 1 then "," + (MembersText(members[1..]) + "}") else "}")
  {
    var front, separator := Quoted(members[0].0) + ":" + ValueText(members[0].1), if |members| > 1 then "," else "";
    var later := MembersText(members[1..]);
    assert MembersText(members) == front + separator + later;
    assert |members| == 1 ==> later == [];
    hide *;
    Regroup(front, separator, later, "}");
    if |members| == 1 { NothingBefore("}"); }
  }

  lemma Regroup(a: string, b: string, c: string, d: string)
    ensures a + b + c + d == a + (b + (c + d))
  {
  }

  lemma NothingBefore(s: string)
    ensures "" + ([] + s) == s
  {
  }

  lemma {:induction false} MembersReadBack(members: seq<Member>, out: JsonObject, decimal: DecimalReader)
    requires AllPrintable(members) && members != []
    ensures ParseMembers(MembersText(members) + "}", out, decimal) == Reading(members, out)
    decreases |members|
  {
    var (name, v) := members[0];
    PrintableLater(members);
    MembersTextSplits(members);
    if |members| == 1 {
      LastMember(name, v, out, decimal);
    } else {
      NextMember(name, v, MembersText(members[1..]) + "}", out, decimal);
      hide ParseMembers, MembersText, Reread, AllPrintable;
      if Reread(v).Some? { MembersReadBack(members[1..], out[name := Reread(v).value], decimal); }
    }
  }

  lemma LastMember(name: string, v: JsonValue, out: JsonObject, decimal: DecimalReader)
    requires Printable(v)
    ensures ParseMembers(Quoted(name) + ":" + ValueText(v) + "}", out, decimal) == Reading([(name, v)], out)
  {
    MemberReadsBack(name, v, "}", decimal);
    hide ParseMember, Quoted, ValueText, Reread;
    var close := "}";
    assert close[1..] == [] && SkipSpace([]) == [];
    assert [(name, v)][1..] == [];
  }

  lemma NextMember(name: string, v: JsonValue, later: string, out: JsonObject, decimal: DecimalReader)
    requires Printable(v)
    ensures ParseMembers(Quoted(name) + ":" + ValueText(v) + ("," + later), out, decimal)
      == match Reread(v) case None => Invalid case Some(w) => ParseMembers(later, out[name := w], decimal)
  {
    MemberReadsBack(name, v, "," + later, decimal);
    hide ParseMember, Quoted, ValueText, Reread;
    assert ("," + later)[1..] == later;
  }

  function ObjectOf(members: seq<Member>): JsonObject
  {
    if members == [] then map[]
    else ObjectOf(members[..|members| - 1])[members[|members| - 1].0 := members[|members| - 1].1]
  }

  predicate DistinctNames(members: seq<Member>)
  {
    forall i, j :: 0 <= i < j < |members| ==> members[i].0 != members[j].0
  }

  /** Parsing the printed text is reading the members. */
  lemma FormatReads(members: seq<Member>, decimal: DecimalReader)
    requires AllPrintable(members)
    ensures Parse(Format(members), decimal) == Reading(members, map[])
  {
    var text, inner := Format(members), MembersText(members) + "}";
    assert text == "{" + inner && text[1..] == inner;
    NotSpace(text);
    if members == [] {
      assert inner == "}";
      NotSpace(inner);
    } else {
      PrintableLater(members);
      MembersReadBack(members, map[], decimal);
      StartsQuoted(members);
      NotSpace(inner);
      hide ParseMembers, MembersText, Reading, AllPrintable;
    }
  }

  lemma StartsQuoted(members: seq<Member>)
    requires AllPrintable(members) && members != []
    ensures (MembersText(members) + "}")[0] == '"'
  {
    PrintableLater(members);
    MembersTextSplits(members);
    hide ValueText, Escape;
    assert Quoted(members[0].0)[0] == '"';
  }

  /** The string would be taken for bytes. */
  predicate Mistaken(v: JsonValue) { v.Str? && HexPrefixed(v.text) }

  lemma MistakenReread(v: JsonValue)
    ensures Reread(v) == Some(v) <==> !Mistaken(v)
    ensures Reread(v) != Some(v) ==> Reread(v).None? || Reread(v).value.Bytes?
  {
  }

  /** What reading makes of every name, and of those it does not mention. */
  lemma {:induction false} ReadingAt(members: seq<Member>, out: JsonObject, name: string)
    requires DistinctNames(members) && Reading(members, out).Good?
    ensures var o := Reading(members, out).value;
      && ((forall i :: 0 <= i < |members| ==> members[i].0 != name) ==>
            (name in o <==> name in out) && (name in out ==> o[name] == out[name]))
      && (forall i :: 0 <= i < |members| && members[i].0 == name ==> name in o && Some(o[name]) == Reread(members[i].1))
    decreases |members|
  {
    if members != [] {
      var next := out[members[0].0 := Reread(members[0].1).value];
      hide Reread;
      ReadingAt(members[1..], next, name);
      forall i | 0 <= i < |members| && members[i].0 == name
        ensures name in Reading(members, out).value && Some(Reading(members, out).value[name]) == Reread(members[i].1)
      {
        if i > 0 { assert members[1..][i - 1] == members[i]; }
      }
    }
  }

  lemma {:induction false} ObjectAt(members: seq<Member>, i: nat)
    requires DistinctNames(members) && i < |members|
    ensures members[i].0 in ObjectOf(members) && ObjectOf(members)[members[i].0] == members[i].1
    decreases |members|
  {
    var last := |members| - 1;
    if i < last { ObjectAt(members[..last], i); }
  }

  lemma {:induction false} ObjectNames(members: seq<Member>, name: string)
    ensures name in ObjectOf(members) <==> exists i :: 0 <= i < |members| && members[i].0 == name
    decreases |members|
  {
    if members != [] {
      var last := |members| - 1;
      ObjectNames(members[..last], name);
      if i :| 0 <= i < |members| && members[i].0 == name {
        if i < last { assert members[..last][i].0 == name; }
      }
    }
  }

  lemma {:induction false} NoneMistaken(members: seq<Member>, out: JsonObject)
    requires forall i :: 0 <= i < |members| ==> !Mistaken(members[i].1)
    ensures Reading(members, out).Good?
    decreases |members|
  {
    if members != [] {
      MistakenReread(members[0].1);
      hide Reread, Mistaken;
      NoneMistaken(members[1..], out[members[0].0 := members[0].1]);
    }
  }

  /** Without a mistaken string the members are read as they are. */
  lemma ReadingIsObject(members: seq<Member>)
    requires DistinctNames(members) && forall i :: 0 <= i < |members| ==> !Mistaken(members[i].1)
    ensures Reading(members, map[]) == Good(ObjectOf(members))
  {
    NoneMistaken(members, map[]);
    var o, p := Reading(members, map[]).value, ObjectOf(members);
    forall name ensures (name in o <==> name in p) && (name in o ==> o[name] == p[name]) {
      ReadingAt(members, map[], name);
      ObjectNames(members, name);
      if i :| 0 <= i < |members| && members[i].0 == name {
        ObjectAt(members, i);
        MistakenReread(members[i].1);
      }
    }
  }

  lemma MistakenIsLost(members: seq<Member>, i: nat)
    requires DistinctNames(members) && i < |members| && Mistaken(members[i].1)
    ensures Reading(members, map[]) != Good(ObjectOf(members))
  {
    MistakenReread(members[i].1);
    ObjectAt(members, i);
    if Reading(members, map[]).Good? { ReadingAt(members, map[], members[i].0); }
  }

  /**
   * Printing an object, its members in any order, and parsing the text gives the object back if and only if none of
   * its strings begins with 0x: those are taken for bytes.
   */
  lemma TextRoundTrip(members: seq<Member>, decimal: DecimalReader)
    requires AllPrintable(members) && DistinctNames(members)
    ensures Parse(Format(members), decimal) == Good(ObjectOf(members))
      <==> forall i :: 0 <= i < |members| ==> !Mistaken(members[i].1)
  {
    FormatReads(members, decimal);
    hide Parse, Format, Reading, ObjectOf, Mistaken, AllPrintable;
    if forall i :: 0 <= i < |members| ==> !Mistaken(members[i].1) {
      ReadingIsObject(members);
    } else {
      var i :| 0 <= i < |members| && Mistaken(members[i].1);
      MistakenIsLost(members, i);
    }
  }
}
