/** The JSON printer and parser as loops over a text and an index, proved to compute the functions of Json. */
module JsonText {
  import opened Wire
  import opened Json

  // Printing.

  method EscapeText(s: string) returns (out: string)
    ensures out == Escape(s)
  {
    out := [];
    for i := 0 to |s|
      invariant out + Escape(s[i..]) == Escape(s)
    {
      EscapeStep(s, i, out);
      hide Escape;
      if s[i] == '"' || s[i] == '\\' { out := out + ['\\']; }
      out := out + [s[i]];
    }
    assert out + [] == out;
  }

  lemma EscapeStep(s: string, i: nat, out: string)
    requires i < |s|
    ensures out + Escape(s[i..])
      == (if s[i] == '"' || s[i] == '\\' then out + ['\\'] else out) + [s[i]] + Escape(s[i + 1..])
  {
    assert s[i..][1..] == s[i + 1..];
  }

  method HexText(data: seq<byte>) returns (out: string)
    ensures out == Hex(data)
  {
    hide HexChar;
    out := [];
    for i := 0 to |data|
      invariant out + Hex(data[i..]) == Hex(data)
    {
      assert data[i..][1..] == data[i + 1..];
      out := out + [HexChar(data[i] / 16), HexChar(data[i] % 16)];
    }
    assert out + [] == out;
  }

  method FormatValue(v: JsonValue) returns (out: string)
    requires !v.Decimal?
    ensures out == ValueText(v)
  {
    match v
    case Integer(n) => return IntText(n);
    case Str(text) =>
      out := QuoteText(text);
    case Bytes(data) =>
      var hex := HexText(data);
      return "\"0x" + hex + "\"";
  }

  ghost predicate Lists(o: JsonObject, members: seq<Member>, unseen: set<string>)
  {
    && DistinctNames(members) && unseen <= o.Keys
    && (forall i :: 0 <= i < |members| ==>
          members[i].0 in o && members[i].0 !in unseen && o[members[i].0] == members[i].1)
    && (forall name :: name in o && name !in unseen ==> exists i :: 0 <= i < |members| && members[i].0 == name)
  }

  lemma ListsNext(o: JsonObject, members: seq<Member>, unseen: set<string>, name: string)
    requires Lists(o, members, unseen) && name in unseen
    ensures Lists(o, members + [(name, o[name])], unseen - {name})
  {
    var longer := members + [(name, o[name])];
    forall other | other in o && other !in unseen - {name}
      ensures exists i :: 0 <= i < |longer| && longer[i].0 == other
    {
      if other == name {
        assert longer[|members|].0 == name;
      } else {
        var i :| 0 <= i < |members| && members[i].0 == other;
        assert longer[i].0 == other;
      }
    }
  }

  lemma ListsAll(o: JsonObject, members: seq<Member>)
    requires Lists(o, members, {})
    ensures ObjectOf(members) == o
  {
    forall name ensures name in ObjectOf(members) <==> name in o {
      ObjectNames(members, name);
    }
    forall name | name in o ensures ObjectOf(members)[name] == o[name] {
      var i :| 0 <= i < |members| && members[i].0 == name;
      ObjectAt(members, i);
    }
  }

  lemma {:induction false} TextSnoc(members: seq<Member>, m: Member)
    requires !m.1.Decimal? && forall i :: 0 <= i < |members| ==> !members[i].1.Decimal?
    ensures MembersText(members + [m])
      == MembersText(members) + (if |members| > 0 then "," else "") + Quoted(m.0) + ":" + ValueText(m.1)
    decreases |members|
  {
    hide Quoted, ValueText;
    if members == [] {
      assert members + [m] == [m] && [m][1..] == [];
    } else {
      TextSnoc(members[1..], m);
      assert (members + [m])[1..] == members[1..] + [m] && (members + [m])[0] == members[0];
      var front := Quoted(members[0].0) + ":" + ValueText(members[0].1);
      var later, tail := MembersText(members[1..]), Quoted(m.0) + ":" + ValueText(m.1);
      assert MembersText(members + [m]) == front + "," + MembersText(members[1..] + [m]);
      assert MembersText(members) == front + (if |members| > 1 then "," else "") + later;
      hide MembersText;
      Spliced(front, later, Quoted(m.0), ValueText(m.1), |members| > 1);
      if |members| == 1 { assert later == [] by { NoMembers(members[1..]); } }
    }
  }

  lemma NoMembers(members: seq<Member>)
    requires members == []
    ensures MembersText(members) == []
  {
  }

  lemma Spliced(front: string, later: string, q: string, v: string, more: bool)
    ensures more ==> front + "," + (later + "," + q + ":" + v) == front + "," + later + "," + q + ":" + v
    ensures !more && later == [] ==> front + "," + (later + "" + q + ":" + v) == front + "" + later + "," + q + ":" + v
  {
  }

  /** The text lists the members of the object in some order. */
  ghost predicate Prints(o: JsonObject, text: string)
  {
    exists members: seq<Member> :: Listed(o, members) && text == Format(members)
  }

  ghost predicate Listed(o: JsonObject, members: seq<Member>)
  {
    && DistinctNames(members) && ObjectOf(members) == o
    && forall i :: 0 <= i < |members| ==> !members[i].1.Decimal?
  }

  /** Whatever order the printer took, the text parses to the object if and only if no string begins with 0x. */
  lemma PrintedRoundTrip(o: JsonObject, text: string, decimal: DecimalReader)
    requires Prints(o, text) && forall name :: name in o ==> Printable(o[name])
    ensures Parse(text, decimal) == Good(o) <==> forall name :: name in o ==> !Mistaken(o[name])
  {
    var members: seq<Member> :| Listed(o, members) && text == Format(members);
    forall i | 0 <= i < |members| ensures members[i].0 in o && o[members[i].0] == members[i].1 { ObjectAt(members, i); }
    forall name | name in o ensures exists i :: 0 <= i < |members| && members[i].0 == name {
      ObjectNames(members, name);
    }
    hide Parse, Format, Mistaken, Printable;
    TextRoundTrip(members, decimal);
    if !(forall name :: name in o ==> !Mistaken(o[name])) {
      var name :| name in o && Mistaken(o[name]);
      var i :| 0 <= i < |members| && members[i].0 == name;
      assert Mistaken(members[i].1);
    }
  }

  /** The printer goes through the map in whatever order it finds. */
  method FormatJsonObject(o: JsonObject) returns (out: string)
    requires forall name :: name in o ==> !o[name].Decimal?
    ensures Prints(o, out)
  {
    out := "{";
    ghost var members: seq<Member> := [];
    var unseen, i := o.Keys, 0;
    while unseen != {}
      invariant Lists(o, members, unseen) && i == |members|
      invariant forall k :: 0 <= k < |members| ==> !members[k].1.Decimal?
      invariant out == "{" + MembersText(members)
      decreases unseen
    {
      var name :| name in unseen;
      TextSnoc(members, (name, o[name]));
      ListsNext(o, members, unseen, name);
      hide *;
      AfterBrace(MembersText(members), if i > 0 then "," else "", Quoted(name), ValueText(o[name]));
      if i > 0 { out := out + ","; }
      var quoted := QuoteText(name);
      var value := FormatValue(o[name]);
      out := out + quoted + ":" + value;
      members := members + [(name, o[name])];
      unseen := unseen - {name};
      i := i + 1;
    }
    ListsAll(o, members);
    out := out + "}";
    assert Listed(o, members) && out == Format(members);
  }

  method QuoteText(s: string) returns (out: string)
    ensures out == Quoted(s)
  {
    var escaped := EscapeText(s);
    return "\"" + escaped + "\"";
  }

  lemma AfterBrace(done: string, separator: string, name: string, value: string)
    ensures "{" + done + separator + name + ":" + value == "{" + (done + separator + name + ":" + value)
    ensures "{" + done + "" == "{" + done
  {
  }

  // Parsing.

  method SkipFrom(text: string, start: nat) returns (p: nat)
    requires start <= |text|
    ensures start <= p <= |text| && text[p..] == SkipSpace(text[start..])
  {
    p := start;
    while p < |text| && Space(text[p])
      invariant start <= p <= |text| && SkipSpace(text[p..]) == SkipSpace(text[start..])
    {
      assert text[p..][1..] == text[p + 1..];
      p := p + 1;
    }
  }

  /** The quoted string at the index, and the index after it. */
  method StringFrom(text: string, start: nat) returns (v: Option<string>, p: nat)
    requires start <= |text|
    ensures match ParseString(text[start..])
      case None => v == None
      case Some((s, rest)) => v == Some(s) && start <= p <= |text| && text[p..] == rest
  {
    hide *;
    p := SkipFrom(text, start);
    StringStarts(text, start, p);
    if p >= |text| || text[p] != '"' { return None, p; }
    p := p + 1;
    var got: string := [];
    ghost var whole := Onto(got, Unescape(text[p..]));
    while p < |text| && text[p] != '"'
      invariant start <= p <= |text| && whole == Onto(got, Unescape(text[p..]))
    {
      UnescapeStep(text, p, got);
      if text[p] == '\\' {
        p := p + 1;
        if p >= |text| { return None, p; }
      }
      got := got + [text[p]];
      p := p + 1;
    }
    StringEnds(text, p, got);
    if p >= |text| { return None, p; }
    return Some(got), p + 1;
  }

  lemma StringStarts(text: string, start: nat, p: nat)
    requires start <= p <= |text| && text[p..] == SkipSpace(text[start..])
    ensures ParseString(text[start..])
      == if p >= |text| || text[p] != '"' then None else Onto([], Unescape(text[p + 1..]))
  {
    hide SkipSpace, Unescape;
    if p < |text| {
      assert text[p..][1..] == text[p + 1..];
      var whole := Unescape(text[p + 1..]);
      if whole.Some? { assert [] + whole.value.0 == whole.value.0; }
    }
  }

  lemma StringEnds(text: string, p: nat, got: string)
    requires p <= |text| && (p == |text| || text[p] == '"')
    ensures Onto(got, Unescape(text[p..])) == if p == |text| then None else Some((got, text[p + 1..]))
  {
    if p < |text| { assert text[p..][1..] == text[p + 1..] && got + [] == got; }
  }

  function Onto(done: string, r: Option<(string, string)>): Option<(string, string)>
  {
    match r case None => None case Some((v, rest)) => Some((done + v, rest))
  }

  lemma UnescapeStep(text: string, p: nat, got: string)
    requires p < |text| && text[p] != '"'
    ensures var whole := Onto(got, Unescape(text[p..]));
      if text[p] == '\\' then
        if p + 1 >= |text| then whole == None else whole == Onto(got + [text[p + 1]], Unescape(text[p + 2..]))
      else whole == Onto(got + [text[p]], Unescape(text[p + 1..]))
  {
    var s := text[p..];
    assert s[1..] == text[p + 1..];
    if text[p] == '\\' {
      if p + 1 < |text| {
        assert s[2..] == text[p + 2..];
        OntoThen(got, text[p + 1], Unescape(text[p + 2..]));
      }
    } else {
      OntoThen(got, text[p], Unescape(text[p + 1..]));
    }
  }

  lemma OntoThen(got: string, c: char, r: Option<(string, string)>)
    ensures Onto(got, Then(c, r)) == Onto(got + [c], r)
  {
    if r.Some? { assert got + ([c] + r.value.0) == got + [c] + r.value.0; }
  }

  /** What has been passed over is the beginning of the token. */
  ghost predicate TokenLeft(text: string, start: nat, p: nat)
    requires start <= p <= |text|
  {
    text[start..p] + Token(text[p..]) == Token(text[start..])
  }

  method TokenFrom(text: string, start: nat) returns (t: string, p: nat)
    requires start <= |text|
    ensures t == Token(text[start..]) && p == start + |t| <= |text|
  {
    hide *;
    p := start;
    TokenStart(text, start);
    while p < |text| && !EndsToken(text[p])
      invariant start <= p <= |text| && TokenLeft(text, start, p)
    {
      TokenStep(text, start, p);
      p := p + 1;
    }
    TokenEnds(text, start, p);
    t := text[start..p];
  }

  lemma TokenStart(text: string, start: nat)
    requires start <= |text|
    ensures TokenLeft(text, start, start)
  {
    assert text[start..start] == [];
  }

  lemma TokenEnds(text: string, start: nat, p: nat)
    requires start <= p <= |text| && TokenLeft(text, start, p) && (p == |text| || EndsToken(text[p]))
    ensures text[start..p] == Token(text[start..])
  {
    assert Token(text[p..]) == [];
  }

  lemma TokenStep(text: string, start: nat, p: nat)
    requires start <= p < |text| && !EndsToken(text[p]) && TokenLeft(text, start, p)
    ensures TokenLeft(text, start, p + 1)
  {
    TokenFront(text, p);
    hide Token, EndsToken;
    NextTaken(text, start, p);
    Regroups(text[start..p], text[p], Token(text[p + 1..]));
  }

  lemma NextTaken(text: string, start: nat, p: nat)
    requires start <= p < |text|
    ensures text[start..p + 1] == text[start..p] + [text[p]]
  {
  }

  lemma Regroups(done: string, c: char, rest: string)
    ensures done + ([c] + rest) == done + [c] + rest
  {
  }

  lemma TokenFront(text: string, p: nat)
    requires p < |text| && !EndsToken(text[p])
    ensures Token(text[p..]) == [text[p]] + Token(text[p + 1..])
  {
    hide EndsToken;
    assert text[p..][1..] == text[p + 1..];
  }

  /** One member: a quoted name, a colon, a value. */
  method MemberFrom(text: string, start: nat, decimal: DecimalReader)
    returns (m: Option<(string, JsonValue)>, p: nat)
    requires start <= |text|
    ensures match ParseMember(text[start..], decimal)
      case None => m == None
      case Some((name, value, rest)) => m == Some((name, value)) && start < p <= |text| && text[p..] == rest
  {
    hide ParseString, SkipSpace, Interpret, ParseNumber, Token;
    var name;
    name, p := StringFrom(text, start);
    if name.None? { return None, p; }
    p := SkipFrom(text, p);
    if p >= |text| || text[p] != ':' { return None, p; }
    assert text[p..][1..] == text[p + 1..];
    p := SkipFrom(text, p + 1);
    var value: Option<JsonValue>;
    if p < |text| && text[p] == '"' {
      var v;
      v, p := StringFrom(text, p);
      if v.None? { return None, p; }
      value := Interpret(v.value);
    } else {
      var t, next := TokenFrom(text, p);
      value := ParseNumber(t, decimal);
      assert text[p..][|t|..] == text[next..];
      p := next;
    }
    if value.None? { return None, p; }
    p := SkipFrom(text, p);
    return Some((name.value, value.value)), p;
  }

  method ParseJsonObject(text: string, decimal: DecimalReader) returns (r: Parsed)
    ensures r == Parse(text, decimal)
  {
    hide ParseMember;
    assert text[0..] == text;
    var p := SkipFrom(text, 0);
    if p >= |text| || text[p] != '{' { return Invalid; }
    assert text[p..][1..] == text[p + 1..];
    p := SkipFrom(text, p + 1);
    if p < |text| && text[p] == '}' { return Good(map[]); }
    var out: JsonObject := map[];
    while true
      invariant p <= |text| && ParseMembers(text[p..], out, decimal) == Parse(text, decimal)
      decreases |text| - p
    {
      hide Parse, SkipSpace;
      var m, next := MemberFrom(text, p, decimal);
      if m.None? { return Invalid; }
      out := out[m.value.0 := m.value.1];
      if next < |text| && text[next] == ',' {
        assert text[next..][1..] == text[next + 1..];
        p := next + 1;
        continue;
      }
      if next < |text| && text[next] == '}' {
        assert text[next..][1..] == text[next + 1..];
        var end := SkipFrom(text, next + 1);
        return if end == |text| then Good(out) else Invalid;
      }
      return Invalid;
    }
  }
}
