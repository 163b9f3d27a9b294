/** Exactly which texts the parser accepts, and as what: a grammar with its meaning, and both directions. */
module JsonGrammar {
  import opened Wire
  import opened Json

  // The grammar.

  predicate AllSpace(s: string) { forall i :: 0 <= i < |s| ==> Space(s[i]) }

  /** The characters between tokens that are passed over. */
  lemma SpaceCodes(c: char)
    ensures Space(c) <==> c as int in {9, 10, 11, 12, 13, 32}
  {
  }

  /** One character of a quoted string, as it stands or behind a backslash. */
  datatype Glyph = Plain(c: char) | Escaped(c: char) {
    predicate Proper() { Plain? ==> c != '"' && c != '\\' }

    function Text(): string { if Plain? then [c] else ['\\', c] }
  }

  predicate AllProper(gs: seq<Glyph>) { forall i :: 0 <= i < |gs| ==> gs[i].Proper() }

  function Spell(gs: seq<Glyph>): string { if gs == [] then "" else gs[0].Text() + Spell(gs[1..]) }

  function Said(gs: seq<Glyph>): string { if gs == [] then "" else [gs[0].c] + Said(gs[1..]) }

  function InQuotes(gs: seq<Glyph>): string { "\"" + Spell(gs) + "\"" }

  datatype Written = Text(glyphs: seq<Glyph>) | Bare(token: string) {
    predicate Proper()
    {
      match this
      case Text(gs) => AllProper(gs)
      case Bare(t) => t != "" && t[0] != '"' && forall i :: 0 <= i < |t| ==> !EndsToken(t[i])
    }

    function Shown(): string { match this case Text(gs) => InQuotes(gs) case Bare(t) => t }

    function Meaning(decimal: DecimalReader): Option<JsonValue>
    {
      match this case Text(gs) => Interpret(Said(gs)) case Bare(t) => ParseNumber(t, decimal)
    }
  }

  /** A member, with whitespace in all four places where it may be. */
  datatype Entry = Entry(lead: string, name: seq<Glyph>, before: string, after: string, value: Written, trail: string) {
    predicate Proper()
    {
      AllSpace(lead) && AllProper(name) && AllSpace(before) && AllSpace(after) && value.Proper() && AllSpace(trail)
    }

    function Text(): string { lead + InQuotes(name) + before + ":" + after + value.Shown() + trail }
  }

  predicate AllEntries(es: seq<Entry>) { forall i :: 0 <= i < |es| ==> es[i].Proper() }

  /** The members, commas between them, and the closing brace. */
  function EntriesText(es: seq<Entry>): string
    requires es != []
  {
    if |es| == 1 then es[0].Text() + "}" else es[0].Text() + "," + EntriesText(es[1..])
  }

  /** A later member of the same name replaces an earlier one. */
  function EntriesMeaning(es: seq<Entry>, out: JsonObject, decimal: DecimalReader): Option<JsonObject>
    decreases |es|
  {
    if es == [] then Some(out)
    else
      match es[0].value.Meaning(decimal)
      case None => None
      case Some(v) => EntriesMeaning(es[1..], out[Said(es[0].name) := v], decimal)
  }

  /** After an object without members anything may follow; after one with members only whitespace. */
  datatype Document = Nothing(lead: string, inner: string, rest: string)
    | Object(lead: string, entries: seq<Entry>, tail: string)
  {
    predicate Proper()
    {
      AllSpace(lead) &&
      match this
      case Nothing(_, inner, _) => AllSpace(inner)
      case Object(_, entries, tail) => entries != [] && AllEntries(entries) && AllSpace(tail)
    }

    function Text(): string
      requires Proper()
    {
      match this
      case Nothing(lead, inner, rest) => lead + ("{" + (inner + ("}" + rest)))
      case Object(lead, entries, tail) => lead + ("{" + (EntriesText(entries) + tail))
    }

    function Meaning(decimal: DecimalReader): Option<JsonObject>
    {
      match this
      case Nothing(_, _, _) => Some(map[])
      case Object(_, entries, _) => EntriesMeaning(entries, map[], decimal)
    }
  }

  // The parts of the meaning.

  /** A bare token ends before a comma, a brace or a space. */
  lemma TokenEnd(c: char)
    ensures EndsToken(c) <==> c as int in {9, 10, 11, 12, 13, 32, 44, 125}
  {
  }

  /** A point or an exponent mark makes a bare token a decimal; any other is an integer. */
  lemma TokenKinds(t: string, decimal: DecimalReader)
    ensures ParseNumber(t, decimal)
      == if exists i :: 0 <= i < |t| && t[i] as int in {46, 69, 101}
         then match decimal(t) case None => None case Some(bits) => Some(Decimal(bits))
         else match ReadInteger(t) case None => None case Some(n) => Some(Integer(n))
  {
    hide ReadInteger;
    if i :| 0 <= i < |t| && t[i] as int in {46, 69, 101} { assert t[i] in {'.', 'e', 'E'}; }
    if i :| 0 <= i < |t| && t[i] in {'.', 'e', 'E'} { assert t[i] as int in {46, 69, 101}; }
  }

  /** A byte written as two hexadecimal digits, the high one first. */
  predicate HexByte(hi: char, lo: char, b: byte)
  {
    HexValue(hi).Some? && HexValue(lo).Some? && b as int == 16 * HexValue(hi).value + HexValue(lo).value
  }

  /** A quoted string that begins with 0x means its bytes, which must be whole pairs of hexadecimal digits. */
  lemma {:induction false} HexPairs(s: string, data: seq<byte>)
    ensures ParseHex(s) == Some(data)
      <==> |s| == 2 * |data| && forall i :: 0 <= i < |data| ==> HexByte(s[2 * i], s[2 * i + 1], data[i])
    decreases |s|
  {
    if |s| >= 2 && HexValue(s[0]).Some? && HexValue(s[1]).Some? {
      var b: nat := HexValue(s[0]).value * 16 + HexValue(s[1]).value;
      HexSmall(s[0]);
      HexSmall(s[1]);
      hide HexValue;
      if data != [] {
        HexPairs(s[2..], data[1..]);
        if |s| == 2 * |data| { PairsShift(s, data); }
        assert data == [data[0]] + data[1..];
      }
    } else if |s| == 2 * |data| && data != [] {
      hide HexValue;
      assert !HexByte(s[2 * 0], s[2 * 0 + 1], data[0]);
    }
  }

  lemma HexSmall(c: char)
    ensures HexValue(c).Some? ==> HexValue(c).value < 16
  {
  }

  lemma PairsShift(s: string, data: seq<byte>)
    requires |s| == 2 * |data| && data != []
    ensures (forall i :: 0 <= i < |data| ==> HexByte(s[2 * i], s[2 * i + 1], data[i]))
      <==> HexByte(s[0], s[1], data[0])
           && forall i :: 0 <= i < |data[1..]| ==> HexByte(s[2..][2 * i], s[2..][2 * i + 1], data[1..][i])
  {
    hide HexByte;
    forall i | 0 <= i < |data[1..]|
      ensures s[2..][2 * i] == s[2 * (i + 1)] && s[2..][2 * i + 1] == s[2 * (i + 1) + 1] && data[1..][i] == data[i + 1]
    {
    }
    if HexByte(s[0], s[1], data[0])
       && forall i :: 0 <= i < |data[1..]| ==> HexByte(s[2..][2 * i], s[2..][2 * i + 1], data[1..][i])
    {
      forall i | 0 <= i < |data| ensures HexByte(s[2 * i], s[2 * i + 1], data[i]) {
        if i > 0 { assert HexByte(s[2..][2 * (i - 1)], s[2..][2 * (i - 1) + 1], data[1..][i - 1]); }
      }
    }
    if forall i :: 0 <= i < |data| ==> HexByte(s[2 * i], s[2 * i + 1], data[i]) {
      assert HexByte(s[2 * 0], s[2 * 0 + 1], data[0]);
    }
  }

  // From the grammar to the parser.

  lemma {:induction false} SkipOver(ws: string, s: string)
    requires AllSpace(ws) && (s == [] || !Space(s[0]))
    ensures SkipSpace(ws + s) == s
    decreases |ws|
  {
    hide Space;
    if ws == [] {
      assert ws + s == s;
    } else {
      SkipOver(ws[1..], s);
      assert (ws + s)[0] == ws[0] && (ws + s)[1..] == ws[1..] + s;
    }
  }

  lemma GlyphReads(g: Glyph, tail: string)
    requires g.Proper()
    ensures Unescape(g.Text() + tail) == Then(g.c, Unescape(tail))
  {
    UnescapeOne(g.c, tail);
  }

  lemma {:induction false} SpelledReads(gs: seq<Glyph>, rest: string)
    requires AllProper(gs)
    ensures Unescape(Spell(gs) + ("\"" + rest)) == Some((Said(gs), rest))
    decreases |gs|
  {
    var close := "\"" + rest;
    hide Unescape, Glyph.Text, Glyph.Proper;
    if gs == [] {
      assert Spell(gs) + close == close;
      UnescapeOne('"', rest);
    } else {
      SpelledReads(gs[1..], rest);
      GlyphReads(gs[0], Spell(gs[1..]) + close);
      Reassociate(gs[0].Text(), Spell(gs[1..]), close);
    }
  }

  lemma Reassociate(a: string, b: string, c: string)
    ensures (a + b) + c == a + (b + c)
  {
  }

  lemma QuotedFront(gs: seq<Glyph>, rest: string)
    ensures InQuotes(gs) + rest == ['"'] + (Spell(gs) + ("\"" + rest))
  {
    hide Spell;
  }

  lemma QuoteReads(lead: string, gs: seq<Glyph>, rest: string)
    requires AllSpace(lead) && AllProper(gs)
    ensures ParseString(lead + (InQuotes(gs) + rest)) == Some((Said(gs), rest))
  {
    var quoted, inner := InQuotes(gs) + rest, Spell(gs) + ("\"" + rest);
    SpelledReads(gs, rest);
    QuotedFront(gs, rest);
    hide Spell, InQuotes, Said, Unescape, AllProper;
    assert quoted[0] == '"' && quoted[1..] == inner;
    SkipOver(lead, quoted);
    hide SkipSpace, AllSpace;
  }

  lemma ColonStays(s: string)
    ensures SkipSpace(":" + s) == ":" + s
  {
  }

  lemma EndsNothing(rest: string)
    requires rest != [] && EndsToken(rest[0])
    ensures rest[0] != '"'
  {
  }

  lemma WrittenReads(w: Written, rest: string, decimal: DecimalReader)
    requires w.Proper() && rest != [] && EndsToken(rest[0])
    ensures ParseValue(w.Shown() + rest, decimal)
      == match w.Meaning(decimal) case None => None case Some(v) => Some((v, rest))
  {
    match w
    case Text(gs) =>
      QuoteReads("", gs, rest);
      QuotedFront(gs, rest);
      hide ParseString, Interpret, Spell, Said, InQuotes;
      assert "" + (InQuotes(gs) + rest) == w.Shown() + rest;
    case Bare(t) =>
      TokenStops(t, rest);
      hide Token, ParseNumber, EndsToken;
      assert (t + rest)[|t|..] == rest && (t + rest)[0] == t[0];
  }

  lemma ShownFirst(w: Written, rest: string)
    requires w.Proper()
    ensures w.Shown() + rest != [] && !Space((w.Shown() + rest)[0])
  {
    if w.Text? { QuotedFront(w.glyphs, rest); }
    hide InQuotes;
  }

  lemma EntryRegroups(e: Entry, rest: string)
    ensures e.Text() + rest
      == e.lead + (InQuotes(e.name) + (e.before + (":" + (e.after + (e.value.Shown() + (e.trail + rest))))))
  {
    hide InQuotes, Written.Shown;
  }

  predicate Separates(rest: string) { rest != [] && (rest[0] == ',' || rest[0] == '}') }

  lemma EntryReads(e: Entry, rest: string, decimal: DecimalReader)
    requires e.Proper() && Separates(rest)
    ensures ParseMember(e.Text() + rest, decimal)
      == match e.value.Meaning(decimal) case None => None case Some(v) => Some((Said(e.name), v, rest))
  {
    var ending := e.trail + rest;
    var text := e.value.Shown() + ending;
    EntryRegroups(e, rest);
    TrailEnds(e.trail, rest);
    ShownFirst(e.value, ending);
    hide InQuotes, Said, Written.Shown, Written.Proper, Written.Meaning, ParseValue, ParseString, Entry.Text, Space;
    WrittenReads(e.value, ending, decimal);
    SkipOver(e.after, text);
    NameThenColon(e, text);
    hide SkipSpace, AllSpace, AllProper, EndsToken;
    var colon := ":" + (e.after + text);
    assert colon[1..] == e.after + text;
  }

  lemma NameThenColon(e: Entry, text: string)
    requires e.Proper()
    ensures ParseString(e.lead + (InQuotes(e.name) + (e.before + (":" + (e.after + text)))))
      == Some((Said(e.name), e.before + (":" + (e.after + text))))
    ensures SkipSpace(e.before + (":" + (e.after + text))) == ":" + (e.after + text)
  {
    var colon := ":" + (e.after + text);
    hide ParseString, InQuotes, Said, AllProper, SkipSpace, Written.Proper;
    QuoteReads(e.lead, e.name, e.before + colon);
    SkipOver(e.before, colon);
  }

  lemma TrailEnds(trail: string, rest: string)
    requires AllSpace(trail) && Separates(rest)
    ensures trail + rest != [] && EndsToken((trail + rest)[0]) && SkipSpace(trail + rest) == rest
  {
    SkipOver(trail, rest);
    hide SkipSpace;
    assert (trail + rest)[0] == if trail == "" then rest[0] else trail[0];
  }

  lemma {:induction false} EntriesRead(es: seq<Entry>, tail: string, out: JsonObject, decimal: DecimalReader)
    requires es != [] && AllEntries(es) && AllSpace(tail)
    ensures ParseMembers(EntriesText(es) + tail, out, decimal)
      == match EntriesMeaning(es, out, decimal) case None => Invalid case Some(o) => Good(o)
    decreases |es|
  {
    var e := es[0];
    hide Entry.Text, ParseMember, Written.Meaning, Said, Entry.Proper;
    if |es| == 1 {
      EntryReads(e, "}" + tail, decimal);
      Reassociate(e.Text(), "}", tail);
      SkipOver(tail, []);
      assert tail + [] == tail;
      hide SkipSpace, AllSpace;
      assert es[1..] == [];
      assert ("}" + tail)[1..] == tail;
    } else {
      var later := EntriesText(es[1..]) + tail;
      EntryReads(e, "," + later, decimal);
      Reassociate(e.Text() + ",", EntriesText(es[1..]), tail);
      Reassociate(e.Text(), ",", later);
      assert ("," + later)[1..] == later;
      hide AllSpace;
      if e.value.Meaning(decimal).Some? {
        EntriesRead(es[1..], tail, out[Said(e.name) := e.value.Meaning(decimal).value], decimal);
      }
    }
  }

  lemma {:induction false} SkipTwice(s: string)
    ensures SkipSpace(SkipSpace(s)) == SkipSpace(s)
    ensures SkipSpace(s) == [] || !Space(SkipSpace(s)[0])
  {
    if s != [] { SkipTwice(s[1..]); }
  }

  lemma SkipBeforeMembers(s: string, out: JsonObject, decimal: DecimalReader)
    ensures ParseMembers(SkipSpace(s), out, decimal) == ParseMembers(s, out, decimal)
  {
    SkipTwice(s);
    hide SkipSpace, Unescape;
    assert ParseString(SkipSpace(s)) == ParseString(s);
    hide ParseString;
    assert ParseMember(SkipSpace(s), decimal) == ParseMember(s, decimal);
    hide ParseMember;
  }

  lemma BeginsWithEntry(es: seq<Entry>, tail: string) returns (rest: string)
    requires es != []
    ensures EntriesText(es) + tail == es[0].Text() + rest
  {
    hide Entry.Text;
    if |es| == 1 {
      rest := "}" + tail;
      Reassociate(es[0].Text(), "}", tail);
    } else {
      rest := ("," + EntriesText(es[1..])) + tail;
      Reassociate(es[0].Text(), ",", EntriesText(es[1..]));
      Reassociate(es[0].Text(), "," + EntriesText(es[1..]), tail);
    }
  }

  lemma BeginsQuoted(es: seq<Entry>, tail: string)
    requires es != [] && AllEntries(es)
    ensures SkipSpace(EntriesText(es) + tail) != [] && SkipSpace(EntriesText(es) + tail)[0] == '"'
  {
    var e := es[0];
    var rest := BeginsWithEntry(es, tail);
    assert e.Proper();
    EntryRegroups(e, rest);
    hide EntriesText, Entry.Text, AllEntries, Written.Shown, SkipSpace, AllSpace, Spell, Written.Proper, AllProper;
    var named := e.before + (":" + (e.after + (e.value.Shown() + (e.trail + rest))));
    QuotedFront(e.name, named);
    hide InQuotes;
    SkipOver(e.lead, InQuotes(e.name) + named);
  }

  /** Every text of the grammar is parsed as what it means, or refused where a value means nothing. */
  lemma DocumentReads(doc: Document, decimal: DecimalReader)
    requires doc.Proper()
    ensures Parse(doc.Text(), decimal)
      == match doc.Meaning(decimal) case None => Invalid case Some(o) => Good(o)
  {
    hide EntriesText, EntriesMeaning, ParseMembers, AllEntries;
    match doc
    case Nothing(lead, inner, rest) =>
      var content := inner + ("}" + rest);
      SkipOver(lead, "{" + content);
      SkipOver(inner, "}" + rest);
      hide SkipSpace, AllSpace;
      assert ("{" + content)[1..] == content;
    case Object(lead, entries, tail) =>
      var content := EntriesText(entries) + tail;
      SkipOver(lead, "{" + content);
      BeginsQuoted(entries, tail);
      SkipBeforeMembers(content, map[], decimal);
      EntriesRead(entries, tail, map[], decimal);
      hide SkipSpace, AllSpace;
      assert ("{" + content)[1..] == content;
  }

  // From the parser to the grammar.

  lemma {:induction false} SkipSplits(s: string) returns (ws: string)
    ensures AllSpace(ws) && s == ws + SkipSpace(s)
  {
    hide Space;
    if s != [] && Space(s[0]) {
      var later := SkipSplits(s[1..]);
      ws := [s[0]] + later;
    } else {
      ws := [];
    }
  }

  lemma {:induction false} UnescapeSplits(s: string) returns (gs: seq<Glyph>)
    requires Unescape(s).Some?
    ensures AllProper(gs) && Said(gs) == Unescape(s).value.0
    ensures s == Spell(gs) + ("\"" + Unescape(s).value.1)
    decreases |s|
  {
    if s[0] == '"' {
      gs := [];
    } else {
      var escaped := s[0] == '\\';
      var g := if escaped then Escaped(s[1]) else Plain(s[0]);
      var tail := if escaped then s[2..] else s[1..];
      assert s == g.Text() + tail;
      var later := UnescapeSplits(tail);
      gs := [g] + later;
      Longer(g, later);
      assert Unescape(s) == Then(g.c, Unescape(tail));
      hide Unescape, Glyph.Text, AllProper, Spell, Said, Glyph.Proper;
      Reassociate(g.Text(), Spell(later), "\"" + Unescape(s).value.1);
    }
  }

  lemma Longer(g: Glyph, later: seq<Glyph>)
    requires AllProper(later) && g.Proper()
    ensures var gs := [g] + later;
      AllProper(gs) && Spell(gs) == g.Text() + Spell(later) && Said(gs) == [g.c] + Said(later)
  {
    hide Glyph.Text, Glyph.Proper;
    assert ([g] + later)[1..] == later;
  }

  lemma QuoteSplits(s: string) returns (lead: string, gs: seq<Glyph>)
    requires ParseString(s).Some?
    ensures AllSpace(lead) && AllProper(gs) && Said(gs) == ParseString(s).value.0
    ensures s == lead + (InQuotes(gs) + ParseString(s).value.1)
    ensures SkipSpace(s) == InQuotes(gs) + ParseString(s).value.1
  {
    lead := SkipSplits(s);
    var t := SkipSpace(s);
    gs := UnescapeSplits(t[1..]);
    QuotedFront(gs, ParseString(s).value.1);
    hide SkipSpace, Unescape, InQuotes, Said, AllProper, AllSpace;
    assert t == ['"'] + t[1..];
  }

  lemma {:induction false} TokenEnds(s: string)
    ensures forall i :: 0 <= i < |Token(s)| ==> !EndsToken(Token(s)[i])
  {
    hide EndsToken;
    if s != [] && !EndsToken(s[0]) { TokenEnds(s[1..]); }
  }

  lemma NothingMeansNothing(decimal: DecimalReader)
    ensures ParseNumber("", decimal) == None
  {
  }

  lemma ValueSplits(s: string, decimal: DecimalReader) returns (w: Written)
    requires ParseValue(s, decimal).Some? && (s == [] || !Space(s[0]))
    ensures w.Proper() && w.Meaning(decimal) == Some(ParseValue(s, decimal).value.0)
    ensures s == w.Shown() + ParseValue(s, decimal).value.1
  {
    if s != [] && s[0] == '"' {
      NotSpace(s);
      hide SkipSpace;
      var lead, gs := QuoteSplits(s);
      w := Text(gs);
      hide ParseString, InQuotes, Said, AllProper, Interpret;
    } else {
      var t := Token(s);
      TokenEnds(s);
      NothingMeansNothing(decimal);
      hide Token, ParseNumber, EndsToken;
      w := Bare(t);
      assert s == t + s[|t|..];
    }
  }

  lemma MemberSplits(s: string, decimal: DecimalReader) returns (e: Entry)
    requires ParseMember(s, decimal).Some?
    ensures e.Proper() && Said(e.name) == ParseMember(s, decimal).value.0
    ensures e.value.Meaning(decimal) == Some(ParseMember(s, decimal).value.1)
    ensures s == e.Text() + ParseMember(s, decimal).value.2
  {
    var lead, name := QuoteSplits(s);
    hide ParseString, Written.Shown, Written.Proper, Written.Meaning, ParseValue, Entry.Text, Said, InQuotes, SkipSpace;
    var afterName := ParseString(s).value.1;
    var before := SkipSplits(afterName);
    var colon := SkipSpace(afterName);
    assert colon == ":" + colon[1..];
    var after := SkipSplits(colon[1..]);
    SkipTwice(colon[1..]);
    var text := SkipSpace(colon[1..]);
    hide Space, AllSpace, AllProper;
    var value := ValueSplits(text, decimal);
    var trail := SkipSplits(ParseValue(text, decimal).value.1);
    e := Entry(lead, name, before, after, value, trail);
    EntryRegroups(e, SkipSpace(ParseValue(text, decimal).value.1));
  }

  lemma {:induction false} MembersSplit(s: string, out: JsonObject, decimal: DecimalReader)
    returns (es: seq<Entry>, tail: string)
    requires ParseMembers(s, out, decimal).Good?
    ensures es != [] && AllEntries(es) && AllSpace(tail) && s == EntriesText(es) + tail
    ensures EntriesMeaning(es, out, decimal) == Some(ParseMembers(s, out, decimal).value)
    decreases |s|
  {
    var e := MemberSplits(s, decimal);
    hide ParseMember, Entry.Text, Entry.Proper, Written.Meaning, Said;
    var (name, value, rest) := ParseMember(s, decimal).value;
    if rest[0] == ',' {
      var longer := out[name := value];
      assert ParseMembers(s, out, decimal) == ParseMembers(rest[1..], longer, decimal);
      var later;
      later, tail := MembersSplit(rest[1..], longer, decimal);
      hide ParseMembers, SkipSpace, AllSpace;
      es := [e] + later;
      assert es[1..] == later;
      assert rest == "," + rest[1..];
      Reassociate(e.Text(), ",", EntriesText(later) + tail);
      Reassociate(e.Text() + ",", EntriesText(later), tail);
    } else {
      es := [e];
      tail := SkipSplits(rest[1..]);
      hide SkipSpace, AllSpace;
      assert tail + [] == tail && rest == "}" + rest[1..];
      Reassociate(e.Text(), "}", tail);
      assert es[1..] == [];
    }
  }

  lemma ParseSplits(text: string, decimal: DecimalReader) returns (doc: Document)
    requires Parse(text, decimal).Good?
    ensures doc.Proper() && doc.Text() == text && doc.Meaning(decimal) == Some(Parse(text, decimal).value)
  {
    hide EntriesText, EntriesMeaning, ParseMembers, AllEntries;
    var lead := SkipSplits(text);
    var s := SkipSpace(text);
    var before := SkipSplits(s[1..]);
    var inner := SkipSpace(s[1..]);
    hide SkipSpace, AllSpace;
    assert s == "{" + s[1..];
    if inner != [] && inner[0] == '}' {
      assert inner == "}" + inner[1..];
      doc := Nothing(lead, before, inner[1..]);
    } else {
      SkipBeforeMembers(s[1..], map[], decimal);
      var es, tail := MembersSplit(s[1..], map[], decimal);
      doc := Object(lead, es, tail);
    }
  }

  /** The parser accepts exactly the texts of the grammar, as what they mean. */
  lemma ParsesExactly(text: string, o: JsonObject, decimal: DecimalReader)
    ensures Parse(text, decimal) == Good(o)
      <==> exists doc: Document :: doc.Proper() && doc.Text() == text && doc.Meaning(decimal) == Some(o)
  {
    if Parse(text, decimal) == Good(o) {
      var doc := ParseSplits(text, decimal);
    }
    hide Parse;
    forall doc: Document | doc.Proper() && doc.Text() == text && doc.Meaning(decimal) == Some(o)
      ensures Parse(text, decimal) == Good(o)
    {
      DocumentReads(doc, decimal);
    }
  }
}
