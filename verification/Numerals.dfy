/** Digits and numerals of the JSON text: what every digit is worth and what every numeral is read as. */
module Numerals {
  import opened Wire
  import opened Json

  const DECIMAL_DIGITS := "0123456789"
  const LOWER_DIGITS := "0123456789abcdef"
  const UPPER_DIGITS := "0123456789ABCDEF"

  /** The digit characters in order, and what each is worth. */
  lemma DecimalDigits(d: nat)
    requires d < 10
    ensures DigitChar(d) == DECIMAL_DIGITS[d] && Digit(DECIMAL_DIGITS[d]) && DigitValue(DECIMAL_DIGITS[d]) == d
  {
  }

  /** The hexadecimal digits: printed in lower case, read in either. */
  lemma HexDigits(d: nat)
    requires d < 16
    ensures HexChar(d) == LOWER_DIGITS[d]
    ensures HexValue(LOWER_DIGITS[d]) == Some(d) && HexValue(UPPER_DIGITS[d]) == Some(d)
  {
  }

  /** No other character is a digit. */
  lemma OnlyDigits(c: char)
    ensures Digit(c) <==> c in DECIMAL_DIGITS
    ensures HexValue(c).Some? <==> c in LOWER_DIGITS || c in UPPER_DIGITS
  {
    if Digit(c) { assert DECIMAL_DIGITS[c as int - 48] == c; }
    if 'a' <= c <= 'f' { assert LOWER_DIGITS[c as int - 97 + 10] == c; }
    if 'A' <= c <= 'F' { assert UPPER_DIGITS[c as int - 65 + 10] == c; }
    if Digit(c) { assert LOWER_DIGITS[c as int - 48] == c; }
  }

  function Pow10(k: nat): (p: nat)
    ensures p >= 1
  {
    if k == 0 then 1 else 10 * Pow10(k - 1)
  }

  /** A digit in its place. */
  function Place(c: char, k: nat): nat
    requires Digit(c)
  {
    (c as int - 48) * Pow10(k)
  }

  /** The value of a numeral: every digit times the power of ten of its place. */
  function Positional(s: string): nat
    requires AllDigits(s)
  {
    if s == [] then 0 else Place(s[0], |s| - 1) + Positional(s[1..])
  }

  lemma Places(c: char, k: nat)
    requires Digit(c)
    ensures Place(c, 0) == c as int - 48 && Place(c, k + 1) == 10 * Place(c, k)
  {
    assert Pow10(0) == 1 && Pow10(k + 1) == 10 * Pow10(k);
    var d, p := c as int - 48, Pow10(k);
    assert d * (10 * p) == 10 * (d * p);
  }

  lemma DigitFirst(c: char, s: string)
    requires Digit(c) && AllDigits(s)
    ensures AllDigits([c] + s) && AllDigits(s + [c])
  {
    hide Digit;
  }

  lemma PositionalFirst(c: char, s: string)
    requires Digit(c) && AllDigits(s) && AllDigits([c] + s)
    ensures Positional([c] + s) == Place(c, |s|) + Positional(s)
  {
    hide Place, Digit, AllDigits;
    assert ([c] + s)[1..] == s;
  }

  lemma {:induction false} PositionalSnoc(s: string, c: char)
    requires AllDigits(s) && Digit(c)
    ensures AllDigits(s + [c]) && Positional(s + [c]) == 10 * Positional(s) + (c as int - 48)
    decreases |s|
  {
    DigitFirst(c, s);
    Places(c, 0);
    if s == [] {
      hide Place;
      assert [] + [c] == [c] && Positional([c][1..]) == 0;
    } else {
      var first, rest := s[0], s[1..];
      assert [first] + rest == s && [first] + (rest + [c]) == s + [c] && AllDigits(rest);
      hide *;
      PositionalSnoc(rest, c);
      PositionalFirst(first, rest);
      PositionalFirst(first, rest + [c]);
      Places(first, |rest|);
    }
  }

  /** What the reader makes of digits is the value of the numeral. */
  lemma {:induction false} DigitsArePositional(s: string)
    requires AllDigits(s)
    ensures DigitsValue(s) == Positional(s)
    decreases |s|
  {
    if s != [] {
      var last := |s| - 1;
      DigitsArePositional(s[..last]);
      PositionalSnoc(s[..last], s[last]);
      assert s == s[..last] + [s[last]];
    }
  }

  /** A printed number has its digit of weight 10^k in place k from the right, and no leading zero. */
  lemma {:induction false} PrintedDigits(n: nat, k: nat)
    requires k < |Digits(n)|
    ensures Digits(n)[|Digits(n)| - 1 - k] == DECIMAL_DIGITS[n / Pow10(k) % 10]
    ensures |Digits(n)| > 1 ==> Digits(n)[0] != '0'
    ensures n < Pow10(|Digits(n)|)
    decreases n
  {
    if n >= 10 {
      PrintedDigits(n / 10, if k == 0 then 0 else k - 1);
      if k > 0 { TenthThenDivide(n, Pow10(k - 1)); }
    } else {
      assert Pow10(0) == 1 && Pow10(1) == 10;
    }
  }

  lemma TenthThenDivide(n: nat, p: nat)
    requires p >= 1
    ensures n / (10 * p) == n / 10 / p
  {
    var q := n / 10 / p;
    assert n / 10 == q * p + n / 10 % p;
    assert n == 10 * (n / 10) + n % 10;
    assert 10 * (q * p) == q * (10 * p);
    QuotientIs(n, 10 * p, q, 10 * (n / 10 % p) + n % 10);
  }

  /** An optional sign, and whether it makes the number negative. */
  predicate IsSign(sign: string) { sign == "" || sign == "-" || sign == "+" }

  lemma {:induction false} DigitsUpTo(s: string, rest: string)
    requires AllDigits(s) && (rest == [] || !Digit(rest[0]))
    ensures DigitPrefix(s + rest) == s
    decreases |s|
  {
    if s == [] {
      assert s + rest == rest;
    } else {
      DigitsUpTo(s[1..], rest);
      assert (s + rest)[1..] == s[1..] + rest && s == [s[0]] + s[1..];
    }
  }

  function Signed(sign: string, n: nat): int { if sign == "-" then -(n as int) else n }

  lemma AfterSign(sign: string, tail: string)
    requires IsSign(sign) && (sign == "" ==> tail == [] || (tail[0] != '-' && tail[0] != '+'))
    ensures var t := sign + tail;
      && (if t != [] && (t[0] == '-' || t[0] == '+') then t[1..] else t) == tail
      && ((t != [] && t[0] == '-') == (sign == "-"))
  {
    assert sign == "" ==> sign + tail == tail;
    assert sign != "" ==> (sign + tail)[0] == sign[0] && (sign + tail)[1..] == tail;
  }

  lemma ReadParts(t: string, tail: string, negative: bool)
    requires tail == (if t != [] && (t[0] == '-' || t[0] == '+') then t[1..] else t)
    requires negative == (t != [] && t[0] == '-')
    ensures var digits := DigitPrefix(tail);
      ReadInteger(t)
      == if digits == [] then None
         else
           var n := if negative then -(DigitsValue(digits) as int) else DigitsValue(digits);
           if -I64_LIMIT <= n < I64_LIMIT then Some(n) else None
  {
    hide DigitPrefix, DigitsValue;
  }

  /**
   * `ReadInteger` on a sign, digits and whatever follows them: the signed value of the numeral, wherever it fits 64
   * bits, and nothing where it does not.
   */
  lemma NumeralRead(sign: string, digits: string, rest: string)
    requires IsSign(sign) && AllDigits(digits) && digits != [] && (rest == [] || !Digit(rest[0]))
    ensures var n := Signed(sign, Positional(digits));
      ReadInteger(sign + (digits + rest))
        == if -9223372036854775808 <= n <= 9223372036854775807 then Some(n) else None
  {
    DigitsArePositional(digits);
    DigitsUpTo(digits, rest);
    DigitIsPlain(digits[0]);
    hide DigitPrefix, DigitsValue, Positional, ReadInteger;
    var tail := digits + rest;
    assert tail[0] == digits[0];
    AfterSign(sign, tail);
    ReadParts(sign + tail, tail, sign == "-");
  }

  /** Without a digit after the sign there is no number. */
  lemma NoNumeral(sign: string, rest: string)
    requires IsSign(sign) && (rest == [] || (!Digit(rest[0]) && (sign == "" ==> rest[0] != '-' && rest[0] != '+')))
    ensures ReadInteger(sign + rest) == None
  {
    AfterSign(sign, rest);
    hide ReadInteger;
    ReadParts(sign + rest, rest, sign == "-");
  }

  /** A printed integer: a minus sign if it is negative, and the digits of its magnitude. */
  lemma PrintedInteger(n: int)
    ensures ValueText(Integer(n)) == (if n < 0 then "-" else "") + Digits(if n < 0 then -n else n)
  {
    hide Digits;
    assert n >= 0 ==> "" + Digits(n) == Digits(n);
  }

  /** Two characters are escaped, and no others. */
  lemma EscapedFirst(c: char, rest: string)
    ensures Escape([c] + rest) == (if c == '"' || c == '\\' then ['\\', c] else [c]) + Escape(rest)
    ensures Escape("") == ""
  {
    assert ([c] + rest)[1..] == rest;
  }

  lemma FourParts(a: string, b: string, c: string, d: string)
    ensures a + (b + c + d) == a + b + c + d
  {
  }

  /** A text is printed piece by piece. */
  lemma {:induction false} EscapedPieces(a: string, c: char, b: string)
    ensures Escape(a + [c] + b) == Escape(a) + (if c == '"' || c == '\\' then ['\\', c] else [c]) + Escape(b)
    ensures Escape("") == ""
    decreases |a|
  {
    hide *;
    var piece := if c == '"' || c == '\\' then ['\\', c] else [c];
    EscapedFirst(c, b);
    if a == [] {
      assert a + [c] + b == [c] + b && [] + piece == piece;
    } else {
      var first := if a[0] == '"' || a[0] == '\\' then ['\\', a[0]] else [a[0]];
      EscapedPieces(a[1..], c, b);
      EscapedFirst(a[0], a[1..]);
      EscapedFirst(a[0], a[1..] + [c] + b);
      FourParts([a[0]], a[1..], [c], b);
      assert [a[0]] + a[1..] == a;
      FourParts(first, Escape(a[1..]), piece, Escape(b));
    }
  }

  /** A printed byte is two digits, the high one first, after 0x. */
  lemma {:induction false} HexAt(data: seq<byte>, i: nat)
    requires i < |data|
    ensures |Hex(data)| == 2 * |data|
    ensures Hex(data)[2 * i] == LOWER_DIGITS[data[i] / 16] && Hex(data)[2 * i + 1] == LOWER_DIGITS[data[i] % 16]
    ensures ValueText(Bytes(data)) == "\"0x" + Hex(data) + "\""
    decreases |data|
  {
    HexDigits(data[i] / 16);
    HexDigits(data[i] % 16);
    hide HexChar;
    if i > 0 { HexAt(data[1..], i - 1); } else { HexLength(data[1..]); }
  }

  lemma {:induction false} HexLength(data: seq<byte>)
    ensures |Hex(data)| == 2 * |data|
    decreases |data|
  {
    hide HexChar;
    if data != [] { HexLength(data[1..]); }
  }

  /** Two members: names in quotes, a colon before each value, a comma between the members, all in braces. */
  lemma PrintedMembers(a: Member, b: Member)
    requires !a.1.Decimal? && !b.1.Decimal?
    ensures Format([]) == "{}"
    ensures Format([a, b])
      == "{" + Quoted(a.0) + ":" + ValueText(a.1) + "," + Quoted(b.0) + ":" + ValueText(b.1) + "}"
  {
    hide Quoted, ValueText;
    assert [a, b][1..] == [b] && [b][1..] == [];
    assert MembersText([b]) == Quoted(b.0) + ":" + ValueText(b.1);
  }
}
