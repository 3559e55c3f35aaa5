/** Compact JSON text: Python's printer, Python's strict scanner, and their round trip. */
module Json {
  import opened Ordering
  import opened Text
  import opened Utf8

  /** JSON as read, before objects become dictionaries: an object still lists its pairs. */
  datatype Raw =
    | Null
    | Bool(b: bool)
    | Int(n: int)
    | Float(text: Str)
    | String(text: Str)
    | Array(items: seq<Raw>)
    | Object(members: seq<Member>)

  datatype Member = Member(name: Str, value: Raw)

  /** A parser's result: a value and the text after it. */
  datatype Parsed<+T> = Fail | Got(value: T, rest: Str)

  const NEWLINE: Code := 0x0A
  const SPACE: Code := 0x20
  const QUOTE: Code := 0x22
  const COMMA: Code := 0x2C
  const MINUS: Code := 0x2D
  const ZERO: Code := 0x30
  const OPEN_BRACKET: Code := 0x5B
  const CLOSE_BRACKET: Code := 0x5D
  const LOWER_U: Code := 0x75
  const OPEN_BRACE: Code := 0x7B
  const CLOSE_BRACE: Code := 0x7D

  // ---- numbers -----------------------------------------------------------------------------------

  predicate IsDigit(c: Code) {
    0x30 <= c <= 0x39
  }

  /** How many digits the text starts with. */
  function DigitRun(s: Str): (k: nat)
    ensures k <= |s|
    ensures forall i :: 0 <= i < k ==> IsDigit(s[i])
  {
    if s == [] || !IsDigit(s[0]) then 0 else 1 + DigitRun(s[1..])
  }

  function NatText(n: nat): (r: Str)
    ensures r != [] && forall i :: 0 <= i < |r| ==> IsDigit(r[i])
    ensures r[0] == ZERO ==> n == 0 && |r| == 1
  {
    if n < 10 then [ZERO + n] else NatText(n / 10) + [ZERO + n % 10]
  }

  /** `int.__repr__` */
  function IntText(n: int): Str {
    if n < 0 then [MINUS] + NatText(-n) else NatText(n)
  }

  /** The value of a run of digits. */
  function NatValue(s: Str): nat
    requires forall i :: 0 <= i < |s| ==> IsDigit(s[i])
  {
    if s == [] then 0
    else
      assert IsDigit(s[|s| - 1]);
      10 * NatValue(s[..|s| - 1]) + (s[|s| - 1] - ZERO)
  }

  lemma {:induction false} NatRoundTrip(n: nat)
    ensures NatValue(NatText(n)) == n
  {
    if n >= 10 {
      NatRoundTrip(n / 10);
      var head := NatText(n / 10);
      assert NatText(n)[..|head|] == head;
    } else {
      assert NatText(n)[..0] == [];
    }
  }

  /** The length of a fraction at the start of the text, or 0. */
  function FractionLength(s: Str): (k: nat)
    ensures k <= |s|
  {
    if |s| >= 2 && s[0] == DOT && IsDigit(s[1]) then 1 + DigitRun(s[1..]) else 0
  }

  /** The length of an exponent at the start of the text, or 0. */
  function ExponentLength(s: Str): (k: nat)
    ensures k <= |s|
  {
    if s == [] || s[0] !in {0x45, 0x65} then 0
    else
      var k := if |s| > 1 && s[1] in {0x2B, MINUS} then 2 else 1;
      if DigitRun(s[k..]) == 0 then 0 else k + DigitRun(s[k..])
  }

  /** The length of the integer part at the start of the text, or 0. */
  function WholeLength(s: Str): (k: nat)
    ensures k <= |s|
    ensures forall i :: 0 <= i < k ==> IsDigit(s[i])
  {
    if s != [] && s[0] == ZERO then 1 else DigitRun(s)
  }

  function ParseUnsigned(u: Str, negative: bool): (r: Parsed<Raw>)
    ensures r.Got? ==> |r.rest| < |u|
  {
    var whole := WholeLength(u);
    var tail := u[whole..];
    var fraction := FractionLength(tail);
    var exponent := ExponentLength(tail[fraction..]);
    if whole == 0 then Fail
    else if fraction == 0 && exponent == 0 then
      var magnitude: int := NatValue(u[..whole]);
      Got(Int(if negative then -magnitude else magnitude), tail)
    else Got(Float((if negative then [MINUS] else []) + u[..whole + fraction + exponent]), tail[fraction + exponent..])
  }

  function ParseNumber(s: Str): (r: Parsed<Raw>)
    ensures r.Got? ==> |r.rest| < |s|
  {
    if s != [] && s[0] == MINUS then ParseUnsigned(s[1..], true) else ParseUnsigned(s, false)
  }

  /** Text that cannot continue a number: none, a delimiter or white space. */
  predicate Stops(s: Str) {
    s == [] || s[0] in {COMMA, CLOSE_BRACKET, CLOSE_BRACE, NEWLINE, SPACE, 0x09, 0x0D}
  }

  lemma {:induction false} DigitRunAppend(s: Str, rest: Str)
    requires (forall i :: 0 <= i < |s| ==> IsDigit(s[i])) && (rest == [] || !IsDigit(rest[0]))
    ensures DigitRun(s + rest) == |s|
  {
    if s == [] {
      assert s + rest == rest;
    } else {
      assert (s + rest)[1..] == s[1..] + rest;
      DigitRunAppend(s[1..], rest);
    }
  }

  lemma WholeScan(digits: Str, rest: Str)
    requires digits != [] && (forall i :: 0 <= i < |digits| ==> IsDigit(digits[i]))
      && (digits[0] == ZERO ==> |digits| == 1)
    requires Stops(rest)
    ensures WholeLength(digits + rest) == |digits|
    ensures FractionLength(rest) == 0 && ExponentLength(rest) == 0
  {
    DigitRunAppend(digits, rest);
  }

  lemma UnsignedScan(digits: Str, negative: bool, rest: Str)
    requires digits != [] && (forall i :: 0 <= i < |digits| ==> IsDigit(digits[i]))
      && (digits[0] == ZERO ==> |digits| == 1)
    requires Stops(rest)
    ensures var value: int := NatValue(digits);
      ParseUnsigned(digits + rest, negative) == Got(Int(if negative then -value else value), rest)
  {
    hide NatValue, WholeLength, FractionLength, ExponentLength;
    WholeScan(digits, rest);
    var u := digits + rest;
    assert u[..|digits|] == digits && u[|digits|..] == rest && rest[0..] == rest;
  }

  /** A written integer is read back. */
  lemma IntRoundTrip(n: int, rest: Str)
    requires Stops(rest)
    ensures ParseNumber(IntText(n) + rest) == Got(Int(n), rest)
  {
    hide NatText, NatValue, ParseUnsigned;
    var digits := NatText(if n < 0 then -n else n);
    NatRoundTrip(if n < 0 then -n else n);
    UnsignedScan(digits, n < 0, rest);
    assert IsDigit(digits[0]);
    assert (digits + rest)[0] == digits[0];
    assert n < 0 ==> (IntText(n) + rest)[1..] == digits + rest;
  }

  /** The whole text is one float literal. */
  predicate FloatLiteral(text: Str) {
    ParseNumber(text) == Got(Float(text), [])
  }

  lemma {:induction false} DigitRunStops(s: Str, rest: Str)
    requires rest == [] || !IsDigit(rest[0])
    ensures DigitRun(s + rest) == DigitRun(s)
  {
    if s == [] {
      assert s + rest == rest;
    } else {
      assert (s + rest)[0] == s[0] && (s + rest)[1..] == s[1..] + rest;
      DigitRunStops(s[1..], rest);
    }
  }

  lemma WholeStops(s: Str, rest: Str)
    requires Stops(rest)
    ensures WholeLength(s + rest) == WholeLength(s)
  {
    DigitRunStops(s, rest);
    assert s != [] ==> (s + rest)[0] == s[0];
    assert s == [] ==> s + rest == rest;
  }

  lemma FractionStops(s: Str, rest: Str)
    requires Stops(rest)
    ensures FractionLength(s + rest) == FractionLength(s)
  {
    if s == [] {
      assert s + rest == rest;
    } else {
      assert (s + rest)[0] == s[0] && (s + rest)[1..] == s[1..] + rest;
      DigitRunStops(s[1..], rest);
      assert |s| > 1 ==> (s + rest)[1] == s[1];
      assert |s| == 1 && rest != [] ==> (s + rest)[1] == rest[0];
    }
  }

  lemma ExponentStops(s: Str, rest: Str)
    requires Stops(rest)
    ensures ExponentLength(s + rest) == ExponentLength(s)
  {
    if s == [] {
      assert s + rest == rest;
    } else {
      assert (s + rest)[0] == s[0] && (s + rest)[1..] == s[1..] + rest;
      DigitRunStops(s[1..], rest);
      if |s| > 1 {
        assert (s + rest)[1] == s[1] && (s + rest)[2..] == s[2..] + rest;
        DigitRunStops(s[2..], rest);
      } else {
        assert rest != [] ==> (s + rest)[1] == rest[0];
      }
    }
  }

  lemma DropAppend(u: Str, rest: Str, a: nat, b: nat)
    requires a + b <= |u|
    ensures (u + rest)[..a] == u[..a] && (u + rest)[..a + b] == u[..a + b]
    ensures (u + rest)[a..] == u[a..] + rest && (u + rest)[a..][b..] == u[a..][b..] + rest
  {
  }

  /** The parts of a number do not depend on what follows. */
  lemma PartsStop(u: Str, rest: Str)
    requires Stops(rest)
    ensures var whole := WholeLength(u); var fraction := FractionLength(u[whole..]);
      && WholeLength(u + rest) == whole
      && FractionLength((u + rest)[whole..]) == fraction
      && ExponentLength((u + rest)[whole..][fraction..]) == ExponentLength(u[whole..][fraction..])
  {
    hide WholeLength, FractionLength, ExponentLength, Stops;
    var whole := WholeLength(u);
    var fraction := FractionLength(u[whole..]);
    WholeStops(u, rest);
    DropAppend(u, rest, whole, fraction);
    FractionStops(u[whole..], rest);
    ExponentStops(u[whole..][fraction..], rest);
  }

  /** The parser looks at a number only up to where it stops. */
  lemma UnsignedStops(u: Str, negative: bool, rest: Str)
    requires Stops(rest) && ParseUnsigned(u, negative).Got?
    ensures ParseUnsigned(u + rest, negative)
            == Got(ParseUnsigned(u, negative).value, ParseUnsigned(u, negative).rest + rest)
  {
    hide WholeLength, FractionLength, ExponentLength, NatValue, Stops, IsDigit;
    var whole := WholeLength(u);
    var fraction := FractionLength(u[whole..]);
    PartsStop(u, rest);
    DropAppend(u, rest, whole, fraction + ExponentLength(u[whole..][fraction..]));
  }

  /** A float literal is read back. */
  lemma FloatRoundTrip(text: Str, rest: Str)
    requires FloatLiteral(text) && Stops(rest)
    ensures ParseNumber(text + rest) == Got(Float(text), rest)
  {
    hide ParseUnsigned;
    assert [] + rest == rest;
    if text == [] {
    } else if text[0] == MINUS {
      assert (text + rest)[1..] == text[1..] + rest;
      UnsignedStops(text[1..], true, rest);
    } else {
      assert (text + rest)[0] == text[0];
      UnsignedStops(text, false, rest);
    }
  }

  lemma FractionChars(s: Str)
    ensures forall i :: 0 <= i < FractionLength(s) ==> s[i] < 0x80
  {
    forall i | 0 < i < FractionLength(s) ensures s[i] < 0x80 { assert IsDigit(s[1..][i - 1]); }
  }

  lemma ExponentChars(s: Str)
    ensures forall i :: 0 <= i < ExponentLength(s) ==> s[i] < 0x80
  {
    forall i | 0 <= i < ExponentLength(s) ensures s[i] < 0x80 {
      var k := if |s| > 1 && s[1] in {0x2B, MINUS} then 2 else 1;
      if i >= k { assert IsDigit(s[k..][i - k]); }
    }
  }

  lemma UnsignedChars(u: Str, negative: bool)
    requires ParseUnsigned(u, negative).Got? && ParseUnsigned(u, negative).rest == []
    ensures forall i :: 0 <= i < |u| ==> u[i] < 0x80
  {
    hide FractionLength, ExponentLength, NatValue;
    var tail := u[WholeLength(u)..];
    var fraction := FractionLength(tail);
    FractionChars(tail);
    ExponentChars(tail[fraction..]);
    forall i | WholeLength(u) <= i < |u| ensures u[i] < 0x80 {
      var k := i - WholeLength(u);
      assert u[i] == tail[k] && (k >= fraction ==> tail[k] == tail[fraction..][k - fraction]);
    }
  }

  lemma LiteralAscii(text: Str)
    requires FloatLiteral(text)
    ensures forall i :: 0 <= i < |text| ==> text[i] < 0x80
  {
    hide ParseUnsigned;
    if text != [] && text[0] == MINUS {
      UnsignedChars(text[1..], true);
      assert forall i :: 0 < i < |text| ==> text[i] == text[1..][i - 1];
    } else {
      UnsignedChars(text, false);
    }
  }

  // ---- strings -----------------------------------------------------------------------------------

  function HexChar(d: nat): Code
    requires d < 16
  {
    if d < 10 then 0x30 + d else 0x57 + d
  }

  function HexValue(c: Code): Option<nat> {
    if 0x30 <= c <= 0x39 then Some(c - 0x30)
    else if 0x61 <= c <= 0x66 then Some(c - 0x57)
    else if 0x41 <= c <= 0x46 then Some(c - 0x37)
    else None
  }

  /** `\uXXXX` */
  function UnicodeEscape(c: nat): (r: Str)
    requires c < 0x10000
    ensures |r| == 6
  {
    [BACKSLASH, LOWER_U, HexChar(c / 4096), HexChar(c / 256 % 16), HexChar(c / 16 % 16), HexChar(c % 16)]
  }

  /** The code unit four hexadecimal digits name. */
  function Hex4(s: Str): (r: Option<nat>)
    ensures r.Some? ==> r.value < 0x10000
  {
    if |s| < 4 then None
    else
      var a, b, c, d := HexValue(s[0]), HexValue(s[1]), HexValue(s[2]), HexValue(s[3]);
      if a.None? || b.None? || c.None? || d.None? then None
      else
        assert a.value < 16 && b.value < 16 && c.value < 16 && d.value < 16;
        Some(4096 * a.value + 256 * b.value + 16 * c.value + d.value)
  }

  lemma HexDigitRoundTrip(d: nat)
    requires d < 16
    ensures HexValue(HexChar(d)) == Some(d)
  {
  }

  lemma HexPlaces(c: nat)
    requires c < 0x10000
    ensures c / 4096 < 16
    ensures c == 4096 * (c / 4096) + 256 * (c / 256 % 16) + 16 * (c / 16 % 16) + c % 16
  {
    assert c / 16 / 16 == c / 256 && c / 256 / 16 == c / 4096;
  }

  lemma HexRoundTrip(c: nat, rest: Str)
    requires c < 0x10000
    ensures Hex4((UnicodeEscape(c) + rest)[2..]) == Some(c)
    ensures (UnicodeEscape(c) + rest)[6..] == rest
  {
    hide HexValue, HexChar;
    var s := UnicodeEscape(c) + rest;
    HexPlaces(c);
    HexDigitRoundTrip(c / 4096);
    HexDigitRoundTrip(c / 256 % 16);
    HexDigitRoundTrip(c / 16 % 16);
    HexDigitRoundTrip(c % 16);
    assert s[2..][0] == s[2] && s[2..][1] == s[3] && s[2..][2] == s[4] && s[2..][3] == s[5];
  }

  predicate HighSurrogate(c: int) { 0xD800 <= c <= 0xDBFF }

  predicate LowSurrogate(c: int) { 0xDC00 <= c <= 0xDFFF }

  /** The one-letter escapes, by the code point they stand for. */
  function ShortEscape(c: Code): Option<Code> {
    if c == QUOTE then Some(QUOTE)
    else if c == BACKSLASH then Some(BACKSLASH)
    else if c == 0x0A then Some(0x6E)
    else if c == 0x0D then Some(0x72)
    else if c == 0x09 then Some(0x74)
    else if c == 0x0C then Some(0x66)
    else if c == 0x08 then Some(0x62)
    else None
  }

  /** What the letter after a backslash stands for. */
  function ShortMeaning(e: Code): Option<Code> {
    if e == QUOTE || e == BACKSLASH || e == SLASH then Some(e)
    else if e == 0x6E then Some(0x0A)
    else if e == 0x72 then Some(0x0D)
    else if e == 0x74 then Some(0x09)
    else if e == 0x66 then Some(0x0C)
    else if e == 0x62 then Some(0x08)
    else None
  }

  /** How `json.dumps` writes one code point, with or without `ensure_ascii`. */
  function EscapeCode(c: Code, ascii: bool): (r: Str)
    ensures r != []
  {
    if ShortEscape(c).Some? then [BACKSLASH, ShortEscape(c).value]
    else if c < 0x20 || (ascii && 0x7E < c < 0x10000) then UnicodeEscape(c)
    else if ascii && c >= 0x10000 then
      UnicodeEscape(0xD800 + (c - 0x10000) / 1024) + UnicodeEscape(0xDC00 + (c - 0x10000) % 1024)
    else [c]
  }

  function Escape(s: Str, ascii: bool): Str {
    if s == [] then [] else EscapeCode(s[0], ascii) + Escape(s[1..], ascii)
  }

  function Quoted(s: Str, ascii: bool): Str {
    [QUOTE] + Escape(s, ascii) + [QUOTE]
  }

  /** A low surrogate escaped right here, if there is one. */
  function LowAhead(s: Str): Option<nat> {
    if |s| >= 6 && s[0] == BACKSLASH && s[1] == LOWER_U && Hex4(s[2..]).Some? && LowSurrogate(Hex4(s[2..]).value)
    then Hex4(s[2..]) else None
  }

  function Prepend(c: Code, r: Parsed<Str>): Parsed<Str> {
    match r case Fail => Fail case Got(s, rest) => Got([c] + s, rest)
  }

  /** Scans a string body up to its closing quote, in strict mode. */
  function ScanString(s: Str): (r: Parsed<Str>)
    ensures r.Got? ==> |r.rest| < |s|
    decreases |s|
  {
    if s == [] then Fail
    else if s[0] == QUOTE then Got([], s[1..])
    else if s[0] == BACKSLASH then
      if |s| < 2 then Fail
      else if s[1] == LOWER_U then
        var unit := Hex4(s[2..]);
        if unit.None? then Fail
        else if HighSurrogate(unit.value) && LowAhead(s[6..]).Some? then
          Prepend(0x10000 + 1024 * (unit.value - 0xD800) + (LowAhead(s[6..]).value - 0xDC00), ScanString(s[12..]))
        else Prepend(unit.value, ScanString(s[6..]))
      else if ShortMeaning(s[1]).None? then Fail
      else Prepend(ShortMeaning(s[1]).value, ScanString(s[2..]))
    else if s[0] < 0x20 then Fail
    else Prepend(s[0], ScanString(s[1..]))
  }

  /** No high surrogate is directly followed by a low one, as in any text decoded from bytes. */
  predicate NoSplitPair(s: Str) {
    forall i :: 0 <= i < |s| - 1 ==> !(HighSurrogate(s[i]) && LowSurrogate(s[i + 1]))
  }

  /** The text `\uXXXX` has a low surrogate ahead only if it names one. */
  lemma EscapedAhead(c: nat, tail: Str)
    requires c < 0x10000
    ensures LowAhead(UnicodeEscape(c) + tail).Some? <==> LowSurrogate(c)
    ensures LowSurrogate(c) ==> LowAhead(UnicodeEscape(c) + tail) == Some(c)
  {
    hide Hex4;
    HexRoundTrip(c, tail);
  }

  lemma NoLowAhead(s: Str, rest: Str)
    requires s == [] || !LowSurrogate(s[0])
    ensures LowAhead(Escape(s, true) + [QUOTE] + rest).None?
  {
    hide Hex4, UnicodeEscape, LowAhead, HighSurrogate;
    var text := Escape(s, true) + [QUOTE] + rest;
    if s != [] {
      var c, tail := s[0], Escape(s[1..], true) + [QUOTE] + rest;
      assert text == EscapeCode(c, true) + tail;
      if ShortEscape(c).None? && (c < 0x20 || 0x7E < c < 0x10000) {
        EscapedAhead(c, tail);
      } else if c >= 0x10000 {
        var high, low := 0xD800 + (c - 0x10000) / 1024, 0xDC00 + (c - 0x10000) % 1024;
        assert text == UnicodeEscape(high) + (UnicodeEscape(low) + tail);
        EscapedAhead(high, UnicodeEscape(low) + tail);
      } else {
        PlainAhead(c, tail);
      }
    } else {
      assert text[0] == QUOTE;
      NothingAhead(text);
    }
  }

  lemma NothingAhead(s: Str)
    requires s == [] || s[0] != BACKSLASH || (|s| > 1 && s[1] != LOWER_U)
    ensures LowAhead(s).None?
  {
  }

  lemma PlainAhead(c: Code, tail: Str)
    requires ShortEscape(c).Some? || 0x20 <= c <= 0x7E
    ensures LowAhead(EscapeCode(c, true) + tail).None?
  {
  }

  lemma ScanShort(c: Code, tail: Str)
    requires ShortEscape(c).Some?
    ensures ScanString([BACKSLASH, ShortEscape(c).value] + tail) == Prepend(c, ScanString(tail))
  {
  }

  lemma ScanUnit(c: Code, tail: Str)
    requires c < 0x10000 && (HighSurrogate(c) ==> LowAhead(tail).None?)
    ensures ScanString(UnicodeEscape(c) + tail) == Prepend(c, ScanString(tail))
  {
    hide Hex4, LowAhead;
    var s := UnicodeEscape(c) + tail;
    HexRoundTrip(c, tail);
    assert s[0] == BACKSLASH && s[1] == LOWER_U;
  }

  lemma ScanPair(high: nat, low: nat, tail: Str)
    requires HighSurrogate(high) && LowSurrogate(low)
    ensures ScanString(UnicodeEscape(high) + (UnicodeEscape(low) + tail))
            == Prepend(0x10000 + 1024 * (high - 0xD800) + (low - 0xDC00), ScanString(tail))
  {
    hide Hex4, LowAhead;
    var next := UnicodeEscape(low) + tail;
    var s := UnicodeEscape(high) + next;
    HexRoundTrip(high, next);
    HexRoundTrip(low, tail);
    EscapedAhead(low, tail);
    assert s[0] == BACKSLASH && s[1] == LOWER_U;
    assert s[12..] == s[6..][6..];
  }

  lemma ScanPlain(c: Code, tail: Str)
    requires ShortEscape(c).None? && c >= 0x20
    ensures ScanString([c] + tail) == Prepend(c, ScanString(tail))
  {
    var s := [c] + tail;
    assert s[0] == c && s[1..] == tail;
  }

  /** One written code point is scanned back, unless it would pair up with what follows. */
  lemma ScanOne(c: Code, ascii: bool, tail: Str)
    requires ascii && HighSurrogate(c) ==> LowAhead(tail).None?
    ensures ScanString(EscapeCode(c, ascii) + tail) == Prepend(c, ScanString(tail))
  {
    hide LowAhead, ScanString, UnicodeEscape;
    if ShortEscape(c).Some? {
      ScanShort(c, tail);
    } else if c < 0x20 || (ascii && 0x7E < c < 0x10000) {
      ScanUnit(c, tail);
    } else if ascii && c >= 0x10000 {
      var high, low := 0xD800 + (c - 0x10000) / 1024, 0xDC00 + (c - 0x10000) % 1024;
      assert EscapeCode(c, ascii) + tail == UnicodeEscape(high) + (UnicodeEscape(low) + tail);
      ScanPair(high, low, tail);
    } else {
      ScanPlain(c, tail);
    }
  }

  /** A written string is scanned back. */
  lemma {:induction false} StringRoundTrip(s: Str, ascii: bool, rest: Str)
    requires ascii ==> NoSplitPair(s)
    ensures ScanString(Escape(s, ascii) + [QUOTE] + rest) == Got(s, rest)
  {
    hide EscapeCode, LowAhead, HighSurrogate, LowSurrogate;
    if s == [] {
      assert Escape(s, ascii) + [QUOTE] + rest == [QUOTE] + rest;
      assert ([QUOTE] + rest)[1..] == rest;
    } else {
      var tail := Escape(s[1..], ascii) + [QUOTE] + rest;
      assert Escape(s, ascii) + [QUOTE] + rest == EscapeCode(s[0], ascii) + tail;
      StringRoundTrip(s[1..], ascii, rest) by { if ascii { assert NoSplitPair(s[1..]); } }
      if ascii && HighSurrogate(s[0]) { NoLowAhead(s[1..], rest); }
      hide ScanString, NoSplitPair, Escape;
      ScanOne(s[0], ascii, tail);
      assert s == [s[0]] + s[1..];
    }
  }

  // ---- values ------------------------------------------------------------------------------------

  const NULL_TEXT: Str := U("null")
  const TRUE_TEXT: Str := U("true")
  const FALSE_TEXT: Str := U("false")

  /** How `json.dumps` is asked to write: escaped to ASCII or not, compact or indented and then how deep. */
  datatype Layout = Layout(ascii: bool, indent: Option<nat>)

  const COMPACT: Layout := Layout(false, None)
  const COMPACT_ASCII: Layout := Layout(true, None)
  const INDENTED: Layout := Layout(false, Some(0))

  function Deeper(l: Layout): Layout {
    match l.indent case None => l case Some(n) => l.(indent := Some(n + 2))
  }

  function Spaces(n: nat): Str {
    if n == 0 then [] else [SPACE] + Spaces(n - 1)
  }

  /** What separates the lines of an indented text. */
  function Break(l: Layout): Str {
    match l.indent case None => [] case Some(n) => [NEWLINE] + Spaces(n)
  }

  function Colon(l: Layout): Str {
    if l.indent.None? then [COLON] else [COLON, SPACE]
  }

  /** `json.dumps(v, separators=(",", ":"))` or `json.dumps(v, indent=2)`, where a float stands for its `repr`. */
  function Print(v: Raw, l: Layout): Str
    decreases v, 1
  {
    match v
    case Null => NULL_TEXT
    case Bool(b) => if b then TRUE_TEXT else FALSE_TEXT
    case Int(n) => IntText(n)
    case Float(text) => text
    case String(text) => Quoted(text, l.ascii)
    case Array(items) =>
      if items == [] then [OPEN_BRACKET, CLOSE_BRACKET]
      else [OPEN_BRACKET] + Break(Deeper(l)) + PrintItems(items, Deeper(l)) + Break(l) + [CLOSE_BRACKET]
    case Object(members) =>
      if members == [] then [OPEN_BRACE, CLOSE_BRACE]
      else [OPEN_BRACE] + Break(Deeper(l)) + PrintMembers(members, Deeper(l)) + Break(l) + [CLOSE_BRACE]
  }

  function PrintItems(items: seq<Raw>, l: Layout): Str
    decreases items, 0
  {
    if items == [] then []
    else if |items| == 1 then Print(items[0], l)
    else Print(items[0], l) + [COMMA] + Break(l) + PrintItems(items[1..], l)
  }

  function PrintMember(m: Member, l: Layout): Str
    decreases m, 0
  {
    Quoted(m.name, l.ascii) + Colon(l) + Print(m.value, l)
  }

  function PrintMembers(members: seq<Member>, l: Layout): Str
    decreases members, 0
  {
    if members == [] then []
    else if |members| == 1 then PrintMember(members[0], l)
    else PrintMember(members[0], l) + [COMMA] + Break(l) + PrintMembers(members[1..], l)
  }

  predicate WhiteSpace(c: Code) {
    c in {SPACE, 0x09, NEWLINE, 0x0D}
  }

  function SkipSpace(s: Str): (r: Str)
    ensures |r| <= |s|
  {
    if s != [] && WhiteSpace(s[0]) then SkipSpace(s[1..]) else s
  }

  function Starts(s: Str, c: Code): bool {
    s != [] && s[0] == c
  }

  function ParseValue(s: Str): (r: Parsed<Raw>)
    ensures r.Got? ==> |r.rest| < |s|
    decreases |s|, 0
  {
    if Starts(s, QUOTE) then
      match ScanString(s[1..])
      case Fail => Fail
      case Got(text, rest) => Got(String(text), rest)
    else if Starts(s, OPEN_BRACE) then
      var t := SkipSpace(s[1..]);
      if Starts(t, CLOSE_BRACE) then Got(Object([]), t[1..])
      else
        match ParseMembers(t)
        case Fail => Fail
        case Got(members, rest) => Got(Object(members), rest)
    else if Starts(s, OPEN_BRACKET) then
      var t := SkipSpace(s[1..]);
      if Starts(t, CLOSE_BRACKET) then Got(Array([]), t[1..])
      else
        match ParseItems(t)
        case Fail => Fail
        case Got(items, rest) => Got(Array(items), rest)
    else if IsPrefix(NULL_TEXT, s) then Got(Null, s[4..])
    else if IsPrefix(TRUE_TEXT, s) then Got(Bool(true), s[4..])
    else if IsPrefix(FALSE_TEXT, s) then Got(Bool(false), s[5..])
    else ParseNumber(s)
  }

  function ParseItems(s: Str): (r: Parsed<seq<Raw>>)
    ensures r.Got? ==> |r.rest| < |s|
    decreases |s|, 1
  {
    match ParseValue(s)
    case Fail => Fail
    case Got(item, rest) =>
      var t := SkipSpace(rest);
      if Starts(t, CLOSE_BRACKET) then Got([item], t[1..])
      else if Starts(t, COMMA) then
        match ParseItems(SkipSpace(t[1..]))
        case Fail => Fail
        case Got(items, end) => Got([item] + items, end)
      else Fail
  }

  function ParseMember(s: Str): (r: Parsed<Member>)
    ensures r.Got? ==> |r.rest| < |s|
    decreases |s|, 1
  {
    if !Starts(s, QUOTE) then Fail
    else
      match ScanString(s[1..])
      case Fail => Fail
      case Got(name, rest) =>
        var t := SkipSpace(rest);
        if !Starts(t, COLON) then Fail
        else
          match ParseValue(SkipSpace(t[1..]))
          case Fail => Fail
          case Got(value, end) => Got(Member(name, value), end)
  }

  function ParseMembers(s: Str): (r: Parsed<seq<Member>>)
    ensures r.Got? ==> |r.rest| < |s|
    decreases |s|, 2
  {
    match ParseMember(s)
    case Fail => Fail
    case Got(member, rest) =>
      var t := SkipSpace(rest);
      if Starts(t, CLOSE_BRACE) then Got([member], t[1..])
      else if Starts(t, COMMA) then
        match ParseMembers(SkipSpace(t[1..]))
        case Fail => Fail
        case Got(members, end) => Got([member] + members, end)
      else Fail
  }

  /** `json.loads` before the object hook: one value, white space around it, nothing else. */
  function Loads(text: Str): Option<Raw> {
    if Starts(text, 0xFEFF) then None
    else
      match ParseValue(SkipSpace(text))
      case Fail => None
      case Got(v, rest) => if SkipSpace(rest) == [] then Some(v) else None
  }

  // ---- the round trip ------------------------------------------------------------------------------

  const INFINITY: Str := U("Infinity")

  /** What the printer writes for an infinite float. */
  predicate Infinite(text: Str) {
    text == INFINITY || text == [MINUS] + INFINITY
  }

  /** Every float is the text of a float literal, and no text is one `ensure_ascii` would write ambiguously. */
  predicate Printable(v: Raw, ascii: bool)
    decreases v, 1
  {
    match v
    case Float(text) => FloatLiteral(text)
    case String(text) => ascii ==> NoSplitPair(text)
    case Array(items) => forall i :: 0 <= i < |items| ==> Printable(items[i], ascii)
    case Object(members) => forall i :: 0 <= i < |members| ==> PrintableMember(members[i], ascii)
    case _ => true
  }

  predicate PrintableMember(m: Member, ascii: bool)
    decreases m, 0
  {
    (ascii ==> NoSplitPair(m.name)) && Printable(m.value, ascii)
  }

  /** Text that starts with a code point that is neither white space nor a closing delimiter. */
  predicate StartsValue(s: Str) {
    s != [] && !WhiteSpace(s[0]) && s[0] !in {CLOSE_BRACKET, CLOSE_BRACE, 0xFEFF}
  }

  lemma {:induction false} SkipSpaces(n: nat, s: Str)
    requires s == [] || !WhiteSpace(s[0])
    ensures SkipSpace(Spaces(n) + s) == s
  {
    if n == 0 {
      assert Spaces(0) + s == s;
    } else {
      SkipSpaces(n - 1, s);
      assert (Spaces(n) + s)[1..] == Spaces(n - 1) + s;
    }
  }

  lemma SkipBreak(l: Layout, s: Str)
    requires s == [] || !WhiteSpace(s[0])
    ensures SkipSpace(Break(l) + s) == s
  {
    match l.indent
    case None => assert Break(l) + s == s;
    case Some(n) =>
      SkipSpaces(n, s);
      assert (Break(l) + s)[1..] == Spaces(n) + s;
  }

  /** After a value come the end of the text, a comma, a closing delimiter or a line break. */
  lemma BreakStops(l: Layout, close: Code, rest: Str)
    requires close in {CLOSE_BRACKET, CLOSE_BRACE}
    ensures Stops(Break(l) + [close] + rest)
    ensures SkipSpace(Break(l) + [close] + rest) == [close] + rest
  {
    assert Break(l) + [close] + rest == Break(l) + ([close] + rest);
    SkipBreak(l, [close] + rest);
  }

  predicate FloatText(text: Str) {
    FloatLiteral(text) || Infinite(text)
  }

  lemma FloatStarts(text: Str)
    requires FloatText(text)
    ensures text != [] && (IsDigit(text[0]) || text[0] == MINUS || text[0] == 'I' as int)
  {
    if Infinite(text) { assert INFINITY[0] == 'I' as int; }
  }

  lemma PrintStarts(v: Raw, l: Layout, rest: Str)
    requires v.Float? ==> FloatText(v.text)
    ensures StartsValue(Print(v, l) + rest) && StartsValue(Print(v, l))
  {
    hide FloatText;
    match v
    case Int(n) =>
      var digits := NatText(if n < 0 then -n else n);
      assert IsDigit(digits[0]);
    case Float(text) => FloatStarts(text);
    case _ =>
  }

  lemma NumberStarts(s: Str)
    requires s != [] && (IsDigit(s[0]) || s[0] == MINUS || s[0] == 'I' as int)
    ensures ParseValue(s) == ParseNumber(s)
  {
    assert NULL_TEXT[0] == 'n' as int && TRUE_TEXT[0] == 't' as int && FALSE_TEXT[0] == 'f' as int;
    assert forall p: Str :: p != [] && IsPrefix(p, s) ==> p[0] == s[0];
  }

  lemma LiteralScan(v: Raw, l: Layout, rest: Str)
    requires v.Null? || v.Bool?
    ensures ParseValue(Print(v, l) + rest) == Got(v, rest)
  {
    var text := Print(v, l);
    var s := text + rest;
    assert s[..|text|] == text && s[|text|..] == rest && s[0] == text[0];
    assert NULL_TEXT[0] == 'n' as int && TRUE_TEXT[0] == 't' as int && FALSE_TEXT[0] == 'f' as int;
    assert forall p: Str :: p != [] && IsPrefix(p, s) ==> p[0] == s[0];
  }

  lemma StringScan(text: Str, ascii: bool, rest: Str)
    requires ascii ==> NoSplitPair(text)
    ensures ParseValue(Quoted(text, ascii) + rest) == Got(String(text), rest)
  {
    hide ScanString, Escape, NoSplitPair;
    assert (Quoted(text, ascii) + rest)[1..] == Escape(text, ascii) + [QUOTE] + rest;
    StringRoundTrip(text, ascii, rest);
  }

  lemma IntScan(n: int, rest: Str)
    requires Stops(rest)
    ensures ParseValue(IntText(n) + rest) == Got(Int(n), rest)
  {
    hide ParseNumber, ParseValue;
    IntRoundTrip(n, rest);
    var digits := NatText(if n < 0 then -n else n);
    assert IsDigit(digits[0]);
    NumberStarts(IntText(n) + rest);
  }

  lemma FloatScan(text: Str, rest: Str)
    requires FloatLiteral(text) && Stops(rest)
    ensures ParseValue(text + rest) == Got(Float(text), rest)
  {
    hide ParseNumber, ParseValue, FloatLiteral;
    FloatStarts(text);
    FloatRoundTrip(text, rest);
    NumberStarts(text + rest);
  }

  lemma ParseArray(s: Str, body: Str)
    requires Starts(s, OPEN_BRACKET) && SkipSpace(s[1..]) == body && !Starts(body, CLOSE_BRACKET)
    ensures ParseValue(s) ==
      match ParseItems(body) case Fail => Fail case Got(values, end) => Got(Array(values), end)
  {
    hide ParseItems, SkipSpace;
  }

  lemma ParseObject(s: Str, body: Str)
    requires Starts(s, OPEN_BRACE) && SkipSpace(s[1..]) == body && !Starts(body, CLOSE_BRACE)
    ensures ParseValue(s) ==
      match ParseMembers(body) case Fail => Fail case Got(values, end) => Got(Object(values), end)
  {
    hide ParseMembers, SkipSpace;
  }

  /** What the parser makes of a printed array, by its items. */
  lemma ArrayScan(items: seq<Raw>, l: Layout, rest: Str)
    requires items != [] && (items[0].Float? ==> FloatText(items[0].text))
    ensures ParseValue(Print(Array(items), l) + rest) ==
      match ParseItems(PrintItems(items, Deeper(l)) + (Break(l) + [CLOSE_BRACKET] + rest))
      case Fail => Fail
      case Got(values, end) => Got(Array(values), end)
  {
    hide ParseValue, ParseItems, PrintItems, Break, SkipSpace, StartsValue, FloatText;
    var s, body := Print(Array(items), l) + rest, PrintItems(items, Deeper(l)) + (Break(l) + [CLOSE_BRACKET] + rest);
    assert s[0] == OPEN_BRACKET && s[1..] == Break(Deeper(l)) + body;
    ItemsStart(items, Deeper(l), Break(l) + [CLOSE_BRACKET] + rest);
    BodyStarts(Deeper(l), body);
    ParseArray(s, body);
  }

  lemma BodyStarts(l: Layout, body: Str)
    requires StartsValue(body)
    ensures SkipSpace(Break(l) + body) == body
    ensures !Starts(body, CLOSE_BRACKET) && !Starts(body, CLOSE_BRACE)
  {
    SkipBreak(l, body);
  }

  lemma ObjectScan(members: seq<Member>, l: Layout, rest: Str)
    requires members != []
    ensures ParseValue(Print(Object(members), l) + rest) ==
      match ParseMembers(PrintMembers(members, Deeper(l)) + (Break(l) + [CLOSE_BRACE] + rest))
      case Fail => Fail
      case Got(values, end) => Got(Object(values), end)
  {
    hide ParseValue, ParseMembers, PrintMembers, Break, SkipSpace, StartsValue;
    var s, body := Print(Object(members), l) + rest,
      PrintMembers(members, Deeper(l)) + (Break(l) + [CLOSE_BRACE] + rest);
    assert s[0] == OPEN_BRACE && s[1..] == Break(Deeper(l)) + body;
    MembersStart(members, Deeper(l), Break(l) + [CLOSE_BRACE] + rest);
    BodyStarts(Deeper(l), body);
    ParseObject(s, body);
  }

  lemma EmptyScan(l: Layout, rest: Str)
    ensures ParseValue(Print(Array([]), l) + rest) == Got(Array([]), rest)
    ensures ParseValue(Print(Object([]), l) + rest) == Got(Object([]), rest)
  {
    var a, o := Print(Array([]), l) + rest, Print(Object([]), l) + rest;
    assert a[1..] == [CLOSE_BRACKET] + rest && a[1..][1..] == rest;
    assert o[1..] == [CLOSE_BRACE] + rest && o[1..][1..] == rest;
  }

  lemma ItemsStart(items: seq<Raw>, l: Layout, rest: Str)
    requires items != [] && (items[0].Float? ==> FloatText(items[0].text))
    ensures StartsValue(PrintItems(items, l) + rest)
  {
    hide Print, FloatText;
    PrintStarts(items[0], l, []);
    assert PrintItems(items, l)[0] == Print(items[0], l)[0];
  }

  lemma MembersStart(members: seq<Member>, l: Layout, rest: Str)
    requires members != []
    ensures StartsValue(PrintMembers(members, l) + rest)
  {
    hide Print;
    var first := PrintMember(members[0], l);
    assert first != [] && first[0] == QUOTE;
    assert IsPrefix(first, PrintMembers(members, l));
  }

  /** A comma stops a number, and what follows it is found behind the line break. */
  lemma CommaScan(first: Str, l: Layout, more: Str, end: Str)
    requires StartsValue(more + end)
    ensures var tail := [COMMA] + (Break(l) + (more + end));
      && first + [COMMA] + Break(l) + more + end == first + tail
      && Stops(tail) && SkipSpace(tail) == tail && Starts(tail, COMMA) && SkipSpace(tail[1..]) == more + end
  {
    hide Break;
    var tail := [COMMA] + (Break(l) + (more + end));
    assert tail[0] == COMMA && tail[1..] == Break(l) + (more + end);
    hide SkipSpace;
    SkipBreak(l, more + end);
    CommaStays(tail);
  }

  lemma CommaStays(s: Str)
    requires Starts(s, COMMA)
    ensures SkipSpace(s) == s
  {
  }

  /** What follows the first of several printed items. */
  function ItemsTail(items: seq<Raw>, l: Layout, end: Str): Str
    requires |items| > 1
  {
    [COMMA] + (Break(l) + (PrintItems(items[1..], l) + end))
  }

  lemma ItemsScan(items: seq<Raw>, l: Layout, end: Str)
    requires |items| > 1 && (items[1].Float? ==> FloatText(items[1].text))
    ensures var tail := ItemsTail(items, l, end);
      && PrintItems(items, l) + end == Print(items[0], l) + tail
      && Stops(tail) && SkipSpace(tail) == tail && Starts(tail, COMMA)
      && SkipSpace(tail[1..]) == PrintItems(items[1..], l) + end
  {
    hide Print, Break, SkipSpace, StartsValue, FloatText, Stops;
    var more := PrintItems(items[1..], l);
    assert PrintItems(items, l) == Print(items[0], l) + [COMMA] + Break(l) + more;
    hide PrintItems;
    ItemsStart(items[1..], l, end);
    CommaScan(Print(items[0], l), l, more, end);
  }

  /** What follows the first of several printed members. */
  function MembersTail(members: seq<Member>, l: Layout, end: Str): Str
    requires |members| > 1
  {
    [COMMA] + (Break(l) + (PrintMembers(members[1..], l) + end))
  }

  lemma MembersScan(members: seq<Member>, l: Layout, end: Str)
    requires |members| > 1
    ensures var tail := MembersTail(members, l, end);
      && PrintMembers(members, l) + end == PrintMember(members[0], l) + tail
      && Stops(tail) && SkipSpace(tail) == tail && Starts(tail, COMMA)
      && SkipSpace(tail[1..]) == PrintMembers(members[1..], l) + end
  {
    hide PrintMember, Break, SkipSpace, StartsValue, Stops;
    var more := PrintMembers(members[1..], l);
    assert PrintMembers(members, l) == PrintMember(members[0], l) + [COMMA] + Break(l) + more;
    hide PrintMembers;
    MembersStart(members[1..], l, end);
    CommaScan(PrintMember(members[0], l), l, more, end);
  }

  /** What the parser makes of a printed member, by its value. */
  lemma MemberScan(m: Member, l: Layout, rest: Str)
    requires (l.ascii ==> NoSplitPair(m.name)) && (m.value.Float? ==> FloatText(m.value.text))
    ensures ParseMember(PrintMember(m, l) + rest) ==
      match ParseValue(Print(m.value, l) + rest) case Fail => Fail
        case Got(value, end) => Got(Member(m.name, value), end)
  {
    hide ParseValue, ScanString, Escape, NoSplitPair, Print, FloatText, StartsValue, SkipSpace;
    var s, value := PrintMember(m, l) + rest, Print(m.value, l) + rest;
    assert s[0] == QUOTE && s[1..] == Escape(m.name, l.ascii) + [QUOTE] + (Colon(l) + value);
    StringRoundTrip(m.name, l.ascii, Colon(l) + value);
    PrintStarts(m.value, l, rest);
    ColonScan(l, value);
  }

  lemma ColonScan(l: Layout, value: Str)
    requires StartsValue(value)
    ensures var s := Colon(l) + value;
      SkipSpace(s) == s && s[0] == COLON && SkipSpace(s[1..]) == value
  {
    var s := Colon(l) + value;
    if l.indent.None? {
      assert s[1..] == value;
    } else {
      assert s[1..] == [SPACE] + value && ([SPACE] + value)[1..] == value;
    }
  }

  /** Every printable value is read back from its text, however it is laid out. */
  lemma {:induction false} ValueRoundTrip(v: Raw, l: Layout, rest: Str)
    requires Printable(v, l.ascii) && Stops(rest)
    ensures ParseValue(Print(v, l) + rest) == Got(v, rest)
    decreases v, 1
  {
    hide ParseValue, ParseItems, ParseMembers, FloatLiteral, Stops, SkipSpace, Break, PrintItems, PrintMembers;
    hide NoSplitPair;
    match v
    case Null => LiteralScan(v, l, rest);
    case Bool(b) => LiteralScan(v, l, rest);
    case Int(n) => IntScan(n, rest);
    case Float(text) => FloatScan(text, rest);
    case String(text) => StringScan(text, l.ascii, rest);
    case Array(items) =>
      if items == [] {
        EmptyScan(l, rest);
      } else {
        assert Printable(items[0], l.ascii);
        BreakStops(l, CLOSE_BRACKET, rest);
        ArrayScan(items, l, rest);
        ItemsRoundTrip(items, Deeper(l), Break(l) + [CLOSE_BRACKET] + rest, rest);
      }
    case Object(members) =>
      if members == [] {
        EmptyScan(l, rest);
      } else {
        BreakStops(l, CLOSE_BRACE, rest);
        ObjectScan(members, l, rest);
        MembersRoundTrip(members, Deeper(l), Break(l) + [CLOSE_BRACE] + rest, rest);
      }
  }

  lemma OneItem(items: seq<Raw>, l: Layout)
    requires |items| == 1
    ensures PrintItems(items, l) == Print(items[0], l)
  {
  }

  lemma OneMember(members: seq<Member>, l: Layout)
    requires |members| == 1
    ensures PrintMembers(members, l) == PrintMember(members[0], l)
  {
  }

  lemma {:induction false} ItemsRoundTrip(items: seq<Raw>, l: Layout, end: Str, rest: Str)
    requires items != [] && forall i :: 0 <= i < |items| ==> Printable(items[i], l.ascii)
    requires Stops(end) && SkipSpace(end) == [CLOSE_BRACKET] + rest
    ensures ParseItems(PrintItems(items, l) + end) == Got(items, rest)
    decreases items, 0
  {
    hide ParseValue, Print, ItemsTail, PrintItems, SkipSpace, Stops, FloatLiteral, NoSplitPair;
    if |items| == 1 {
      OneItem(items, l);
      ValueRoundTrip(items[0], l, end);
      assert ([CLOSE_BRACKET] + rest)[1..] == rest;
      assert items == [items[0]];
    } else {
      assert Printable(items[1], l.ascii);
      ItemsScan(items, l, end);
      var tail := ItemsTail(items, l, end);
      ValueRoundTrip(items[0], l, tail);
      ItemsRoundTrip(items[1..], l, end, rest);
      assert items == [items[0]] + items[1..];
    }
  }

  lemma {:induction false} MembersRoundTrip(members: seq<Member>, l: Layout, end: Str, rest: Str)
    requires members != [] && forall i :: 0 <= i < |members| ==> PrintableMember(members[i], l.ascii)
    requires Stops(end) && SkipSpace(end) == [CLOSE_BRACE] + rest
    ensures ParseMembers(PrintMembers(members, l) + end) == Got(members, rest)
    decreases members, 0
  {
    hide ParseMember, PrintMember, MembersTail, PrintMembers, SkipSpace, Stops, PrintableMember;
    assert PrintableMember(members[0], l.ascii);
    if |members| == 1 {
      OneMember(members, l);
      MemberRoundTrip(members[0], l, end);
      assert ([CLOSE_BRACE] + rest)[1..] == rest;
      assert members == [members[0]];
    } else {
      MembersScan(members, l, end);
      var tail := MembersTail(members, l, end);
      MemberRoundTrip(members[0], l, tail);
      MembersRoundTrip(members[1..], l, end, rest);
      assert members == [members[0]] + members[1..];
    }
  }

  lemma {:induction false} MemberRoundTrip(m: Member, l: Layout, rest: Str)
    requires PrintableMember(m, l.ascii) && Stops(rest)
    ensures ParseMember(PrintMember(m, l) + rest) == Got(m, rest)
    decreases m, 0
  {
    hide ParseValue, ParseMember, PrintMember, NoSplitPair, FloatLiteral, Stops;
    MemberScan(m, l, rest);
    ValueRoundTrip(m.value, l, rest);
  }

  /** `json.loads(json.dumps(v)) == v`, down to the text, with or without a final line break. */
  lemma TextRoundTrip(v: Raw, l: Layout)
    requires Printable(v, l.ascii)
    ensures Loads(Print(v, l)) == Some(v)
    ensures Loads(Print(v, l) + [NEWLINE]) == Some(v)
  {
    hide Printable, Print, ParseValue, Starts;
    LoadsValue(v, l, []);
    LoadsValue(v, l, [NEWLINE]);
    ValueRoundTrip(v, l, []);
    ValueRoundTrip(v, l, [NEWLINE]);
    assert Print(v, l) + [] == Print(v, l);
    var end: Str := [NEWLINE];
    assert end[1..] == [];
  }

  lemma LoadsValue(v: Raw, l: Layout, rest: Str)
    requires Printable(v, l.ascii) || Written(v)
    ensures Loads(Print(v, l) + rest) ==
      match ParseValue(Print(v, l) + rest)
      case Fail => None
      case Got(value, end) => if SkipSpace(end) == [] then Some(value) else None
  {
    hide Print, ParseValue, FloatLiteral;
    PrintStarts(v, l, rest);
  }

  // ---- infinite floats -------------------------------------------------------------------------------

  /** Every float is the text of a finite or an infinite one. */
  predicate Written(v: Raw)
    decreases v, 1
  {
    match v
    case Float(text) => FloatText(text)
    case Array(items) => forall i :: 0 <= i < |items| ==> Written(items[i])
    case Object(members) => forall i :: 0 <= i < |members| ==> WrittenMember(members[i])
    case _ => true
  }

  predicate WrittenMember(m: Member)
    decreases m, 0
  {
    Written(m.value)
  }

  lemma NoDigitFails(u: Str, negative: bool)
    requires u != [] && !IsDigit(u[0])
    ensures ParseUnsigned(u, negative) == Fail
  {
    hide FractionLength, ExponentLength, NatValue;
  }

  lemma {:induction false} PrintableWritten(v: Raw, ascii: bool)
    requires Printable(v, ascii)
    ensures Written(v)
    decreases v, 1
  {
    hide FloatLiteral, NoSplitPair;
    match v
    case Array(items) =>
      forall i | 0 <= i < |items| ensures Written(items[i]) { PrintableWritten(items[i], ascii); }
    case Object(members) =>
      forall i | 0 <= i < |members| ensures WrittenMember(members[i]) {
        assert PrintableMember(members[i], ascii);
        MemberWritten(members[i], ascii);
      }
    case _ =>
  }

  lemma {:induction false} MemberWritten(m: Member, ascii: bool)
    requires PrintableMember(m, ascii)
    ensures WrittenMember(m)
    decreases m, 0
  {
    PrintableWritten(m.value, ascii);
  }

  lemma InfinityScan(text: Str, rest: Str)
    requires Infinite(text)
    ensures ParseValue(text + rest) == Fail
  {
    InfinityInitial();
    hide ParseValue, ParseUnsigned, U;
    hide INFINITY;
    var s := text + rest;
    NoDigitFails(INFINITY + rest, text != INFINITY);
    if text == INFINITY {
      assert s[0] == 'I' as int;
    } else {
      assert s[0] == MINUS && s[1..] == INFINITY + rest;
    }
    NumberStarts(s);
  }

  lemma InfinityInitial()
    ensures INFINITY != [] && INFINITY[0] == 'I' as int && !IsDigit(INFINITY[0])
  {
  }

  /** A written text with an infinite float anywhere cannot be read. */
  lemma {:induction false} InfinityUnreadable(v: Raw, l: Layout, rest: Str)
    requires Written(v) && !l.ascii && !Printable(v, false) && Stops(rest)
    ensures ParseValue(Print(v, l) + rest) == Fail
    decreases v, 1
  {
    hide ParseValue, ParseItems, ParseMembers, FloatLiteral, Infinite, Stops, SkipSpace, Break, PrintItems;
    hide PrintMembers;
    match v
    case Float(text) => InfinityScan(text, rest);
    case Array(items) =>
      assert Written(items[0]);
      BreakStops(l, CLOSE_BRACKET, rest);
      ArrayScan(items, l, rest);
      ItemsUnreadable(items, Deeper(l), Break(l) + [CLOSE_BRACKET] + rest);
    case Object(members) =>
      BreakStops(l, CLOSE_BRACE, rest);
      ObjectScan(members, l, rest);
      MembersUnreadable(members, Deeper(l), Break(l) + [CLOSE_BRACE] + rest);
    case _ =>
  }

  lemma {:induction false} ItemsUnreadable(items: seq<Raw>, l: Layout, end: Str)
    requires !l.ascii && (forall i :: 0 <= i < |items| ==> Written(items[i]))
    requires exists i :: 0 <= i < |items| && !Printable(items[i], false)
    requires Stops(end)
    ensures ParseItems(PrintItems(items, l) + end) == Fail
    decreases items, 0
  {
    hide ParseValue, Print, ItemsTail, PrintItems, SkipSpace, Stops, Printable, Written;
    if |items| == 1 {
      OneItem(items, l);
      InfinityUnreadable(items[0], l, end);
    } else {
      ItemFloats(items[1]);
      ItemsScan(items, l, end);
      var tail := ItemsTail(items, l, end);
      if Printable(items[0], false) {
        ValueRoundTrip(items[0], l, tail);
        var i :| 0 <= i < |items| && !Printable(items[i], false);
        assert items[1..][i - 1] == items[i];
        ItemsUnreadable(items[1..], l, end);
      } else {
        InfinityUnreadable(items[0], l, tail);
      }
    }
  }

  lemma ItemFloats(v: Raw)
    requires Written(v)
    ensures v.Float? ==> FloatText(v.text)
  {
  }

  lemma {:induction false} MembersUnreadable(members: seq<Member>, l: Layout, end: Str)
    requires !l.ascii && (forall i :: 0 <= i < |members| ==> WrittenMember(members[i]))
    requires exists i :: 0 <= i < |members| && !PrintableMember(members[i], false)
    requires Stops(end)
    ensures ParseMembers(PrintMembers(members, l) + end) == Fail
    decreases members, 0
  {
    hide ParseMember, PrintMember, MembersTail, PrintMembers, SkipSpace, Stops, PrintableMember, WrittenMember;
    assert WrittenMember(members[0]);
    if |members| == 1 {
      OneMember(members, l);
      MemberUnreadable(members[0], l, end);
    } else {
      MembersScan(members, l, end);
      var tail := MembersTail(members, l, end);
      if PrintableMember(members[0], false) {
        MemberRoundTrip(members[0], l, tail);
        var i :| 0 <= i < |members| && !PrintableMember(members[i], false);
        assert members[1..][i - 1] == members[i];
        MembersUnreadable(members[1..], l, end);
      } else {
        MemberUnreadable(members[0], l, tail);
      }
    }
  }

  lemma {:induction false} MemberUnreadable(m: Member, l: Layout, rest: Str)
    requires WrittenMember(m) && !l.ascii && !PrintableMember(m, false) && Stops(rest)
    ensures ParseMember(PrintMember(m, l) + rest) == Fail
    decreases m, 0
  {
    hide ParseValue, ParseMember, PrintMember, FloatLiteral, Infinite, Stops;
    MemberScan(m, l, rest);
    InfinityUnreadable(m.value, l, rest);
  }

  // ---- ensure_ascii and UTF-8 ----------------------------------------------------------------------

  lemma {:induction false} EscapeIsAscii(s: Str)
    ensures Ascii(Escape(s, true))
  {
    if s != [] {
      EscapeIsAscii(s[1..]);
      assert Ascii(EscapeCode(s[0], true));
    }
  }

  lemma {:induction false} SpacesAscii(n: nat)
    ensures Ascii(Spaces(n))
  {
    if n > 0 { SpacesAscii(n - 1); }
  }

  lemma BreakAscii(l: Layout)
    ensures Ascii(Break(l)) && Ascii(Colon(l))
  {
    if l.indent.Some? { SpacesAscii(l.indent.value); }
  }

  lemma InfinityAscii()
    ensures Ascii(INFINITY)
  {
    var s := "Infinity";
    forall i | 0 <= i < |s| ensures U(s)[i] < 0x80 { assert s[i] in s; }
  }

  lemma FloatAscii(text: Str)
    requires FloatText(text)
    ensures Ascii(text)
  {
    hide FloatLiteral, U;
    InfinityAscii();
    if FloatLiteral(text) { LiteralAscii(text); }
  }

  /** No string or name in the value holds a surrogate. */
  predicate Clean(v: Raw)
    decreases v, 1
  {
    match v
    case String(text) => NoSurrogate(text)
    case Array(items) => forall i :: 0 <= i < |items| ==> Clean(items[i])
    case Object(members) => forall i :: 0 <= i < |members| ==> CleanMember(members[i])
    case _ => true
  }

  predicate CleanMember(m: Member)
    decreases m, 0
  {
    NoSurrogate(m.name) && Clean(m.value)
  }

  /** What a text is checked for: code points below 0x80, or only that none is a surrogate. */
  predicate Fits(s: Str, ascii: bool) {
    if ascii then Ascii(s) else NoSurrogate(s)
  }

  lemma FitsConcat(a: Str, b: Str, ascii: bool)
    ensures Fits(a + b, ascii) <==> Fits(a, ascii) && Fits(b, ascii)
  {
    assert forall i :: 0 <= i < |a| ==> (a + b)[i] == a[i];
    assert forall i :: 0 <= i < |b| ==> (a + b)[|a| + i] == b[i];
  }

  lemma AsciiFits(s: Str, ascii: bool)
    requires Ascii(s)
    ensures Fits(s, ascii)
  {
  }

  lemma {:induction false} QuotedFits(s: Str, ascii: bool)
    ensures Fits(Quoted(s, ascii), ascii) <==> ascii || NoSurrogate(s)
  {
    var open: Str := [QUOTE];
    AsciiFits(open, ascii);
    FitsConcat(open, Escape(s, ascii), ascii);
    FitsConcat(open + Escape(s, ascii), open, ascii);
    if ascii { EscapeIsAscii(s); } else { EscapeFits(s); }
  }

  lemma {:induction false} EscapeFits(s: Str)
    ensures NoSurrogate(Escape(s, false)) <==> NoSurrogate(s)
  {
    hide EscapeCode;
    if s != [] {
      EscapeFits(s[1..]);
      CodeFits(s[0]);
      NoSurrogateConcat(EscapeCode(s[0], false), Escape(s[1..], false));
      assert s == [s[0]] + s[1..];
      NoSurrogateConcat([s[0]], s[1..]);
    }
  }

  lemma CodeFits(c: Code)
    ensures NoSurrogate(EscapeCode(c, false)) <==> NoSurrogate([c])
  {
  }

  /**
   * Exactly a value without surrogates gives a text that can be encoded as UTF-8; with `ensure_ascii` every text is
   * ASCII.
   */
  lemma {:induction false} PrintFits(v: Raw, l: Layout)
    requires Written(v)
    ensures Fits(Print(v, l), l.ascii) <==> l.ascii || Clean(v)
    decreases v, 1
  {
    hide Fits, FloatText, Ascii, NoSurrogate, Quoted, Break, PrintItems, PrintMembers;
    match v
    case Null => WordAscii(v, l);
    case Bool(b) => WordAscii(v, l);
    case Int(n) => WordAscii(v, l);
    case Float(text) => FloatAscii(text); AsciiFits(text, l.ascii);
    case String(text) => QuotedFits(text, l.ascii);
    case Array(items) =>
      if items == [] { WordAscii(v, l); } else {
        ItemsFit(items, Deeper(l));
        WrapFits(OPEN_BRACKET, PrintItems(items, Deeper(l)), CLOSE_BRACKET, l);
      }
    case Object(members) =>
      if members == [] { WordAscii(v, l); } else {
        MembersFit(members, Deeper(l));
        WrapFits(OPEN_BRACE, PrintMembers(members, Deeper(l)), CLOSE_BRACE, l);
      }
  }

  lemma WordAscii(v: Raw, l: Layout)
    requires v.Null? || v.Bool? || v.Int? || v == Array([]) || v == Object([])
    ensures Fits(Print(v, l), l.ascii)
  {
    if v.Int? { assert Ascii(NatText(if v.n < 0 then -v.n else v.n)); }
    assert Ascii(Print(v, l));
  }

  lemma WrapFits(open: Code, body: Str, close: Code, l: Layout)
    requires open < 0x80 && close < 0x80
    ensures Fits([open] + Break(Deeper(l)) + body + Break(l) + [close], l.ascii) <==> Fits(body, l.ascii)
  {
    hide Break;
    var head, tail := [open] + Break(Deeper(l)), Break(l) + [close];
    BreakAscii(Deeper(l));
    BreakAscii(l);
    assert Ascii(head) && Ascii(tail);
    AsciiFits(head, l.ascii);
    AsciiFits(tail, l.ascii);
    FitsConcat(head, body, l.ascii);
    FitsConcat(head + body, tail, l.ascii);
    assert head + body + tail == [open] + Break(Deeper(l)) + body + Break(l) + [close];
  }

  lemma JoinFits(first: Str, rest: Str, l: Layout)
    ensures Fits(first + [COMMA] + Break(l) + rest, l.ascii) <==> Fits(first, l.ascii) && Fits(rest, l.ascii)
  {
    hide Break;
    BreakAscii(l);
    var separator := [COMMA] + Break(l);
    assert Ascii(separator);
    AsciiFits(separator, l.ascii);
    FitsConcat(first, separator, l.ascii);
    FitsConcat(first + separator, rest, l.ascii);
    assert first + separator + rest == first + [COMMA] + Break(l) + rest;
  }

  lemma {:induction false} ItemsFit(items: seq<Raw>, l: Layout)
    requires items != [] && forall i :: 0 <= i < |items| ==> Written(items[i])
    ensures Fits(PrintItems(items, l), l.ascii) <==> l.ascii || forall i :: 0 <= i < |items| ==> Clean(items[i])
    decreases items, 0
  {
    hide Fits, Break, Print, Clean, Written;
    PrintFits(items[0], l);
    if |items| > 1 {
      ItemsFit(items[1..], l);
      JoinFits(Print(items[0], l), PrintItems(items[1..], l), l);
      assert forall i :: 1 <= i < |items| ==> items[i] == items[1..][i - 1];
      assert forall i :: 0 <= i < |items[1..]| ==> items[1..][i] == items[i + 1];
    }
  }

  lemma {:induction false} MembersFit(members: seq<Member>, l: Layout)
    requires members != [] && forall i :: 0 <= i < |members| ==> WrittenMember(members[i])
    ensures Fits(PrintMembers(members, l), l.ascii) <==>
      l.ascii || forall i :: 0 <= i < |members| ==> CleanMember(members[i])
    decreases members, 0
  {
    hide Fits, Break, PrintMember, CleanMember, WrittenMember;
    MemberFits(members[0], l);
    if |members| > 1 {
      MembersFit(members[1..], l);
      JoinFits(PrintMember(members[0], l), PrintMembers(members[1..], l), l);
      assert forall i :: 1 <= i < |members| ==> members[i] == members[1..][i - 1];
      assert forall i :: 0 <= i < |members[1..]| ==> members[1..][i] == members[i + 1];
    }
  }

  lemma {:induction false} MemberFits(m: Member, l: Layout)
    requires WrittenMember(m)
    ensures Fits(PrintMember(m, l), l.ascii) <==> l.ascii || CleanMember(m)
    decreases m, 0
  {
    hide Fits, Print, Quoted, NoSurrogate, Clean, Written;
    PrintFits(m.value, l);
    QuotedFits(m.name, l.ascii);
    BreakAscii(l);
    AsciiFits(Colon(l), l.ascii);
    FitsConcat(Quoted(m.name, l.ascii), Colon(l), l.ascii);
    FitsConcat(Quoted(m.name, l.ascii) + Colon(l), Print(m.value, l), l.ascii);
  }
}
