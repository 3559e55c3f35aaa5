/** The text Python writes for a JSON value, character by character. */
module JsonText {
  import opened Ordering
  import opened Text
  import opened Json

  /** The texts with a separator in between. */
  function Separated(texts: seq<Str>, separator: Str): Str {
    if texts == [] then []
    else if |texts| == 1 then texts[0]
    else texts[0] + separator + Separated(texts[1..], separator)
  }

  /** A new line with `k` more spaces than the line of the value, or nothing when the text is compact. */
  function NewLine(l: Layout, k: nat): Str {
    match l.indent case None => [] case Some(n) => [0x0A] + seq(n + k, _ => 0x20)
  }

  function Inner(l: Layout): Layout {
    match l.indent case None => l case Some(n) => Layout(l.ascii, Some(n + 2))
  }

  function Written(l: Layout): Raw -> Str {
    (v: Raw) => Print(v, l)
  }

  /** A member: its name in quotes, a colon, a space when the text is indented, and its value. */
  function WrittenMember(l: Layout): Member -> Str {
    (m: Member) => Quoted(m.name, l.ascii) + U(if l.indent.None? then ":" else ": ") + Print(m.value, l)
  }

  lemma {:induction false} SpacesAre(n: nat)
    ensures Spaces(n) == seq(n, _ => 0x20)
  {
    if n > 0 { SpacesAre(n - 1); }
  }

  lemma LayoutMeaning(l: Layout)
    ensures Deeper(l) == Inner(l) && Break(l) == NewLine(l, 0) && Break(Deeper(l)) == NewLine(l, 2)
    ensures Colon(l) == U(if l.indent.None? then ":" else ": ")
  {
    match l.indent
    case None =>
    case Some(n) =>
      SpacesAre(n);
      SpacesAre(n + 2);
  }

  lemma {:induction false} ItemsText(items: seq<Raw>, l: Layout)
    ensures PrintItems(items, l) == Separated(Map(Written(l), items), U(",") + Break(l))
  {
    hide Print, Break;
    if |items| > 1 {
      ItemsText(items[1..], l);
      assert Map(Written(l), items)[1..] == Map(Written(l), items[1..]) && U(",") == [COMMA];
    }
  }

  lemma {:induction false} MembersText(members: seq<Member>, l: Layout)
    ensures PrintMembers(members, l) == Separated(Map(WrittenMember(l), members), U(",") + Break(l))
  {
    hide Print, Break, Colon, Quoted;
    LayoutMeaning(l);
    if |members| > 1 {
      MembersText(members[1..], l);
      assert Map(WrittenMember(l), members)[1..] == Map(WrittenMember(l), members[1..]) && U(",") == [COMMA];
    }
  }

  /**
   * The text of a value: a word, a number, a string in quotes, or a list or an object with its parts separated by
   * commas and, when it is indented, each on a line of its own, two spaces deeper.
   */
  lemma TextMeaning(v: Raw, l: Layout)
    ensures Print(v, l) ==
      match v
      case Null => U("null")
      case Bool(b) => U(if b then "true" else "false")
      case Int(n) => IntText(n)
      case Float(text) => text
      case String(text) => Quoted(text, l.ascii)
      case Array(items) =>
        if items == [] then U("[]")
        else
          U("[") + NewLine(l, 2) + Separated(Map(Written(Inner(l)), items), U(",") + NewLine(l, 2)) + NewLine(l, 0)
            + U("]")
      case Object(members) =>
        if members == [] then U("{}")
        else
          U("{") + NewLine(l, 2) + Separated(Map(WrittenMember(Inner(l)), members), U(",") + NewLine(l, 2))
            + NewLine(l, 0) + U("}")
  {
    hide PrintItems, PrintMembers, Separated, Quoted, IntText, NewLine, Break, WrittenMember, Written;
    LayoutMeaning(l);
    Brackets();
    match v
    case Array(items) => ItemsText(items, Deeper(l));
    case Object(members) => MembersText(members, Deeper(l));
    case _ =>
  }

  lemma Brackets()
    ensures U("[") == [OPEN_BRACKET] && U("]") == [CLOSE_BRACKET] && U("[]") == [OPEN_BRACKET, CLOSE_BRACKET]
    ensures U("{") == [OPEN_BRACE] && U("}") == [CLOSE_BRACE] && U("{}") == [OPEN_BRACE, CLOSE_BRACE]
  {
  }

  function Flat(texts: seq<Str>): Str {
    if texts == [] then [] else texts[0] + Flat(texts[1..])
  }

  function Escaped(ascii: bool): Code -> Str {
    (c: Code) => EscapeCode(c, ascii)
  }

  lemma {:induction false} EscapeFlat(s: Str, ascii: bool)
    ensures Escape(s, ascii) == Flat(Map(Escaped(ascii), s))
  {
    hide EscapeCode;
    if s != [] {
      EscapeFlat(s[1..], ascii);
      assert Map(Escaped(ascii), s)[1..] == Map(Escaped(ascii), s[1..]);
    }
  }

  /** A string is written between quotes, code point by code point. */
  lemma StringText(s: Str, ascii: bool)
    ensures Quoted(s, ascii) == U("\"") + Flat(Map(Escaped(ascii), s)) + U("\"")
  {
    hide EscapeCode, Escape;
    EscapeFlat(s, ascii);
    assert U("\"") == [QUOTE];
  }

  /** A literal that is written as it is. */
  predicate PlainLiteral(s: string) {
    forall i :: 0 <= i < |s| ==> ' ' <= s[i] <= '~' && s[i] != '"' && s[i] != '\\'
  }

  lemma PlainCode(c: char, ascii: bool)
    requires ' ' <= c <= '~' && c != '"' && c != '\\'
    ensures EscapeCode(c as int, ascii) == [c as int]
  {
  }

  lemma {:induction false} PlainIsWritten(s: string, ascii: bool)
    requires PlainLiteral(s)
    ensures Escape(U(s), ascii) == U(s)
  {
    hide EscapeCode;
    if s != "" {
      PlainCode(s[0], ascii);
      PlainIsWritten(s[1..], ascii);
      assert U(s)[1..] == U(s[1..]) && U(s) == [s[0] as int] + U(s[1..]);
    }
  }

  lemma QuotedLiteral(s: string, ascii: bool, text: string)
    requires PlainLiteral(s) && text == "\"" + s + "\""
    ensures Quoted(U(s), ascii) == U(text)
  {
    PlainIsWritten(s, ascii);
    assert U("\"") == [QUOTE];
    hide U, Escape;
    Joined("\"", s);
    Joined("\"" + s, "\"");
  }

  /** The hexadecimal digit of a number below 16. */
  function Digit(d: nat): Code
    requires d < 16
  {
    U("0123456789abcdef")[d]
  }

  /** Four hexadecimal digits behind a backslash and a `u`. */
  function Unit(c: nat): Str
    requires c < 0x10000
  {
    U("\\u") + [Digit(c / 0x1000), Digit(c / 0x100 % 0x10), Digit(c / 0x10 % 0x10), Digit(c % 0x10)]
  }

  lemma DigitMeaning(d: nat)
    requires d < 16
    ensures HexChar(d) == Digit(d)
  {
    assert d == 0 || d == 1 || d == 2 || d == 3 || d == 4 || d == 5 || d == 6 || d == 7 || d == 8 || d == 9 || d == 10
      || d == 11 || d == 12 || d == 13 || d == 14 || d == 15;
  }

  lemma UnitMeaning(c: nat)
    requires c < 0x10000
    ensures UnicodeEscape(c) == Unit(c)
  {
    hide HexChar, Digit;
    DigitMeaning(c / 0x1000);
    DigitMeaning(c / 0x100 % 0x10);
    DigitMeaning(c / 0x10 % 0x10);
    DigitMeaning(c % 0x10);
  }

  /**
   * How a code point is written: quotes, backslashes and control characters escaped, and beyond ASCII either as it is
   * or as one or two units of UTF-16.
   */
  lemma EscapeMeaning(c: Code, ascii: bool)
    ensures EscapeCode(c, ascii) ==
      if c == 0x22 then U("\\\"")
      else if c == 0x5C then U("\\\\")
      else if c == 0x08 then U("\\b")
      else if c == 0x0C then U("\\f")
      else if c == 0x0A then U("\\n")
      else if c == 0x0D then U("\\r")
      else if c == 0x09 then U("\\t")
      else if c < 0x20 then Unit(c)
      else if !ascii || c < 0x7F then [c]
      else if c < 0x10000 then Unit(c)
      else Unit(0xD800 + (c - 0x10000) / 0x400) + Unit(0xDC00 + (c - 0x10000) % 0x400)
  {
    hide UnicodeEscape, Unit;
    if c < 0x10000 { UnitMeaning(c); } else {
      UnitMeaning(0xD800 + (c - 0x10000) / 0x400);
      UnitMeaning(0xDC00 + (c - 0x10000) % 0x400);
    }
  }

  /** Decimal digits, the highest first and no zero before it. */
  lemma DecimalText(n: int, d: nat)
    requires n >= 0 && d < 10
    ensures IntText(d) == [0x30 + d]
    ensures n > 0 ==> IntText(10 * n + d) == IntText(n) + [0x30 + d] && IntText(-n) == U("-") + IntText(n)
  {
    assert U("-") == [MINUS];
  }
}
