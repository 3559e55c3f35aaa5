/** The grammar of JSON texts, RFC 8259, and that the strict scanner reads exactly its sentences. */
module JsonGrammar {
  import opened Ordering
  import opened Text
  import opened Json

  // ---- strings -------------------------------------------------------------------------------------

  /** What a string is made of: a plain code point, an escaping letter, or a code unit in hexadecimal. */
  datatype Piece = Plain(c: Code) | Letter(letter: Code) | Unit(hex: Str)

  predicate HexDigit(c: Code) {
    0x30 <= c <= 0x39 || 0x61 <= c <= 0x66 || 0x41 <= c <= 0x46
  }

  predicate ValidPiece(p: Piece) {
    match p
    case Plain(c) => c >= 0x20 && c != 0x22 && c != 0x5C
    case Letter(c) => c in U("\"\\/bfnrt")
    case Unit(hex) => |hex| == 4 && HexDigit(hex[0]) && HexDigit(hex[1]) && HexDigit(hex[2]) && HexDigit(hex[3])
  }

  predicate ValidPieces(ps: seq<Piece>) {
    forall i :: 0 <= i < |ps| ==> ValidPiece(ps[i])
  }

  function PieceText(p: Piece): Str {
    match p
    case Plain(c) => [c]
    case Letter(c) => [0x5C, c]
    case Unit(hex) => [0x5C, 0x75] + hex
  }

  function PiecesText(ps: seq<Piece>): Str {
    if ps == [] then [] else PieceText(ps[0]) + PiecesText(ps[1..])
  }

  function DigitValue(c: Code): (r: int)
    requires HexDigit(c)
    ensures 0 <= r < 0x10
  {
    if c <= 0x39 then c - 0x30 else if c >= 0x61 then c - 0x61 + 10 else c - 0x41 + 10
  }

  function UnitValue(p: Piece): (r: int)
    requires p.Unit? && ValidPiece(p)
    ensures 0 <= r < 0x10000
  {
    DigitValue(p.hex[0]) * 0x1000 + DigitValue(p.hex[1]) * 0x100 + DigitValue(p.hex[2]) * 0x10 + DigitValue(p.hex[3])
  }

  /** The code point a piece stands for by itself. */
  function PieceCode(p: Piece): Code
    requires ValidPiece(p)
  {
    match p
    case Plain(c) => c
    case Unit(_) => UnitValue(p)
    case Letter(c) =>
      if c == 0x62 then 0x08 else if c == 0x66 then 0x0C else if c == 0x6E then 0x0A else if c == 0x72 then 0x0D
      else if c == 0x74 then 0x09 else c
  }

  /** The first two pieces are the units of a surrogate pair. */
  predicate Paired(ps: seq<Piece>)
    requires ValidPieces(ps)
  {
    && |ps| >= 2 && ps[0].Unit? && ps[1].Unit?
    && 0xD800 <= UnitValue(ps[0]) < 0xDC00 && 0xDC00 <= UnitValue(ps[1]) < 0xE000
  }

  /** The text the pieces stand for. */
  function Codes(ps: seq<Piece>): Str
    requires ValidPieces(ps)
    decreases |ps|
  {
    if ps == [] then []
    else if Paired(ps) then
      [0x10000 + (UnitValue(ps[0]) - 0xD800) * 0x400 + (UnitValue(ps[1]) - 0xDC00)] + Codes(ps[2..])
    else [PieceCode(ps[0])] + Codes(ps[1..])
  }

  lemma HexMeaning(c: Code)
    ensures HexValue(c) == if HexDigit(c) then Some(DigitValue(c)) else None
  {
  }

  lemma UnitMeaning(hex: Str, rest: Str)
    ensures |hex| == 4 ==> Hex4(hex + rest) == if ValidPiece(Unit(hex)) then Some(UnitValue(Unit(hex))) else None
  {
    if |hex| == 4 {
      var s := hex + rest;
      assert s[0] == hex[0] && s[1] == hex[1] && s[2] == hex[2] && s[3] == hex[3];
      HexMeaning(hex[0]);
      HexMeaning(hex[1]);
      HexMeaning(hex[2]);
      HexMeaning(hex[3]);
    }
  }

  lemma LetterMeaning(c: Code)
    ensures c in U("\"\\/bfnrt") <==> ShortMeaning(c).Some?
    ensures ShortMeaning(c).Some? ==> c != 0x75 && ShortMeaning(c) == Some(PieceCode(Letter(c)))
  {
    var letters := U("\"\\/bfnrt");
    assert letters[0] == 0x22 && letters[1] == 0x5C && letters[2] == 0x2F && letters[3] == 0x62 && letters[4] == 0x66;
    assert letters[5] == 0x6E && letters[6] == 0x72 && letters[7] == 0x74 && |letters| == 8;
  }

  // ---- scanning a string -----------------------------------------------------------------------------

  lemma ScanLetter(c: Code, tail: Str)
    requires ValidPiece(Letter(c))
    ensures ScanString(PieceText(Letter(c)) + tail) == Prepend(PieceCode(Letter(c)), ScanString(tail))
  {
    LetterMeaning(c);
    var s := PieceText(Letter(c)) + tail;
    assert s[0] == BACKSLASH && s[1] == c && s[2..] == tail;
    hide PieceCode, ShortMeaning;
  }

  lemma UnitParts(hex: Str, tail: Str)
    requires |hex| == 4
    ensures var s := PieceText(Unit(hex)) + tail;
      |s| >= 6 && s[0] == BACKSLASH && s[1] == LOWER_U && s[2..] == hex + tail && s[6..] == tail
  {
  }

  lemma ScanUnitPiece(p: Piece, tail: Str)
    requires p.Unit? && ValidPiece(p) && (HighSurrogate(UnitValue(p)) ==> LowAhead(tail).None?)
    ensures ScanString(PieceText(p) + tail) == Prepend(PieceCode(p), ScanString(tail))
  {
    hide Hex4, LowAhead, PieceText;
    UnitParts(p.hex, tail);
    UnitMeaning(p.hex, tail);
  }

  lemma ScanPairPieces(p: Piece, q: Piece, tail: Str)
    requires p.Unit? && ValidPiece(p) && q.Unit? && ValidPiece(q)
    requires HighSurrogate(UnitValue(p)) && LowSurrogate(UnitValue(q))
    ensures ScanString(PieceText(p) + (PieceText(q) + tail))
      == Prepend(0x10000 + (UnitValue(p) - 0xD800) * 0x400 + (UnitValue(q) - 0xDC00), ScanString(tail))
  {
    hide Hex4, PieceText, HexDigit;
    var next := PieceText(q) + tail;
    var s := PieceText(p) + next;
    UnitParts(p.hex, next);
    UnitParts(q.hex, tail);
    UnitMeaning(p.hex, next);
    UnitMeaning(q.hex, tail);
    assert s[12..] == s[6..][6..] == tail;
  }

  /** A low unit comes next exactly if the next piece is one. */
  lemma LowNext(ps: seq<Piece>, rest: Str)
    requires ValidPieces(ps)
    ensures LowAhead(PiecesText(ps) + ([0x22] + rest)).Some? <==>
      ps != [] && ps[0].Unit? && LowSurrogate(UnitValue(ps[0]))
  {
    var s := PiecesText(ps) + ([0x22] + rest);
    if ps == [] {
      assert s[0] == 0x22;
    } else {
      var tail := PiecesText(ps[1..]) + ([0x22] + rest);
      assert s == PieceText(ps[0]) + tail;
      match ps[0]
      case Plain(c) => assert s[0] == c;
      case Letter(c) => LetterMeaning(c); assert s[1] == c;
      case Unit(hex) => UnitParts(hex, tail); UnitMeaning(hex, tail);
    }
  }

  lemma PiecesStep(ps: seq<Piece>, end: Str)
    requires ps != []
    ensures PiecesText(ps) + end == PieceText(ps[0]) + (PiecesText(ps[1..]) + end)
  {
    hide PieceText;
  }

  lemma CodesStep(ps: seq<Piece>)
    requires ps != [] && ValidPieces(ps)
    ensures ValidPieces(ps[1..]) && ValidPiece(ps[0])
    ensures !Paired(ps) ==> Codes(ps) == [PieceCode(ps[0])] + Codes(ps[1..])
    ensures Paired(ps) ==>
      && ValidPieces(ps[2..]) && ps[1..][0] == ps[1] && ps[1..][1..] == ps[2..]
      && Codes(ps) ==
        [0x10000 + (UnitValue(ps[0]) - 0xD800) * 0x400 + (UnitValue(ps[1]) - 0xDC00)] + Codes(ps[2..])
  {
    hide ValidPiece, PieceCode;
  }

  /** The scanner reads the pieces of a string up to its quote. */
  lemma {:induction false} ScanPieces(ps: seq<Piece>, rest: Str)
    requires ValidPieces(ps)
    ensures ScanString(PiecesText(ps) + ([0x22] + rest)) == Got(Codes(ps), rest)
    decreases |ps|
  {
    hide ScanString, LowAhead, PieceText, ValidPiece, PieceCode;
    if ps == [] {
      QuoteEnds(rest);
    } else {
      hide PiecesText, Codes;
      var end := [0x22] + rest;
      var tail := PiecesText(ps[1..]) + end;
      CodesStep(ps);
      PiecesStep(ps, end);
      if Paired(ps) {
        PiecesStep(ps[1..], end);
        ScanPairPieces(ps[0], ps[1], PiecesText(ps[2..]) + end);
        ScanPieces(ps[2..], rest);
      } else {
        ScanPieces(ps[1..], rest);
        LowNext(ps[1..], rest);
        OnePiece(ps[0], tail);
      }
    }
  }

  lemma QuoteEnds(rest: Str)
    ensures ScanString([] + ([0x22] + rest)) == Got([], rest)
  {
    assert [] + ([0x22] + rest) == [0x22] + rest && ([0x22] + rest)[1..] == rest;
  }

  lemma OnePiece(p: Piece, tail: Str)
    requires ValidPiece(p) && (p.Unit? && HighSurrogate(UnitValue(p)) ==> LowAhead(tail).None?)
    ensures ScanString(PieceText(p) + tail) == Prepend(PieceCode(p), ScanString(tail))
  {
    hide ScanString, LowAhead;
    match p
    case Plain(c) => ScanPlain(c, tail);
    case Letter(c) => ScanLetter(c, tail);
    case Unit(_) => ScanUnitPiece(p, tail);
  }

  /** The scan of `s` ends, and the pieces spell what it reads. */
  ghost predicate Spells(ps: seq<Piece>, s: Str) {
    && ScanString(s).Got? && ValidPieces(ps)
    && s == PiecesText(ps) + ([0x22] + ScanString(s).rest) && Codes(ps) == ScanString(s).value
  }

  /** What the scanner reads has a spelling in pieces. */
  lemma {:induction false} PiecesRead(s: Str) returns (ps: seq<Piece>)
    requires ScanString(s).Got?
    ensures Spells(ps, s)
    decreases |s|, 1
  {
    hide LowAhead, Hex4, HexDigit, Spells;
    if s[0] == QUOTE {
      ps := [];
      EmptySpells(s);
    } else if s[0] != BACKSLASH {
      ps := PiecesRead(s[1..]);
      ps := Before(Plain(s[0]), s[1..], ps);
      assert s == PieceText(Plain(s[0])) + s[1..];
    } else if s[1] != LOWER_U {
      LetterMeaning(s[1]);
      ps := PiecesRead(s[2..]);
      ps := Before(Letter(s[1]), s[2..], ps);
      assert s == PieceText(Letter(s[1])) + s[2..];
    } else {
      ps := UnitRead(s);
    }
  }

  lemma EmptySpells(s: Str)
    requires s != [] && s[0] == 0x22
    ensures Spells([], s)
  {
    assert s == [] + ([0x22] + s[1..]);
  }

  /** One more piece before those of the rest. */
  lemma Before(p: Piece, tail: Str, rest: seq<Piece>) returns (ps: seq<Piece>)
    requires ValidPiece(p) && Spells(rest, tail)
    requires p.Unit? && HighSurrogate(UnitValue(p)) ==> LowAhead(tail).None?
    ensures Spells(ps, PieceText(p) + tail)
  {
    hide ScanString, PieceText, PieceCode, ValidPiece, LowAhead;
    ps := [p] + rest;
    assert ps[1..] == rest;
    OnePiece(p, tail);
    LowNext(rest, ScanString(tail).rest);
    assert PiecesText(ps) == PieceText(p) + PiecesText(rest);
    assert !Paired(ps);
  }

  lemma UnitRead(s: Str) returns (ps: seq<Piece>)
    requires ScanString(s).Got? && s[0] == BACKSLASH && |s| > 1 && s[1] == LOWER_U
    ensures Spells(ps, s)
    decreases |s|, 0
  {
    hide Spells, LowAhead, Hex4, HexDigit;
    var hex, tail := UnitAhead(s);
    var p := Unit(hex);
    if HighSurrogate(UnitValue(p)) && LowAhead(tail).Some? {
      LowAheadIs(tail);
      var low, after := UnitAhead(tail);
      ps := PiecesRead(after);
      ps := BeforePair(p, Unit(low), after, ps);
    } else {
      ps := PiecesRead(tail);
      ps := Before(p, tail, ps);
    }
  }

  lemma LowAheadIs(s: Str)
    requires LowAhead(s).Some?
    ensures |s| >= 6 && s[0] == BACKSLASH && s[1] == LOWER_U && Hex4(s[2..]).Some? && LowAhead(s) == Hex4(s[2..])
    ensures LowSurrogate(Hex4(s[2..]).value)
  {
  }

  /** The text starts with a unit. */
  lemma UnitAhead(s: Str) returns (hex: Str, tail: Str)
    requires |s| > 1 && s[0] == BACKSLASH && s[1] == LOWER_U && Hex4(s[2..]).Some?
    ensures ValidPiece(Unit(hex)) && s == PieceText(Unit(hex)) + tail && |s| == 6 + |tail| && tail == s[6..]
    ensures Hex4(s[2..]) == Some(UnitValue(Unit(hex)))
  {
    hide HexDigit;
    hex, tail := s[2..6], s[6..];
    assert s[2..] == hex + tail;
    UnitMeaning(hex, tail);
  }

  lemma BeforePair(p: Piece, q: Piece, tail: Str, rest: seq<Piece>) returns (ps: seq<Piece>)
    requires p.Unit? && ValidPiece(p) && q.Unit? && ValidPiece(q) && Spells(rest, tail)
    requires HighSurrogate(UnitValue(p)) && LowSurrogate(UnitValue(q))
    ensures Spells(ps, PieceText(p) + (PieceText(q) + tail))
  {
    hide ScanString, PieceText, ValidPiece;
    ps := [p, q] + rest;
    assert ps[2..] == rest && ps[1..] == [q] + rest && ([q] + rest)[1..] == rest;
    ScanPairPieces(p, q, tail);
    assert PiecesText(ps) == PieceText(p) + (PieceText(q) + PiecesText(rest));
    assert Paired(ps);
  }

  // ---- numbers -------------------------------------------------------------------------------------

  predicate Digits(s: Str) {
    s != [] && forall i :: 0 <= i < |s| ==> 0x30 <= s[i] <= 0x39
  }

  /** Digits without a leading zero. */
  predicate WholeForm(s: Str) {
    Digits(s) && (s[0] == 0x30 ==> |s| == 1)
  }

  /** Nothing, or a point and digits. */
  predicate FractionForm(s: Str) {
    s == [] || (s[0] == 0x2E && Digits(s[1..]))
  }

  /** Nothing, or an `e`, perhaps a sign, and digits. */
  predicate ExponentForm(s: Str) {
    s == [] || ((s[0] == 0x65 || s[0] == 0x45)
      && (Digits(s[1..]) || (|s| > 1 && (s[1] == 0x2B || s[1] == 0x2D) && Digits(s[2..]))))
  }

  predicate NumberForm(whole: Str, fraction: Str, exponent: Str) {
    WholeForm(whole) && FractionForm(fraction) && ExponentForm(exponent)
  }

  /** An integer, or a float known by its text. */
  function NumberMeans(minus: bool, whole: Str, fraction: Str, exponent: Str): Raw
    requires NumberForm(whole, fraction, exponent)
  {
    var n: int := NatValue(whole);
    if fraction == [] && exponent == [] then Int(if minus then -n else n)
    else Float((if minus then [0x2D] else []) + whole + fraction + exponent)
  }

  lemma PartLengths(whole: Str, fraction: Str, exponent: Str)
    requires NumberForm(whole, fraction, exponent)
    ensures WholeLength(whole + (fraction + exponent)) == |whole|
    ensures FractionLength(fraction + exponent) == |fraction|
    ensures ExponentLength(exponent) == |exponent|
  {
    var tail := fraction + exponent;
    assert fraction == [] ==> tail == exponent;
    assert fraction != [] ==> tail[0] == fraction[0] && tail[1] == fraction[1] && tail[1..] == fraction[1..] + exponent;
    DigitRunAppend(whole, tail);
    assert (whole + tail)[0] == whole[0];
    if fraction != [] { DigitRunAppend(fraction[1..], exponent); }
    if exponent != [] {
      RunOfDigits(exponent);
    }
  }

  lemma RunOfDigits(exponent: Str)
    requires exponent != [] && ExponentForm(exponent)
    ensures ExponentLength(exponent) == |exponent|
  {
    var k := if Digits(exponent[1..]) then 1 else 2;
    var digits := exponent[k..];
    assert k == 1 ==> exponent[1] == digits[0];
    assert digits + [] == digits;
    DigitRunAppend(digits, []);
  }

  lemma Slices(a: Str, b: Str, c: Str)
    ensures var s := a + (b + c);
      && s[..|a|] == a && s[|a|..] == b + c && (b + c)[|b|..] == c && (b + c)[|b| + |c|..] == []
      && s[..|a| + |b| + |c|] == s && s == a + b + c
  {
  }

  lemma ParseParts(u: Str, minus: bool, w: nat, f: nat, e: nat)
    requires w + f + e <= |u| && WholeLength(u) == w > 0
    requires FractionLength(u[w..]) == f && ExponentLength(u[w..][f..]) == e
    ensures ParseUnsigned(u, minus) ==
      if f == 0 && e == 0 then
        Got(Int(if minus then -(NatValue(u[..w]) as int) else NatValue(u[..w])), u[w..])
      else Got(Float((if minus then [MINUS] else []) + u[..w + f + e]), u[w..][f + e..])
  {
    hide WholeLength, FractionLength, ExponentLength, NatValue;
  }

  lemma MeansParts(minus: bool, whole: Str, fraction: Str, exponent: Str)
    requires NumberForm(whole, fraction, exponent)
    ensures NumberMeans(minus, whole, fraction, exponent) ==
      if |fraction| == 0 && |exponent| == 0 then
        Int(if minus then -(NatValue(whole) as int) else NatValue(whole))
      else Float((if minus then [MINUS] else []) + (whole + (fraction + exponent)))
  {
    FloatIs(minus, whole, fraction, exponent);
    hide NatValue;
  }

  lemma UnsignedForm(minus: bool, whole: Str, fraction: Str, exponent: Str)
    requires NumberForm(whole, fraction, exponent)
    ensures ParseUnsigned(whole + (fraction + exponent), minus)
      == Got(NumberMeans(minus, whole, fraction, exponent), [])
  {
    hide *;
    PartLengths(whole, fraction, exponent);
    WholeStarts(whole, fraction, exponent);
    MeansParts(minus, whole, fraction, exponent);
    Slices(whole, fraction, exponent);
    var u := whole + (fraction + exponent);
    assert |u| == |whole| + |fraction| + |exponent|;
    ParseParts(u, minus, |whole|, |fraction|, |exponent|);
  }

  lemma FloatIs(minus: bool, whole: Str, fraction: Str, exponent: Str)
    ensures (if minus then [MINUS] else []) + (whole + (fraction + exponent))
      == (if minus then [0x2D] else []) + whole + fraction + exponent
  {
  }

  function NumberText(minus: bool, whole: Str, fraction: Str, exponent: Str): Str {
    (if minus then [0x2D] else []) + (whole + (fraction + exponent))
  }

  lemma WholeStarts(whole: Str, fraction: Str, exponent: Str)
    requires NumberForm(whole, fraction, exponent)
    ensures whole != [] && IsDigit(whole[0]) && (whole + (fraction + exponent))[0] == whole[0]
  {
  }

  lemma Signed(minus: bool, u: Str, rest: Str)
    requires u != [] && IsDigit(u[0])
    ensures var s := (if minus then [0x2D] else []) + u + rest;
      s != [] && (IsDigit(s[0]) || s[0] == MINUS) && ParseNumber(s) == ParseUnsigned(u + rest, minus)
  {
    hide ParseUnsigned;
    var s := (if minus then [0x2D] else []) + u + rest;
    if minus { assert s[0] == 0x2D && s[1..] == u + rest; } else { assert s == u + rest && s[0] == u[0]; }
  }

  /** A number is read in front of whatever cannot continue it. */
  lemma ScanNumber(minus: bool, whole: Str, fraction: Str, exponent: Str, rest: Str)
    requires NumberForm(whole, fraction, exponent) && Stops(rest)
    ensures ParseValue(NumberText(minus, whole, fraction, exponent) + rest)
      == Got(NumberMeans(minus, whole, fraction, exponent), rest)
  {
    UnsignedForm(minus, whole, fraction, exponent);
    WholeStarts(whole, fraction, exponent);
    hide ParseUnsigned, ParseValue, ParseNumber, NumberForm, NumberMeans, Stops, IsDigit;
    var u := whole + (fraction + exponent);
    UnsignedStops(u, minus, rest);
    assert [] + rest == rest;
    Signed(minus, u, rest);
    NumberStarts((if minus then [0x2D] else []) + u + rest);
  }

  /** What is read as a number has this form. */
  lemma UnsignedRead(u: Str, minus: bool) returns (whole: Str, fraction: Str, exponent: Str)
    requires ParseUnsigned(u, minus).Got?
    ensures NumberForm(whole, fraction, exponent)
    ensures u == whole + (fraction + exponent) + ParseUnsigned(u, minus).rest
    ensures ParseUnsigned(u, minus).value == NumberMeans(minus, whole, fraction, exponent)
  {
    hide NatValue, FractionLength, ExponentLength, FractionForm, ExponentForm, WholeForm;
    var n := WholeLength(u);
    var tail := u[n..];
    var k := FractionLength(tail);
    var e := ExponentLength(tail[k..]);
    whole, fraction, exponent := u[..n], tail[..k], tail[k..][..e];
    WholeRead(u);
    FractionRead(tail);
    ExponentRead(tail[k..]);
    Cut(u, n, k, e);
    MeansParts(minus, whole, fraction, exponent);
  }

  lemma WholeRead(u: Str)
    requires WholeLength(u) > 0
    ensures WholeForm(u[..WholeLength(u)])
  {
  }

  lemma Cut(u: Str, n: nat, k: nat, e: nat)
    requires n + k + e <= |u|
    ensures u == u[..n] + (u[n..][..k] + u[n..][k..][..e]) + u[n..][k + e..]
    ensures u[..n + k + e] == u[..n] + (u[n..][..k] + u[n..][k..][..e])
  {
  }

  lemma FractionRead(s: Str)
    ensures FractionForm(s[..FractionLength(s)])
  {
    if FractionLength(s) > 0 {
      var f := s[..FractionLength(s)];
      assert f[1..] == s[1..][..DigitRun(s[1..])] && f[0] == s[0] && s[1..][0] == s[1];
    }
  }

  lemma ExponentRead(s: Str)
    ensures ExponentForm(s[..ExponentLength(s)])
  {
    if ExponentLength(s) > 0 {
      var k := if |s| > 1 && s[1] in {0x2B, MINUS} then 2 else 1;
      var e := s[..ExponentLength(s)];
      assert e[k..] == s[k..][..DigitRun(s[k..])] && e[0] == s[0];
      assert k == 2 ==> e[1] == s[1];
    }
  }

  lemma NumberRead(s: Str) returns (f: Form)
    requires ParseNumber(s).Got?
    ensures f.Number? && Valid(f) && Means(f) == ParseNumber(s).value && s == FormText(f) + ParseNumber(s).rest
  {
    hide ParseUnsigned, NumberForm, NumberMeans;
    var minus := s != [] && s[0] == MINUS;
    var u := if minus then s[1..] else s;
    var whole, fraction, exponent := UnsignedRead(u, minus);
    f := Number(minus, whole, fraction, exponent);
    SignedText(s, minus, whole + (fraction + exponent), ParseUnsigned(u, minus).rest);
  }

  lemma SignedText(s: Str, minus: bool, u: Str, rest: Str)
    requires if minus then s != [] && s[0] == MINUS && s[1..] == u + rest else s == u + rest
    ensures s == (if minus then [0x2D] else []) + u + rest
  {
  }

  // ---- values ----------------------------------------------------------------------------------------

  /** How a value is spelled: the white space is part of the spelling. */
  datatype Form =
    | Word(v: Raw)
    | Number(minus: bool, whole: Str, fraction: Str, exponent: Str)
    | Quote(pieces: seq<Piece>)
    | NoItems(space: Str)
    | Items(items: seq<ItemForm>)
    | NoMembers(space: Str)
    | Members(members: seq<MemberForm>)

  datatype ItemForm = ItemForm(before: Str, form: Form, after: Str)

  datatype MemberForm = MemberForm(
    before: Str, name: seq<Piece>, beforeColon: Str, afterColon: Str, form: Form, after: Str)

  /** JSON's white space. */
  predicate Blanks(s: Str) {
    forall i :: 0 <= i < |s| ==> s[i] == 0x20 || s[i] == 0x09 || s[i] == 0x0A || s[i] == 0x0D
  }

  predicate Valid(f: Form)
    decreases f
  {
    match f
    case Word(v) => v.Null? || v.Bool?
    case Number(_, whole, fraction, exponent) => NumberForm(whole, fraction, exponent)
    case Quote(pieces) => ValidPieces(pieces)
    case NoItems(space) => Blanks(space)
    case Items(items) => items != [] && forall i :: 0 <= i < |items| ==> ValidItem(items[i])
    case NoMembers(space) => Blanks(space)
    case Members(members) => members != [] && forall i :: 0 <= i < |members| ==> ValidMember(members[i])
  }

  predicate ValidItem(x: ItemForm)
    decreases x
  {
    Blanks(x.before) && Blanks(x.after) && Valid(x.form)
  }

  predicate ValidMember(m: MemberForm)
    decreases m
  {
    && Blanks(m.before) && Blanks(m.beforeColon) && Blanks(m.afterColon) && Blanks(m.after)
    && ValidPieces(m.name) && Valid(m.form)
  }

  function FormText(f: Form): Str
    decreases f, 0
  {
    match f
    case Word(Null) => U("null")
    case Word(Bool(b)) => if b then U("true") else U("false")
    case Word(_) => []
    case Number(minus, whole, fraction, exponent) => NumberText(minus, whole, fraction, exponent)
    case Quote(pieces) => [0x22] + PiecesText(pieces) + [0x22]
    case NoItems(space) => [0x5B] + space + [0x5D]
    case Items(items) => if items == [] then [] else [0x5B] + items[0].before + ItemsFrom(items) + [0x5D]
    case NoMembers(space) => [0x7B] + space + [0x7D]
    case Members(members) => if members == [] then [] else [0x7B] + members[0].before + MembersFrom(members) + [0x7D]
  }

  /** The items with their commas, but for the space before the first. */
  function ItemsFrom(items: seq<ItemForm>): Str
    decreases items, 0
  {
    if items == [] then []
    else
      FormText(items[0].form) + items[0].after
        + (if |items| == 1 then [] else [0x2C] + items[1].before + ItemsFrom(items[1..]))
  }

  function MemberText(m: MemberForm): Str
    decreases m, 0
  {
    [0x22] + PiecesText(m.name) + [0x22] + m.beforeColon + [0x3A] + m.afterColon + FormText(m.form)
  }

  function MembersFrom(members: seq<MemberForm>): Str
    decreases members, 0
  {
    if members == [] then []
    else
      MemberText(members[0]) + members[0].after
        + (if |members| == 1 then [] else [0x2C] + members[1].before + MembersFrom(members[1..]))
  }

  function Means(f: Form): Raw
    requires Valid(f)
    decreases f, 0
  {
    match f
    case Word(v) => v
    case Number(minus, whole, fraction, exponent) => NumberMeans(minus, whole, fraction, exponent)
    case Quote(pieces) => String(Codes(pieces))
    case NoItems(_) => Array([])
    case Items(items) => Array(MeansItems(items))
    case NoMembers(_) => Object([])
    case Members(members) => Object(MeansMembers(members))
  }

  function MeansItems(items: seq<ItemForm>): seq<Raw>
    requires forall i :: 0 <= i < |items| ==> ValidItem(items[i])
    decreases items, 0
  {
    if items == [] then []
    else
      assert ValidItem(items[0]);
      [Means(items[0].form)] + MeansItems(items[1..])
  }

  function MeansMembers(members: seq<MemberForm>): seq<Member>
    requires forall i :: 0 <= i < |members| ==> ValidMember(members[i])
    decreases members, 0
  {
    if members == [] then []
    else
      assert ValidMember(members[0]);
      [Member(Codes(members[0].name), Means(members[0].form))] + MeansMembers(members[1..])
  }

  // ---- every sentence is read --------------------------------------------------------------------

  lemma {:induction false} SkipBlanks(w: Str, s: Str)
    requires Blanks(w) && (s == [] || !WhiteSpace(s[0]))
    ensures SkipSpace(w + s) == s
  {
    if w == [] {
      assert w + s == s;
    } else {
      assert (w + s)[0] == w[0] && (w + s)[1..] == w[1..] + s;
      SkipBlanks(w[1..], s);
    }
  }

  /** White space and a delimiter stop a number. */
  lemma BlanksStop(w: Str, c: Code, s: Str)
    requires Blanks(w) && c in {COMMA, CLOSE_BRACKET, CLOSE_BRACE}
    ensures Stops(w + ([c] + s)) && SkipSpace(w + ([c] + s)) == [c] + s
  {
    SkipBlanks(w, [c] + s);
    assert w == [] ==> (w + ([c] + s))[0] == c;
    assert w != [] ==> (w + ([c] + s))[0] == w[0];
  }

  /** What a value starts with. */
  lemma FormStarts(f: Form, rest: Str)
    requires Valid(f)
    ensures var s := FormText(f) + rest; s != [] && !WhiteSpace(s[0]) && s[0] !in {CLOSE_BRACKET, CLOSE_BRACE, 0xFEFF}
  {
    match f
    case Word(v) => assert U("null")[0] == 0x6E && U("true")[0] == 0x74 && U("false")[0] == 0x66;
    case Number(minus, whole, fraction, exponent) =>
      WholeStarts(whole, fraction, exponent);
      assert FormText(f)[0] == if minus then 0x2D else whole[0];
    case _ =>
  }

  lemma WordScan(v: Raw, rest: Str)
    requires v.Null? || v.Bool?
    ensures ParseValue(FormText(Word(v)) + rest) == Got(v, rest)
  {
    assert FormText(Word(v)) == Print(v, COMPACT);
    hide ParseValue;
    LiteralScan(v, COMPACT, rest);
  }

  lemma QuoteScan(pieces: seq<Piece>, rest: Str)
    requires ValidPieces(pieces)
    ensures ParseValue(FormText(Quote(pieces)) + rest) == Got(String(Codes(pieces)), rest)
  {
    hide ScanString, PiecesText, ValidPiece, Codes;
    var s := FormText(Quote(pieces)) + rest;
    assert s[0] == 0x22 && s[1..] == PiecesText(pieces) + ([0x22] + rest);
    ScanPieces(pieces, rest);
  }

  lemma NothingScan(space: Str, rest: Str)
    requires Blanks(space)
    ensures ParseValue(FormText(NoItems(space)) + rest) == Got(Array([]), rest)
    ensures ParseValue(FormText(NoMembers(space)) + rest) == Got(Object([]), rest)
  {
    hide SkipSpace, Blanks;
    BlanksStop(space, 0x5D, rest);
    BlanksStop(space, 0x7D, rest);
    var s, t := FormText(NoItems(space)) + rest, FormText(NoMembers(space)) + rest;
    assert s[0] == 0x5B && s[1..] == space + ([0x5D] + rest) && t[0] == 0x7B && t[1..] == space + ([0x7D] + rest);
    assert ([0x5D] + rest)[1..] == rest && ([0x7D] + rest)[1..] == rest;
  }

  /** How the parser goes on behind an item. */
  lemma ParseItemsStep(s: Str, v: Raw, after: Str, next: Str)
    requires ParseValue(s) == Got(v, after) && SkipSpace(after) == next
    ensures Starts(next, CLOSE_BRACKET) ==> ParseItems(s) == Got([v], next[1..])
    ensures Starts(next, COMMA) ==>
      ParseItems(s) == match ParseItems(SkipSpace(next[1..])) case Fail => Fail case Got(vs, end) => Got([v] + vs, end)
  {
    hide ParseValue, SkipSpace;
  }

  lemma ParseMembersStep(s: Str, m: Member, after: Str, next: Str)
    requires ParseMember(s) == Got(m, after) && SkipSpace(after) == next
    ensures Starts(next, CLOSE_BRACE) ==> ParseMembers(s) == Got([m], next[1..])
    ensures Starts(next, COMMA) ==>
      ParseMembers(s) ==
        match ParseMembers(SkipSpace(next[1..])) case Fail => Fail case Got(ms, end) => Got([m] + ms, end)
  {
    hide ParseMember, SkipSpace;
  }

  /** The parser reads every sentence of the grammar, in front of whatever cannot continue it. */
  lemma {:induction false} ParseForm(f: Form, rest: Str)
    requires Valid(f) && Stops(rest)
    ensures ParseValue(FormText(f) + rest) == Got(Means(f), rest)
    decreases f, 2
  {
    hide ParseValue, Stops, NumberForm, ValidPieces;
    match f
    case Word(v) => WordScan(v, rest);
    case Number(minus, whole, fraction, exponent) => ScanNumber(minus, whole, fraction, exponent, rest);
    case Quote(pieces) => QuoteScan(pieces, rest);
    case NoItems(space) => NothingScan(space, rest);
    case NoMembers(space) => NothingScan(space, rest);
    case Items(items) =>
      ParseItemForms(items, rest);
      ItemsBody(items, rest);
    case Members(members) =>
      ParseMemberForms(members, rest);
      MembersBody(members, rest);
  }

  lemma ItemsBody(items: seq<ItemForm>, rest: Str)
    requires items != [] && forall i :: 0 <= i < |items| ==> ValidItem(items[i])
    ensures var body := ItemsFrom(items) + ([0x5D] + rest);
      ParseValue(FormText(Items(items)) + rest) ==
        match ParseItems(body) case Fail => Fail case Got(values, end) => Got(Array(values), end)
  {
    hide ParseValue, ParseItems, FormText, SkipSpace;
    var body, s := ItemsFrom(items) + ([0x5D] + rest), FormText(Items(items)) + rest;
    ListText(items, rest);
    BodyStartsForm(items, [0x5D] + rest);
    assert ValidItem(items[0]);
    SkipBlanks(items[0].before, body);
    ParseArray(s, body);
  }

  lemma ListText(items: seq<ItemForm>, rest: Str)
    requires items != []
    ensures var s := FormText(Items(items)) + rest;
      s != [] && s[0] == 0x5B && s[1..] == items[0].before + (ItemsFrom(items) + ([0x5D] + rest))
  {
    hide ItemsFrom;
    var s := FormText(Items(items)) + rest;
    assert FormText(Items(items)) == [0x5B] + items[0].before + ItemsFrom(items) + [0x5D];
    assert s == [0x5B] + (items[0].before + (ItemsFrom(items) + ([0x5D] + rest)));
  }

  lemma BodyStartsForm(items: seq<ItemForm>, end: Str)
    requires items != [] && ValidItem(items[0])
    ensures var s := ItemsFrom(items) + end;
      s != [] && !WhiteSpace(s[0]) && s[0] !in {CLOSE_BRACKET, CLOSE_BRACE, 0xFEFF}
  {
    hide FormText, WhiteSpace;
    var text := FormText(items[0].form);
    FormStarts(items[0].form, []);
    assert text + [] == text;
    assert (ItemsFrom(items) + end)[0] == text[0];
  }

  lemma LastItemText(items: seq<ItemForm>, end: Str)
    requires |items| == 1
    ensures ItemsFrom(items) + end == FormText(items[0].form) + (items[0].after + end)
  {
    hide FormText;
  }

  lemma NextItemText(items: seq<ItemForm>, end: Str)
    requires |items| > 1
    ensures ItemsFrom(items) + end
      == FormText(items[0].form) + (items[0].after + ([0x2C] + (items[1].before + (ItemsFrom(items[1..]) + end))))
  {
    hide FormText;
    var more := ItemsFrom(items[1..]);
    assert ItemsFrom(items) == FormText(items[0].form) + items[0].after + ([0x2C] + items[1].before + more);
    hide *;
    Chain(FormText(items[0].form), items[0].after, items[1].before, more, end);
  }

  lemma Chain(a: Str, b: Str, d: Str, m: Str, end: Str)
    ensures a + b + ([0x2C] + d + m) + end == a + (b + ([0x2C] + (d + (m + end))))
  {
  }

  lemma {:induction false} ParseItemForms(items: seq<ItemForm>, rest: Str)
    requires items != [] && forall i :: 0 <= i < |items| ==> ValidItem(items[i])
    ensures ParseItems(ItemsFrom(items) + ([0x5D] + rest)) == Got(MeansItems(items), rest)
    decreases items, 1
  {
    hide ParseValue, ParseItems, FormText, ItemsFrom, SkipSpace, Stops, Means, Blanks;
    if |items| == 1 { LastItemText(items, [0x5D] + rest); } else { NextItemText(items, [0x5D] + rest); }
    var x, s := items[0], ItemsFrom(items) + ([0x5D] + rest);
    assert ValidItem(x);
    if |items| == 1 {
      var tail := x.after + ([0x5D] + rest);
      BlanksStop(x.after, 0x5D, rest);
      ParseForm(x.form, tail);
      ParseItemsStep(s, Means(x.form), tail, [0x5D] + rest);
      assert ([0x5D] + rest)[1..] == rest;
      assert items[1..] == [] && MeansItems(items[1..]) == [] && MeansItems(items) == [Means(x.form)];
    } else {
      var more := ItemsFrom(items[1..]) + ([0x5D] + rest);
      var next := [0x2C] + (items[1].before + more);
      var tail := x.after + next;
      BlanksStop(x.after, 0x2C, items[1].before + more);
      ParseForm(x.form, tail);
      ParseItemsStep(s, Means(x.form), tail, next);
      assert next[1..] == items[1].before + more && ValidItem(items[1]) && items[1..][0] == items[1];
      BodyStartsForm(items[1..], [0x5D] + rest);
      SkipBlanks(items[1].before, more);
      ParseItemForms(items[1..], rest);
      assert MeansItems(items) == [Means(x.form)] + MeansItems(items[1..]);
    }
  }

  lemma MembersBody(members: seq<MemberForm>, rest: Str)
    requires members != [] && forall i :: 0 <= i < |members| ==> ValidMember(members[i])
    ensures var body := MembersFrom(members) + ([0x7D] + rest);
      ParseValue(FormText(Members(members)) + rest) ==
        match ParseMembers(body) case Fail => Fail case Got(values, end) => Got(Object(values), end)
  {
    hide ParseValue, ParseMembers, FormText, SkipSpace, MembersFrom;
    var body, s := MembersFrom(members) + ([0x7D] + rest), FormText(Members(members)) + rest;
    ObjectText(members, rest);
    MembersStartQuoted(members, [0x7D] + rest);
    assert ValidMember(members[0]);
    SkipBlanks(members[0].before, body);
    ParseObject(s, body);
  }

  lemma ObjectText(members: seq<MemberForm>, rest: Str)
    requires members != []
    ensures var s := FormText(Members(members)) + rest;
      s != [] && s[0] == 0x7B && s[1..] == members[0].before + (MembersFrom(members) + ([0x7D] + rest))
  {
    hide MembersFrom;
    var s := FormText(Members(members)) + rest;
    assert FormText(Members(members)) == [0x7B] + members[0].before + MembersFrom(members) + [0x7D];
    assert s == [0x7B] + (members[0].before + (MembersFrom(members) + ([0x7D] + rest)));
  }

  lemma MembersStartQuoted(members: seq<MemberForm>, end: Str)
    requires members != []
    ensures var s := MembersFrom(members) + end; s != [] && s[0] == 0x22
  {
    assert MemberText(members[0])[0] == 0x22;
  }

  lemma LastMemberText(members: seq<MemberForm>, end: Str)
    requires |members| == 1
    ensures MembersFrom(members) + end == MemberText(members[0]) + (members[0].after + end)
  {
    hide MemberText;
  }

  lemma NextMemberText(members: seq<MemberForm>, end: Str)
    requires |members| > 1
    ensures MembersFrom(members) + end
      == MemberText(members[0])
        + (members[0].after + ([0x2C] + (members[1].before + (MembersFrom(members[1..]) + end))))
  {
    hide MemberText;
    var more := MembersFrom(members[1..]);
    assert MembersFrom(members) == MemberText(members[0]) + members[0].after + ([0x2C] + members[1].before + more);
    hide *;
    Chain(MemberText(members[0]), members[0].after, members[1].before, more, end);
  }

  lemma {:induction false} ParseMemberForms(members: seq<MemberForm>, rest: Str)
    requires members != [] && forall i :: 0 <= i < |members| ==> ValidMember(members[i])
    ensures ParseMembers(MembersFrom(members) + ([0x7D] + rest)) == Got(MeansMembers(members), rest)
    decreases members, 1
  {
    hide ParseMember, ParseMembers, MemberText, MembersFrom, SkipSpace, Stops, Means, Blanks, Codes, ValidPieces;
    if |members| == 1 { LastMemberText(members, [0x7D] + rest); } else { NextMemberText(members, [0x7D] + rest); }
    var m, s := members[0], MembersFrom(members) + ([0x7D] + rest);
    assert ValidMember(m);
    var member := Member(Codes(m.name), Means(m.form));
    if |members| == 1 {
      var tail := m.after + ([0x7D] + rest);
      BlanksStop(m.after, 0x7D, rest);
      ParseMemberForm(m, tail);
      ParseMembersStep(s, member, tail, [0x7D] + rest);
      assert ([0x7D] + rest)[1..] == rest;
      assert members[1..] == [] && MeansMembers(members[1..]) == [] && MeansMembers(members) == [member];
    } else {
      var more := MembersFrom(members[1..]) + ([0x7D] + rest);
      var next := [0x2C] + (members[1].before + more);
      var tail := m.after + next;
      BlanksStop(m.after, 0x2C, members[1].before + more);
      ParseMemberForm(m, tail);
      ParseMembersStep(s, member, tail, next);
      assert next[1..] == members[1].before + more && ValidMember(members[1]) && members[1..][0] == members[1];
      MembersStartQuoted(members[1..], [0x7D] + rest);
      SkipBlanks(members[1].before, more);
      ParseMemberForms(members[1..], rest);
      assert MeansMembers(members) == [member] + MeansMembers(members[1..]);
    }
  }

  lemma {:induction false} ParseMemberForm(m: MemberForm, rest: Str)
    requires ValidMember(m) && Stops(rest)
    ensures ParseMember(MemberText(m) + rest) == Got(Member(Codes(m.name), Means(m.form)), rest)
    decreases m, 1
  {
    hide ParseValue, ParseMember, SkipSpace, Stops, Means, Blanks, Codes, ValidPieces, FormText, ScanString, MemberText;
    var value := FormText(m.form) + rest;
    var colon := [0x3A] + (m.afterColon + value);
    var s := MemberText(m) + rest;
    MemberParts(m, rest);
    ScanPieces(m.name, m.beforeColon + colon);
    ColonIsNoSpace();
    SkipBlanks(m.beforeColon, colon);
    FormStarts(m.form, rest);
    SkipBlanks(m.afterColon, value);
    ParseForm(m.form, rest);
    ParseMemberStep(s, m.beforeColon + colon, m.afterColon + value, value);
  }

  lemma MemberWhole(m: MemberForm, rest: Str)
    ensures MemberText(m) + rest
      == [0x22] + (PiecesText(m.name)
        + ([0x22] + (m.beforeColon + ([0x3A] + (m.afterColon + (FormText(m.form) + rest))))))
  {
    hide FormText, PiecesText;
  }

  lemma MemberParts(m: MemberForm, rest: Str)
    ensures var s := MemberText(m) + rest; var colon := [0x3A] + (m.afterColon + (FormText(m.form) + rest));
      s != [] && s[0] == 0x22 && s[1..] == PiecesText(m.name) + ([0x22] + (m.beforeColon + colon))
      && colon[0] == 0x3A && colon[1..] == m.afterColon + (FormText(m.form) + rest)
  {
    hide FormText, PiecesText, MemberText;
    MemberWhole(m, rest);
  }

  /** How the parser goes on behind the name of a member. */
  lemma ParseMemberStep(s: Str, afterName: Str, afterColon: Str, value: Str)
    requires Starts(s, QUOTE) && ScanString(s[1..]).Got? && ScanString(s[1..]).rest == afterName
    requires SkipSpace(afterName) == [COLON] + afterColon && SkipSpace(afterColon) == value
    ensures ParseMember(s) ==
      match ParseValue(value) case Fail => Fail case Got(v, end) => Got(Member(ScanString(s[1..]).value, v), end)
  {
    hide ParseValue, SkipSpace, ScanString;
    assert ([COLON] + afterColon)[1..] == afterColon;
  }

  lemma ColonIsNoSpace()
    ensures !WhiteSpace(0x3A)
  {
  }

  // ---- and nothing else is -----------------------------------------------------------------------

  /** The parser reads the text, and the form spells what it reads of it. */
  ghost predicate Reads(f: Form, s: Str) {
    ParseValue(s).Got? && Valid(f) && Means(f) == ParseValue(s).value && s == FormText(f) + ParseValue(s).rest
  }

  ghost predicate ReadsItems(items: seq<ItemForm>, s: Str) {
    && ParseItems(s).Got? && items != [] && (forall i :: 0 <= i < |items| ==> ValidItem(items[i]))
    && MeansItems(items) == ParseItems(s).value && s == ItemsFrom(items) + ([0x5D] + ParseItems(s).rest)
  }

  ghost predicate ReadsMembers(members: seq<MemberForm>, s: Str) {
    && ParseMembers(s).Got? && members != [] && (forall i :: 0 <= i < |members| ==> ValidMember(members[i]))
    && MeansMembers(members) == ParseMembers(s).value
    && s == MembersFrom(members) + ([0x7D] + ParseMembers(s).rest)
  }

  ghost predicate ReadsMember(m: MemberForm, s: Str) {
    && ParseMember(s).Got? && ValidMember(m)
    && Member(Codes(m.name), Means(m.form)) == ParseMember(s).value && s == MemberText(m) + ParseMember(s).rest
  }

  lemma {:induction false} Skipped(s: Str) returns (w: Str)
    ensures Blanks(w) && s == w + SkipSpace(s) && (SkipSpace(s) == [] || !WhiteSpace(SkipSpace(s)[0]))
  {
    if s != [] && WhiteSpace(s[0]) {
      var rest := Skipped(s[1..]);
      w := [s[0]] + rest;
    } else {
      w := [];
    }
  }

  lemma QuoteRead(s: Str) returns (f: Form)
    requires ParseValue(s).Got? && Starts(s, QUOTE)
    ensures Reads(f, s)
  {
    hide ScanString, PiecesText, Codes, ValidPiece;
    var ps := PiecesRead(s[1..]);
    f := Quote(ps);
    QuotedText(ps, s, ScanString(s[1..]).rest);
  }

  lemma QuotedText(ps: seq<Piece>, s: Str, rest: Str)
    requires s != [] && s[0] == 0x22 && s[1..] == PiecesText(ps) + ([0x22] + rest)
    ensures s == FormText(Quote(ps)) + rest
  {
    hide PiecesText;
  }

  lemma WordRead(s: Str, v: Raw) returns (f: Form)
    requires v.Null? || v.Bool?
    requires IsPrefix(FormText(Word(v)), s) && ParseValue(s) == Got(v, s[|FormText(Word(v))|..])
    ensures Reads(f, s)
  {
    hide ParseValue;
    f := Word(v);
    assert s == FormText(f) + s[|FormText(f)|..];
  }

  /** What is read has a spelling in the grammar. */
  lemma {:induction false} FormRead(s: Str) returns (f: Form)
    requires ParseValue(s).Got?
    ensures Reads(f, s)
    decreases |s|, 3
  {
    if Starts(s, QUOTE) {
      f := QuoteRead(s);
    } else if Starts(s, OPEN_BRACKET) {
      f := ListRead(s);
    } else if Starts(s, OPEN_BRACE) {
      f := ObjectRead(s);
    } else {
      f := PlainRead(s);
    }
  }

  lemma PlainRead(s: Str) returns (f: Form)
    requires ParseValue(s).Got? && !Starts(s, QUOTE) && !Starts(s, OPEN_BRACKET) && !Starts(s, OPEN_BRACE)
    ensures Reads(f, s)
  {
    hide Reads, ParseNumber;
    if IsPrefix(NULL_TEXT, s) {
      f := WordRead(s, Null);
    } else if IsPrefix(TRUE_TEXT, s) {
      f := WordRead(s, Bool(true));
    } else if IsPrefix(FALSE_TEXT, s) {
      f := WordRead(s, Bool(false));
    } else {
      f := NumberRead(s);
      NumberReads(f, s);
    }
  }

  lemma NumberReads(f: Form, s: Str)
    requires ParseNumber(s).Got? && ParseValue(s) == ParseNumber(s)
    requires Valid(f) && Means(f) == ParseNumber(s).value && s == FormText(f) + ParseNumber(s).rest
    ensures Reads(f, s)
  {
  }

  lemma ListRead(s: Str) returns (f: Form)
    requires ParseValue(s).Got? && Starts(s, OPEN_BRACKET)
    ensures Reads(f, s)
    decreases |s|, 2
  {
    hide ParseItems, SkipSpace, Blanks, WhiteSpace;
    var space := Skipped(s[1..]);
    var t := SkipSpace(s[1..]);
    assert s == [0x5B] + (space + t);
    if Starts(t, CLOSE_BRACKET) {
      f := NoItems(space);
      assert t == [0x5D] + t[1..] && s == FormText(f) + t[1..];
    } else {
      ParseArray(s, t);
      var items := ItemsRead(t, space);
      f := Items(items);
      ListText(items, ParseItems(t).rest);
      assert s == FormText(f) + ParseItems(t).rest by { ListIs(items, space, ParseItems(t).rest, s); }
    }
  }

  lemma ListIs(items: seq<ItemForm>, space: Str, rest: Str, s: Str)
    requires items != [] && items[0].before == space && s == [0x5B] + (space + (ItemsFrom(items) + ([0x5D] + rest)))
    ensures s == FormText(Items(items)) + rest
  {
    hide ItemsFrom;
    assert FormText(Items(items)) == [0x5B] + items[0].before + ItemsFrom(items) + [0x5D];
  }

  lemma {:induction false} ItemsRead(s: Str, before: Str) returns (items: seq<ItemForm>)
    requires ParseItems(s).Got? && Blanks(before)
    ensures ReadsItems(items, s) && items[0].before == before
    decreases |s|, 4
  {
    hide ParseValue, SkipSpace, Blanks, WhiteSpace, FormText, Valid, Means, ReadsItems;
    var f := FormRead(s);
    var tail := ParseValue(s).rest;
    var after := Skipped(tail);
    var next := SkipSpace(tail);
    ParseItemsStep(s, ParseValue(s).value, tail, next);
    var x := ItemForm(before, f, after);
    if Starts(next, CLOSE_BRACKET) {
      items := [x];
      LastItem(x, s, next);
    } else {
      var space := Skipped(next[1..]);
      var rest := ItemsRead(SkipSpace(next[1..]), space);
      items := [x] + rest;
      MoreItems(x, rest, space, s, next);
    }
  }

  lemma LastItem(x: ItemForm, s: Str, next: Str)
    requires Reads(x.form, s) && Blanks(x.before) && Blanks(x.after) && Starts(next, CLOSE_BRACKET)
    requires ParseValue(s).rest == x.after + next && ParseItems(s) == Got([ParseValue(s).value], next[1..])
    ensures ReadsItems([x], s)
  {
    hide ParseValue, ParseItems, FormText, Blanks;
    assert next == [0x5D] + next[1..];
    assert ItemsFrom([x]) == FormText(x.form) + x.after + [];
    assert [x][1..] == [] && MeansItems([x]) == [Means(x.form)] + MeansItems([]);
  }

  lemma MoreItems(x: ItemForm, rest: seq<ItemForm>, space: Str, s: Str, next: Str)
    requires Reads(x.form, s) && Blanks(x.before) && Blanks(x.after) && Starts(next, COMMA)
    requires ParseValue(s).rest == x.after + next && next[1..] == space + SkipSpace(next[1..])
    requires ReadsItems(rest, SkipSpace(next[1..])) && rest[0].before == space
    requires ParseItems(s) ==
      Got([ParseValue(s).value] + ParseItems(SkipSpace(next[1..])).value, ParseItems(SkipSpace(next[1..])).rest)
    ensures ReadsItems([x] + rest, s)
  {
    hide ParseValue, ParseItems, FormText, ItemsFrom, Blanks, SkipSpace, Means;
    var items := [x] + rest;
    assert next == [0x2C] + next[1..] && items[1..] == rest && items[1] == rest[0];
    NextItemText(items, [0x5D] + ParseItems(SkipSpace(next[1..])).rest);
    forall i | 0 <= i < |items| ensures ValidItem(items[i]) { assert i > 0 ==> items[i] == rest[i - 1]; }
    assert MeansItems(items) == [Means(x.form)] + MeansItems(rest);
  }

  lemma ObjectRead(s: Str) returns (f: Form)
    requires ParseValue(s).Got? && Starts(s, OPEN_BRACE)
    ensures Reads(f, s)
    decreases |s|, 2
  {
    hide ParseMembers, SkipSpace, Blanks, WhiteSpace;
    var space := Skipped(s[1..]);
    var t := SkipSpace(s[1..]);
    assert s == [0x7B] + (space + t);
    if Starts(t, CLOSE_BRACE) {
      f := NoMembers(space);
      assert t == [0x7D] + t[1..] && s == FormText(f) + t[1..];
    } else {
      ParseObject(s, t);
      var members := MembersRead(t, space);
      f := Members(members);
      ObjectIs(members, space, ParseMembers(t).rest, s);
    }
  }

  lemma ObjectIs(members: seq<MemberForm>, space: Str, rest: Str, s: Str)
    requires members != [] && members[0].before == space
    requires s == [0x7B] + (space + (MembersFrom(members) + ([0x7D] + rest)))
    ensures s == FormText(Members(members)) + rest
  {
    hide MembersFrom;
    assert FormText(Members(members)) == [0x7B] + members[0].before + MembersFrom(members) + [0x7D];
  }

  lemma {:induction false} MembersRead(s: Str, before: Str) returns (members: seq<MemberForm>)
    requires ParseMembers(s).Got? && Blanks(before)
    ensures ReadsMembers(members, s) && members[0].before == before
    decreases |s|, 5
  {
    hide ParseMember, SkipSpace, Blanks, WhiteSpace, MemberText, ReadsMembers, ReadsMember;
    var m := MemberRead(s);
    var tail := ParseMember(s).rest;
    var after := Skipped(tail);
    var next := SkipSpace(tail);
    ParseMembersStep(s, ParseMember(s).value, tail, next);
    m := Placed(m, s, before, after);
    if Starts(next, CLOSE_BRACE) {
      members := [m];
      LastMember(m, s, next);
    } else {
      var space := Skipped(next[1..]);
      var rest := MembersRead(SkipSpace(next[1..]), space);
      members := [m] + rest;
      MoreMembers(m, rest, space, s, next);
    }
  }

  /** The member with white space around it. */
  lemma Placed(m: MemberForm, s: Str, before: Str, after: Str) returns (r: MemberForm)
    requires ReadsMember(m, s) && Blanks(before) && Blanks(after)
    ensures ReadsMember(r, s) && r.before == before && r.after == after
  {
    hide ParseMember;
    r := m.(before := before, after := after);
    assert MemberText(r) == MemberText(m);
  }

  lemma LastMember(m: MemberForm, s: Str, next: Str)
    requires ReadsMember(m, s) && Starts(next, CLOSE_BRACE)
    requires ParseMember(s).rest == m.after + next && ParseMembers(s) == Got([ParseMember(s).value], next[1..])
    ensures ReadsMembers([m], s)
  {
    hide ParseMember, ParseMembers, MemberText, Blanks;
    assert next == [0x7D] + next[1..];
    assert MembersFrom([m]) == MemberText(m) + m.after + [];
    assert [m][1..] == [] && MeansMembers([m]) == [Member(Codes(m.name), Means(m.form))] + MeansMembers([]);
  }

  lemma MoreMembers(m: MemberForm, rest: seq<MemberForm>, space: Str, s: Str, next: Str)
    requires ReadsMember(m, s) && Starts(next, COMMA)
    requires ParseMember(s).rest == m.after + next && next[1..] == space + SkipSpace(next[1..])
    requires ReadsMembers(rest, SkipSpace(next[1..])) && rest[0].before == space
    requires ParseMembers(s) ==
      Got([ParseMember(s).value] + ParseMembers(SkipSpace(next[1..])).value, ParseMembers(SkipSpace(next[1..])).rest)
    ensures ReadsMembers([m] + rest, s)
  {
    hide ParseMember, ParseMembers, MemberText, MembersFrom, Blanks, SkipSpace, Codes, Means;
    var members := [m] + rest;
    assert next == [0x2C] + next[1..] && members[1..] == rest && members[1] == rest[0];
    NextMemberText(members, [0x7D] + ParseMembers(SkipSpace(next[1..])).rest);
    forall i | 0 <= i < |members| ensures ValidMember(members[i]) { assert i > 0 ==> members[i] == rest[i - 1]; }
    assert MeansMembers(members) == [Member(Codes(m.name), Means(m.form))] + MeansMembers(rest);
  }

  lemma MemberRead(s: Str) returns (m: MemberForm)
    requires ParseMember(s).Got?
    ensures ReadsMember(m, s)
    decreases |s|, 4
  {
    hide ParseValue, SkipSpace, WhiteSpace, ScanString, Reads, Spells;
    var name := PiecesRead(s[1..]);
    var afterName := ScanString(s[1..]).rest;
    var beforeColon := Skipped(afterName);
    var t := SkipSpace(afterName);
    var afterColon := Skipped(t[1..]);
    var value := SkipSpace(t[1..]);
    var f := FormRead(value);
    m := MemberForm([], name, beforeColon, afterColon, f, []);
    MemberReads(m, s, afterName, t, value);
  }

  lemma MemberReads(m: MemberForm, s: Str, afterName: Str, t: Str, value: Str)
    requires Starts(s, QUOTE) && Spells(m.name, s[1..]) && ScanString(s[1..]).rest == afterName
    requires afterName == m.beforeColon + t && SkipSpace(afterName) == t && Starts(t, COLON)
    requires t[1..] == m.afterColon + value && SkipSpace(t[1..]) == value && Reads(m.form, value)
    requires Blanks(m.before) && Blanks(m.beforeColon) && Blanks(m.afterColon) && Blanks(m.after)
    ensures ReadsMember(m, s)
  {
    hide ParseValue, ParseMember, SkipSpace, Blanks, ScanString, PiecesText, FormText, ValidPiece, MemberText;
    assert t == [COLON] + t[1..] && s == [QUOTE] + s[1..];
    ParseMemberStep(s, afterName, t[1..], value);
    MemberWhole(m, ParseValue(value).rest);
  }

  // ---- the reader is the grammar -------------------------------------------------------------------

  /** The text is a sentence of JSON that means `v`: one value with white space around it. */
  ghost predicate Denotes(text: Str, v: Raw) {
    exists before, f, after ::
      Blanks(before) && Blanks(after) && Valid(f) && Means(f) == v && text == before + FormText(f) + after
  }

  lemma SentenceIsRead(before: Str, f: Form, after: Str)
    requires Blanks(before) && Blanks(after) && Valid(f)
    ensures Loads(before + FormText(f) + after) == Some(Means(f))
  {
    hide ParseValue, SkipSpace, FormText;
    var s := FormText(f) + after;
    assert before + FormText(f) + after == before + s;
    FormStarts(f, after);
    SkipBlanks(before, s);
    assert after != [] ==> after[0] in {0x20, 0x09, 0x0A, 0x0D};
    ParseForm(f, after);
    SkipBlanks(after, []);
    assert after + [] == after;
    assert (before + s)[0] == if before == [] then s[0] else before[0];
  }

  /** The strict reader accepts exactly the sentences of the grammar, and reads their meaning. */
  lemma LoadsMeaning(text: Str, v: Raw)
    ensures Loads(text) == Some(v) <==> Denotes(text, v)
  {
    hide ParseValue, SkipSpace, FormText, Blanks, Valid, Means;
    if Loads(text) == Some(v) {
      var s := SkipSpace(text);
      var before := Skipped(text);
      var f := FormRead(s);
      var after := Skipped(ParseValue(s).rest);
      assert after == ParseValue(s).rest;
      assert text == before + FormText(f) + after;
    }
    if Denotes(text, v) {
      var before, f, after :|
        Blanks(before) && Blanks(after) && Valid(f) && Means(f) == v && text == before + FormText(f) + after;
      SentenceIsRead(before, f, after);
    }
  }
}
