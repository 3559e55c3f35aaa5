/** Strict UTF-8: which texts can be written, and that the reader takes back exactly what the writer gives. */
module Utf8 {
  import opened Ordering
  import opened Text
  import opened FileTree

  predicate Surrogate(c: Code) {
    0xD800 <= c <= 0xDFFF
  }

  predicate NoSurrogate(s: Str) {
    forall i :: 0 <= i < |s| ==> !Surrogate(s[i])
  }

  function EncodeCode(c: Code): (r: Bytes)
    requires !Surrogate(c)
    ensures 1 <= |r| <= 4
  {
    if c < 0x80 then [c]
    else if c < 0x800 then [0xC0 + c / 64, 0x80 + c % 64]
    else if c < 0x10000 then [0xE0 + c / 4096, 0x80 + c / 64 % 64, 0x80 + c % 64]
    else [0xF0 + c / 262144, 0x80 + c / 4096 % 64, 0x80 + c / 64 % 64, 0x80 + c % 64]
  }

  /** The bits a byte adds behind its mark. */
  predicate Marked(x: int, mark: int, room: int) {
    mark <= x < mark + room
  }

  /** The forms of RFC 3629, section 3: the marks of the bytes, the shortest form, and the code point in their bits. */
  lemma EncodingForm(c: Code)
    requires !Surrogate(c)
    ensures var b := EncodeCode(c);
      && |b| == (if c < 0x80 then 1 else if c < 0x800 then 2 else if c < 0x10000 then 3 else 4)
      && (|b| == 1 ==> b[0] == c)
      && (|b| == 2 ==>
        Marked(b[0], 0xC0, 0x20) && Marked(b[1], 0x80, 0x40) && c == (b[0] - 0xC0) * 0x40 + (b[1] - 0x80))
      && (|b| == 3 ==>
        && Marked(b[0], 0xE0, 0x10) && Marked(b[1], 0x80, 0x40) && Marked(b[2], 0x80, 0x40)
        && c == (b[0] - 0xE0) * 0x1000 + (b[1] - 0x80) * 0x40 + (b[2] - 0x80))
      && (|b| == 4 ==>
        && Marked(b[0], 0xF0, 0x8) && Marked(b[1], 0x80, 0x40) && Marked(b[2], 0x80, 0x40) && Marked(b[3], 0x80, 0x40)
        && c == (b[0] - 0xF0) * 0x40000 + (b[1] - 0x80) * 0x1000 + (b[2] - 0x80) * 0x40 + (b[3] - 0x80))
  {
    assert c / 64 == c / 4096 * 64 + c / 64 % 64;
    assert c / 4096 == c / 262144 * 64 + c / 4096 % 64;
  }

  /** `s.encode("utf-8")`; `None` when it raises on a surrogate. */
  function Encode(s: Str): Option<Bytes> {
    if s == [] then Some([])
    else if Surrogate(s[0]) then None
    else match Encode(s[1..]) case None => None case Some(rest) => Some(EncodeCode(s[0]) + rest)
  }

  predicate Continuation(x: int) {
    0x80 <= x < 0xC0
  }

  /** The code point the bytes start with, and how many of them it takes: no overlong forms, no surrogates. */
  function DecodeCode(b: Bytes): (r: Option<(Code, nat)>)
    ensures r.Some? ==> 1 <= r.value.1 <= |b| && !Surrogate(r.value.0)
  {
    if b == [] then None
    else if 0 <= b[0] < 0x80 then Some((b[0], 1))
    else if 0xC2 <= b[0] < 0xE0 && |b| >= 2 && Continuation(b[1]) then
      Some(((b[0] - 0xC0) * 64 + (b[1] - 0x80), 2))
    else if 0xE0 <= b[0] < 0xF0 && |b| >= 3 && Continuation(b[1]) && Continuation(b[2]) then
      var c: Code := (b[0] - 0xE0) * 4096 + (b[1] - 0x80) * 64 + (b[2] - 0x80);
      if c < 0x800 || Surrogate(c) then None else Some((c, 3))
    else if 0xF0 <= b[0] < 0xF5 && |b| >= 4 && Continuation(b[1]) && Continuation(b[2]) && Continuation(b[3]) then
      var c := (b[0] - 0xF0) * 262144 + (b[1] - 0x80) * 4096 + (b[2] - 0x80) * 64 + (b[3] - 0x80);
      if c < 0x10000 || c >= 0x110000 then None else Some((c, 4))
    else None
  }

  /** `b.decode("utf-8")`; `None` when it raises. */
  function Decode(b: Bytes): Option<Str>
    decreases |b|
  {
    if b == [] then Some([])
    else
      match DecodeCode(b)
      case None => None
      case Some((c, n)) => match Decode(b[n..]) case None => None case Some(rest) => Some([c] + rest)
  }

  lemma DecodeShort(b: Bytes, rest: Bytes)
    requires |b| == 1 ==> 0 <= b[0] < 0x80
    requires |b| == 2 ==> 0xC2 <= b[0] < 0xE0 && Continuation(b[1])
    requires 1 <= |b| <= 2
    ensures DecodeCode(b + rest)
      == Some((if |b| == 1 then b[0] else (b[0] - 0xC0) * 0x40 + (b[1] - 0x80), |b|))
  {
    assert (b + rest)[0] == b[0] && (|b| == 2 ==> (b + rest)[1] == b[1]);
  }

  lemma DecodeThree(b: Bytes, rest: Bytes, c: Code)
    requires |b| == 3 && 0xE0 <= b[0] < 0xF0 && Continuation(b[1]) && Continuation(b[2])
    requires c == (b[0] - 0xE0) * 0x1000 + (b[1] - 0x80) * 0x40 + (b[2] - 0x80) && c >= 0x800 && !Surrogate(c)
    ensures DecodeCode(b + rest) == Some((c, 3))
  {
    assert (b + rest)[0] == b[0] && (b + rest)[1] == b[1] && (b + rest)[2] == b[2];
  }

  lemma DecodeFour(b: Bytes, rest: Bytes, c: Code)
    requires |b| == 4 && 0xF0 <= b[0] < 0xF5 && Continuation(b[1]) && Continuation(b[2]) && Continuation(b[3])
    requires c == (b[0] - 0xF0) * 0x40000 + (b[1] - 0x80) * 0x1000 + (b[2] - 0x80) * 0x40 + (b[3] - 0x80)
    requires c >= 0x10000
    ensures DecodeCode(b + rest) == Some((c, 4))
  {
    assert (b + rest)[0] == b[0] && (b + rest)[1] == b[1] && (b + rest)[2] == b[2] && (b + rest)[3] == b[3];
  }

  lemma CodeRoundTrip(c: Code, rest: Bytes)
    requires !Surrogate(c)
    ensures DecodeCode(EncodeCode(c) + rest) == Some((c, |EncodeCode(c)|))
  {
    EncodingForm(c);
    hide EncodeCode, DecodeCode;
    var b := EncodeCode(c);
    if |b| <= 2 {
      DecodeShort(b, rest);
    } else if |b| == 3 {
      DecodeThree(b, rest, c);
    } else {
      DecodeFour(b, rest, c);
    }
  }

  /** Exactly the texts without surrogates can be written, and they are read back. */
  lemma {:induction false} RoundTrip(s: Str)
    ensures Encode(s).Some? <==> forall i :: 0 <= i < |s| ==> !(0xD800 <= s[i] <= 0xDFFF)
    ensures Encode(s).Some? ==> Decode(Encode(s).value) == Some(s)
  {
    hide EncodeCode, DecodeCode;
    if s != [] {
      RoundTrip(s[1..]);
      assert forall i :: 1 <= i < |s| ==> s[i] == s[1..][i - 1];
      if Encode(s).Some? {
        var head, rest := EncodeCode(s[0]), Encode(s[1..]).value;
        CodeRoundTrip(s[0], rest);
        assert (head + rest)[|head|..] == rest;
        assert s == [s[0]] + s[1..];
      }
    }
  }

  lemma Places(a: nat, b: nat, c: nat, d: nat)
    requires b < 64 && c < 64 && d < 64
    ensures var v := a * 262144 + b * 4096 + c * 64 + d;
      && v / 262144 == a && v / 4096 == a * 64 + b && v / 4096 % 64 == b && v / 64 % 64 == c && v % 64 == d
  {
    var v := a * 262144 + b * 4096 + c * 64 + d;
    assert v / 64 == a * 4096 + b * 64 + c;
    assert v / 4096 == (a * 4096 + b * 64 + c) / 64 == a * 64 + b;
  }

  lemma ShortBytes(c: Code)
    requires c < 0x800
    ensures EncodeCode(c) == if c < 0x80 then [c] else [0xC0 + c / 64, 0x80 + c % 64]
  {
  }

  lemma ThreeBytes(x: nat, y: nat, z: nat)
    requires y < 64 && z < 64 && 0x800 <= x * 4096 + y * 64 + z < 0x10000 && !Surrogate(x * 4096 + y * 64 + z)
    ensures EncodeCode(x * 4096 + y * 64 + z) == [0xE0 + x, 0x80 + y, 0x80 + z]
  {
    Places(0, x, y, z);
  }

  lemma FourBytes(x: nat, y: nat, z: nat, w: nat)
    requires y < 64 && z < 64 && w < 64 && 0x10000 <= x * 262144 + y * 4096 + z * 64 + w < 0x110000
    ensures EncodeCode(x * 262144 + y * 4096 + z * 64 + w) == [0xF0 + x, 0x80 + y, 0x80 + z, 0x80 + w]
  {
    Places(x, y, z, w);
  }

  lemma BytesRoundTrip(b: Bytes)
    requires DecodeCode(b).Some?
    ensures EncodeCode(DecodeCode(b).value.0) == b[..DecodeCode(b).value.1]
  {
    hide EncodeCode;
    var n := DecodeCode(b).value.1;
    if n <= 2 {
      ShortBytes(DecodeCode(b).value.0);
    } else if n == 3 {
      ThreeBytes(b[0] - 0xE0, b[1] - 0x80, b[2] - 0x80);
    } else {
      FourBytes(b[0] - 0xF0, b[1] - 0x80, b[2] - 0x80, b[3] - 0x80);
    }
  }

  /** What can be read is written back to the same bytes: the reader accepts one spelling of each text. */
  lemma {:induction false} OneSpelling(b: Bytes)
    requires Decode(b).Some?
    ensures Encode(Decode(b).value) == Some(b)
    decreases |b|
  {
    hide EncodeCode, DecodeCode;
    if b != [] {
      var (c, n) := DecodeCode(b).value;
      BytesRoundTrip(b);
      OneSpelling(b[n..]);
      var s := Decode(b).value;
      assert s[0] == c && s[1..] == Decode(b[n..]).value;
      assert b == b[..n] + b[n..];
    }
  }

  lemma NoSurrogateConcat(a: Str, b: Str)
    ensures NoSurrogate(a + b) <==> NoSurrogate(a) && NoSurrogate(b)
  {
    assert forall i :: 0 <= i < |a| ==> (a + b)[i] == a[i];
    assert forall i :: 0 <= i < |b| ==> (a + b)[|a| + i] == b[i];
  }

  predicate Ascii(s: Str) {
    forall i :: 0 <= i < |s| ==> s[i] < 0x80
  }

  /** ASCII text is its own encoding. */
  lemma {:induction false} AsciiEncodes(s: Str)
    requires Ascii(s)
    ensures Encode(s) == Some(s)
  {
    if s != [] {
      AsciiEncodes(s[1..]);
      assert s == [s[0]] + s[1..];
    }
  }
}
