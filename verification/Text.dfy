/** Python text as code points, its separators, and slash-separated names. */
module Text {
  import opened Ordering

  /** A Python code point; lone surrogates are code points too. */
  type Code = c: int | 0 <= c < 0x110000

  type Str = seq<Code>

  const NUL: Code := 0
  const DOT: Code := 0x2E
  const SLASH: Code := 0x2F
  const COLON: Code := 0x3A
  const BACKSLASH: Code := 0x5C

  /** The code points of a literal. */
  function U(s: string): (r: Str)
    ensures |r| == |s|
  {
    seq(|s|, i requires 0 <= i < |s| => s[i] as int)
  }

  lemma LiteralChars(s: string, c: char)
    ensures c as int in U(s) <==> c in s
  {
    if c in s {
      var i :| 0 <= i < |s| && s[i] == c;
      assert U(s)[i] == c as int;
    }
  }

  lemma Joined(a: string, b: string)
    ensures U(a) + U(b) == U(a + b)
  {
  }

  /** `str.isspace` of one code point, also what `\s` matches. */
  predicate IsSpace(c: Code) {
    || 0x09 <= c <= 0x0D || 0x1C <= c <= 0x20 || c == 0x85 || c == 0xA0 || c == 0x1680
    || 0x2000 <= c <= 0x200A || c == 0x2028 || c == 0x2029 || c == 0x202F || c == 0x205F || c == 0x3000
  }

  /** The white-space code points of Unicode and of ASCII, one by one. */
  lemma SpacesSpelled(c: Code)
    ensures IsSpace(c) <==> c in {
      9, 10, 11, 12, 13, 28, 29, 30, 31, 32, 133, 160, 5760, 8192, 8193, 8194, 8195, 8196, 8197, 8198, 8199, 8200, 8201,
      8202, 8232, 8233, 8239, 8287, 12288}
  {
  }

  /** `not s.strip()` */
  predicate IsBlank(s: Str) {
    forall i :: 0 <= i < |s| ==> IsSpace(s[i])
  }

  predicate IsPrefix<T(==)>(a: seq<T>, b: seq<T>) {
    |a| <= |b| && b[..|a|] == a
  }

  predicate ProperPrefix<T(==)>(a: seq<T>, b: seq<T>) {
    IsPrefix(a, b) && |a| < |b|
  }

  predicate NoSlash(s: Str) {
    SLASH !in s
  }

  /** `s.split("/")` */
  function Split(s: Str): (r: seq<Str>)
    ensures |r| > 0
  {
    if s == [] then [[]]
    else if s[0] == SLASH then [[]] + Split(s[1..])
    else var rest := Split(s[1..]); [[s[0]] + rest[0]] + rest[1..]
  }

  /** `"/".join(parts)` */
  function Join(parts: seq<Str>): Str {
    if parts == [] then []
    else if |parts| == 1 then parts[0]
    else parts[0] + [SLASH] + Join(parts[1..])
  }

  lemma {:induction false} JoinSplit(s: Str)
    ensures Join(Split(s)) == s
    ensures forall p :: p in Split(s) ==> NoSlash(p)
  {
    if s != [] {
      JoinSplit(s[1..]);
      var rest := Split(s[1..]);
      assert s == [s[0]] + s[1..];
      if s[0] == SLASH {
        assert Split(s)[1..] == rest;
      } else {
        var first := [s[0]] + rest[0];
        assert Split(s)[1..] == rest[1..];
        if |rest| > 1 { assert first + [SLASH] + Join(rest[1..]) == [s[0]] + (rest[0] + [SLASH] + Join(rest[1..])); }
        assert rest[0] in rest;
        assert forall p :: p in rest[1..] ==> p in rest;
      }
    }
  }

  lemma {:induction false} SplitAtSlash(head: Str, tail: Str)
    requires NoSlash(head)
    ensures Split(head + [SLASH] + tail) == [head] + Split(tail)
  {
    var s := head + [SLASH] + tail;
    if head == [] {
      assert s[1..] == tail;
    } else {
      SplitAtSlash(head[1..], tail);
      assert s[1..] == head[1..] + [SLASH] + tail;
      assert head == [head[0]] + head[1..];
    }
  }

  lemma {:induction false} SplitPlain(s: Str)
    requires NoSlash(s)
    ensures Split(s) == [s]
  {
    if s != [] {
      SplitPlain(s[1..]);
      assert s == [s[0]] + s[1..];
    }
  }

  /** Splitting undoes joining. */
  lemma {:induction false} SplitJoin(parts: seq<Str>)
    requires parts != [] && forall p :: p in parts ==> NoSlash(p)
    ensures Split(Join(parts)) == parts
  {
    if |parts| == 1 {
      SplitPlain(parts[0]);
    } else {
      SplitJoin(parts[1..]);
      SplitAtSlash(parts[0], Join(parts[1..]));
      assert parts == [parts[0]] + parts[1..];
    }
  }

  lemma {:induction false} JoinAppend(a: seq<Str>, b: seq<Str>)
    requires a != [] && b != []
    ensures Join(a + b) == Join(a) + [SLASH] + Join(b)
  {
    if |a| == 1 {
      assert (a + b)[1..] == b;
    } else {
      JoinAppend(a[1..], b);
      assert (a + b)[1..] == a[1..] + b;
    }
  }

  predicate CodeLess(a: Code, b: Code) { a < b }

  /** Python's order of strings, by code point. */
  predicate StrLess(a: Str, b: Str) { Lex(CodeLess, a, b) }

  /** Python's order of paths, component by component. */
  predicate PathLess(a: seq<Str>, b: seq<Str>) { Lex(StrLess, a, b) }

  lemma StrOrder()
    ensures StrictTotal(StrLess)
  {
    forall x: Str ensures !StrLess(x, x) { LexIrreflexive(CodeLess, x); }
    forall x: Str, y: Str, z: Str | StrLess(x, y) && StrLess(y, z)
      ensures StrLess(x, z)
    {
      LexTransitive(CodeLess, x, y, z);
    }
    forall x: Str, y: Str ensures x == y || StrLess(x, y) || StrLess(y, x) { LexTotal(CodeLess, x, y); }
  }

  lemma PathOrder()
    ensures StrictTotal(PathLess)
  {
    StrOrder();
    forall x: seq<Str> ensures !PathLess(x, x) { LexIrreflexive(StrLess, x); }
    forall x: seq<Str>, y: seq<Str>, z: seq<Str> | PathLess(x, y) && PathLess(y, z)
      ensures PathLess(x, z)
    {
      LexTransitive(StrLess, x, y, z);
    }
    forall x: seq<Str>, y: seq<Str> ensures x == y || PathLess(x, y) || PathLess(y, x) { LexTotal(StrLess, x, y); }
  }
}
