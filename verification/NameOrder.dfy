/** When sorting paths by component and sorting their joined names give the same order. */
module NameOrder {
  import opened Ordering
  import opened Text
  import opened FileTree

  /**
   * `p` and `q` part at component `i`, where `p` has a shorter name, goes deeper, and `q` continues it below a slash.
   */
  predicate ClashAt(p: Path, q: Path, i: nat) {
    && i + 1 < |p| && i < |q| && p[..i] == q[..i]
    && ProperPrefix(p[i], q[i]) && q[i][|p[i]|] < SLASH
  }

  predicate Clash(p: Path, q: Path) {
    exists i :: 0 <= i < |p| && ClashAt(p, q, i)
  }

  lemma ClashShift(p: Path, q: Path)
    requires p != [] && q != [] && p[0] == q[0]
    ensures Clash(p, q) <==> Clash(p[1..], q[1..])
  {
    if i :| 0 <= i < |p| && ClashAt(p, q, i) {
      assert p[..i][1..] == p[1..][..i - 1] && q[..i][1..] == q[1..][..i - 1];
      assert ClashAt(p[1..], q[1..], i - 1);
    }
    if i :| 0 <= i < |p[1..]| && ClashAt(p[1..], q[1..], i) {
      assert p[..i + 1] == [p[0]] + p[1..][..i] && q[..i + 1] == [q[0]] + q[1..][..i];
      assert ClashAt(p, q, i + 1);
    }
  }

  /** Names that differ before either ends are ordered by that difference, whatever follows. */
  lemma {:induction false} LexDiverge(a: Str, b: Str, x: Str, y: Str)
    requires !IsPrefix(a, b) && !IsPrefix(b, a)
    ensures StrLess(a + x, b + y) == StrLess(a, b)
  {
    if a[0] == b[0] {
      assert a == [a[0]] + a[1..] && b == [b[0]] + b[1..];
      assert (a + x)[1..] == a[1..] + x && (b + y)[1..] == b[1..] + y;
      LexDiverge(a[1..], b[1..], x, y);
    }
  }

  /** The text after the first component. */
  function Rest(p: Path): Str
    requires p != []
  {
    if |p| == 1 then [] else [SLASH] + Join(p[1..])
  }

  lemma JoinRest(p: Path)
    requires p != []
    ensures Join(p) == p[0] + Rest(p)
  {
  }

  /** Paths with different first components can only clash there. */
  lemma ClashesAtFirst(p: Path, q: Path)
    requires p != [] && q != [] && p[0] != q[0]
    ensures Clash(p, q) <==> |p| > 1 && ProperPrefix(p[0], q[0]) && q[0][|p[0]|] < SLASH
  {
    assert p[..0] == q[..0];
    assert Clash(p, q) <== ClashAt(p, q, 0);
    forall i | 0 < i < |p| && i < |q| ensures p[..i] != q[..i] {
      assert p[..i][0] != q[..i][0];
    }
  }

  /** Sequences with different heads are ordered by them. */
  lemma LexHeads<T(!new)>(lt: (T, T) -> bool, a: seq<T>, b: seq<T>)
    requires a != [] && b != [] && a[0] != b[0]
    ensures Lex(lt, a, b) == lt(a[0], b[0])
  {
  }

  lemma LexEmpty<T(!new)>(lt: (T, T) -> bool, b: seq<T>)
    requires b != []
    ensures Lex(lt, [], b) && !Lex(lt, b, [])
  {
  }

  /** What follows a slash or the end of a name decides against what continues it. */
  lemma RestAgainstTail(p: Path, text: Str)
    requires p != [] && text != [] && text[0] != SLASH
    ensures StrLess(Rest(p), text) <==> |p| == 1 || SLASH < text[0]
    ensures StrLess(text, Rest(p)) <==> |p| > 1 && text[0] < SLASH
  {
    hide Lex, Join;
    if |p| == 1 {
      LexEmpty(CodeLess, text);
    } else {
      LexHeads(CodeLess, Rest(p), text);
      LexHeads(CodeLess, text, Rest(p));
    }
  }

  /** A first component that is a proper prefix of the other path's. */
  lemma PrefixComponent(p: Path, q: Path)
    requires p != [] && q != [] && GoodPath(q) && ProperPrefix(p[0], q[0])
    ensures PathLess(p, q)
    ensures StrLess(Join(p), Join(q)) <==> !Clash(p, q)
    ensures StrLess(Join(q), Join(p)) <==> Clash(p, q)
    ensures !Clash(q, p)
  {
    hide Clash, Lex, Join, Rest;
    var a := p[0];
    var tail := q[0][|a|..];
    assert q[0] == a + tail && q[0] in q && tail[0] in q[0];
    LexPrefix(CodeLess, a, [], tail);
    assert a + [] == a;
    LexEmpty(CodeLess, tail);
    LexHeads(StrLess, p, q);
    JoinRest(p);
    JoinRest(q);
    var text := tail + Rest(q);
    assert a + tail + Rest(q) == a + text;
    LexPrefix(CodeLess, a, Rest(p), text);
    LexPrefix(CodeLess, a, text, Rest(p));
    RestAgainstTail(p, text);
    ClashesAtFirst(p, q);
    ClashesAtFirst(q, p);
  }

  /** The two orders disagree on a pair exactly when it clashes. */
  lemma {:induction false} OrdersDiffer(p: Path, q: Path)
    requires p != [] && q != [] && GoodPath(p) && GoodPath(q) && p != q
    ensures PathLess(p, q) && !StrLess(Join(p), Join(q)) <==> Clash(p, q)
  {
    var a, b := p[0], q[0];
    assert a in p && b in q;
    JoinRest(p);
    JoinRest(q);
    assert p == [a] + p[1..] && q == [b] + q[1..];
    if a == b {
      ClashShift(p, q);
      LexPrefix(CodeLess, a, Rest(p), Rest(q));
      assert PathLess(p, q) == PathLess(p[1..], q[1..]);
      assert StrLess(Join(p), Join(q)) == StrLess(Rest(p), Rest(q));
      if |p| > 1 && |q| > 1 {
        LexPrefix(CodeLess, [SLASH], Join(p[1..]), Join(q[1..]));
        OrdersDiffer(p[1..], q[1..]);
      }
    } else if IsPrefix(a, b) {
      assert b[..|b|] == b;
      PrefixComponent(p, q);
    } else if IsPrefix(b, a) {
      assert a[..|a|] == a;
      PrefixComponent(q, p);
      LexAsymmetric(p, q);
    } else {
      LexDiverge(a, b, Rest(p), Rest(q));
      ClashesAtFirst(p, q);
    }
  }

  lemma LexAsymmetric(p: Path, q: Path)
    ensures PathLess(q, p) ==> !PathLess(p, q)
  {
    PathOrder();
  }

  lemma LiteralGood(s: string)
    requires s != "" && s[0] != '.' && '/' !in s && '\0' !in s
    ensures GoodName(U(s))
  {
    LiteralChars(s, '/');
    LiteralChars(s, '\0');
    assert U(s)[0] != DOT;
  }

  /** `a/x` sorts before `a.b` by component and behind it by name. */
  lemma ClashWitness()
    ensures var p, q := [U("a"), U("x")], [U("a.b")];
      && Clash(p, q) && GoodPath(p) && GoodPath(q)
      && PathLess(p, q) && StrLess(Join(q), Join(p))
  {
    var p, q := [U("a"), U("x")], [U("a.b")];
    LiteralGood("a");
    LiteralGood("x");
    LiteralGood("a.b");
    assert q[0][..1] == p[0] && p[..0] == q[..0];
    assert ClashAt(p, q, 0);
    PrefixComponent(p, q);
  }
}
