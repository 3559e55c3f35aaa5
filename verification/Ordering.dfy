/** Strict orders, Python's `sorted` and the lexicographic order of sequences. */
module Ordering {

  datatype Option<+T> = None | Some(value: T)

  ghost predicate StrictPartial<T(!new)>(lt: (T, T) -> bool) {
    && (forall x :: !lt(x, x))
    && (forall x, y, z :: lt(x, y) && lt(y, z) ==> lt(x, z))
  }

  ghost predicate StrictTotal<T(!new)>(lt: (T, T) -> bool) {
    && StrictPartial(lt)
    && (forall x, y :: x == y || lt(x, y) || lt(y, x))
  }

  predicate Increasing<T>(lt: (T, T) -> bool, s: seq<T>) {
    forall i, j :: 0 <= i < j < |s| ==> lt(s[i], s[j])
  }

  predicate NoDescent<T>(lt: (T, T) -> bool, s: seq<T>) {
    forall i, j :: 0 <= i < j < |s| ==> !lt(s[j], s[i])
  }

  predicate NoRepeats<T(==)>(s: seq<T>) {
    forall i, j :: 0 <= i < j < |s| ==> s[i] != s[j]
  }

  /** Places `x` behind every element that is not greater, as a stable sort does. */
  function Insert<T>(lt: (T, T) -> bool, x: T, s: seq<T>): (r: seq<T>) {
    if s == [] then [x]
    else if lt(x, s[0]) then [x] + s
    else [s[0]] + Insert(lt, x, s[1..])
  }

  /** Python's `sorted` with the strict order `lt`. */
  function Sort<T>(lt: (T, T) -> bool, s: seq<T>): (r: seq<T>) {
    if s == [] then [] else Insert(lt, s[|s| - 1], Sort(lt, s[..|s| - 1]))
  }

  lemma {:induction false} InsertKeepsElements<T>(lt: (T, T) -> bool, x: T, s: seq<T>)
    ensures multiset(Insert(lt, x, s)) == multiset(s) + multiset{x}
  {
    if s != [] && !lt(x, s[0]) {
      InsertKeepsElements(lt, x, s[1..]);
      assert s == [s[0]] + s[1..];
    }
  }

  /** Sorting only reorders. */
  lemma {:induction false} SortKeepsElements<T>(lt: (T, T) -> bool, s: seq<T>)
    ensures multiset(Sort(lt, s)) == multiset(s)
  {
    if s != [] {
      SortKeepsElements(lt, s[..|s| - 1]);
      InsertKeepsElements(lt, s[|s| - 1], Sort(lt, s[..|s| - 1]));
      assert s == s[..|s| - 1] + [s[|s| - 1]];
    }
  }

  lemma SameElements<T>(s: seq<T>, t: seq<T>)
    requires multiset(s) == multiset(t)
    ensures |s| == |t|
    ensures forall x :: x in s <==> x in t
  {
    assert |s| == |multiset(s)| && |t| == |multiset(t)|;
    forall x ensures x in s <==> x in t {
      assert x in s <==> x in multiset(s);
      assert x in t <==> x in multiset(t);
    }
  }

  lemma SortElements<T>(lt: (T, T) -> bool, s: seq<T>)
    ensures |Sort(lt, s)| == |s|
    ensures forall x :: x in Sort(lt, s) <==> x in s
  {
    SortKeepsElements(lt, s);
    SameElements(Sort(lt, s), s);
  }

  lemma {:induction false} InsertOrdered<T(!new)>(lt: (T, T) -> bool, x: T, s: seq<T>)
    requires StrictPartial(lt)
    requires forall a, b | a in s + [x] && b in s + [x] :: a == b || lt(a, b) || lt(b, a)
    requires x !in s && Increasing(lt, s)
    ensures Increasing(lt, Insert(lt, x, s))
  {
    if s != [] && !lt(x, s[0]) {
      var rest := s[1..];
      assert forall a :: a in rest + [x] ==> a in s + [x];
      assert Increasing(lt, rest);
      InsertOrdered(lt, x, rest);
      InsertKeepsElements(lt, x, rest);
      var r := Insert(lt, x, rest);
      assert s[0] in s + [x] && x in s + [x];
      forall j | 0 <= j < |r| ensures lt(s[0], r[j]) {
        assert r[j] in multiset(r);
        if r[j] != x {
          assert r[j] in multiset(rest);
          var k :| 0 <= k < |rest| && rest[k] == r[j];
          assert rest[k] == s[k + 1];
        }
      }
    }
  }

  /** Distinct elements that are pairwise comparable sort into a strictly increasing list. */
  lemma {:induction false} SortIncreasing<T(!new)>(lt: (T, T) -> bool, s: seq<T>)
    requires StrictPartial(lt)
    requires forall a, b | a in s && b in s :: a == b || lt(a, b) || lt(b, a)
    requires NoRepeats(s)
    ensures Increasing(lt, Sort(lt, s))
  {
    if s != [] {
      var init, x := s[..|s| - 1], s[|s| - 1];
      assert forall a :: a in init ==> a in s;
      SortIncreasing(lt, init);
      SortElements(lt, init);
      assert x !in init;
      var sorted := Sort(lt, init);
      assert forall a :: a in sorted + [x] ==> a in s;
      InsertOrdered(lt, x, sorted);
    }
  }

  lemma IncreasingNoRepeats<T(!new)>(lt: (T, T) -> bool, s: seq<T>)
    requires StrictPartial(lt) && Increasing(lt, s)
    ensures NoRepeats(s)
  {
  }

  lemma HeadIn<T>(s: seq<T>)
    ensures s == [] || s[0] in s
  {
  }

  lemma HeadLeast<T>(lt: (T, T) -> bool, s: seq<T>, i: nat)
    requires Increasing(lt, s) && i < |s|
    ensures i == 0 || lt(s[0], s[i])
  {
  }

  /** A strictly increasing list is determined by its elements. */
  lemma {:induction false} IncreasingUnique<T(!new)>(lt: (T, T) -> bool, s: seq<T>, t: seq<T>)
    requires StrictPartial(lt)
    requires Increasing(lt, s) && Increasing(lt, t)
    requires forall x :: x in s <==> x in t
    ensures s == t
  {
    if s == [] {
      HeadIn(t);
    } else {
      assert s[0] in t;
      var j :| 0 <= j < |t| && t[j] == s[0];
      assert t[0] in s;
      var i :| 0 <= i < |s| && s[i] == t[0];
      HeadLeast(lt, s, i);
      HeadLeast(lt, t, j);
      assert s[0] == t[0];
      forall x ensures x in s[1..] <==> x in t[1..] {
        if x in s[1..] {
          var k :| 0 <= k < |s[1..]| && s[1..][k] == x;
          assert lt(s[0], s[k + 1]) && x in s;
        }
        if x in t[1..] {
          var k :| 0 <= k < |t[1..]| && t[1..][k] == x;
          assert lt(t[0], t[k + 1]) && x in t;
        }
      }
      IncreasingUnique(lt, s[1..], t[1..]);
      assert s == [s[0]] + s[1..] && t == [t[0]] + t[1..];
    }
  }

  lemma ConcatDistinct<T>(s: seq<T>, t: seq<T>)
    requires NoRepeats(s) && NoRepeats(t) && forall x :: x in s ==> x !in t
    ensures NoRepeats(s + t)
  {
    forall i, j | 0 <= i < j < |s + t| ensures (s + t)[i] != (s + t)[j] {
      assert i < |s| ==> s[i] in s;
      assert j >= |s| ==> t[j - |s|] in t;
    }
  }

  lemma {:induction false} PermutationDistinct<T>(s: seq<T>, t: seq<T>)
    requires multiset(s) == multiset(t) && NoRepeats(s)
    ensures NoRepeats(t)
  {
    forall x ensures multiset(s)[x] <= 1 { DistinctMultiplicity(s, x); }
    forall i, j | 0 <= i < j < |t| ensures t[i] != t[j] {
      var a, b := t[..j], t[j..];
      assert t == a + b;
      assert t[i] == a[i] && t[j] == b[0];
      assert a[i] in multiset(a) && b[0] in multiset(b);
      assert multiset(t)[t[i]] == multiset(a)[t[i]] + multiset(b)[t[i]];
    }
  }

  lemma {:induction false} DistinctMultiplicity<T>(s: seq<T>, x: T)
    requires NoRepeats(s)
    ensures multiset(s)[x] <= 1
  {
    if s != [] {
      var init, last := s[..|s| - 1], s[|s| - 1];
      DistinctMultiplicity(init, x);
      assert s == init + [last];
      assert last !in init;
    }
  }

  lemma {:induction false} LeastExists<T(!new)>(lt: (T, T) -> bool, s: set<T>) returns (m: T)
    requires StrictTotal(lt) && s != {}
    ensures m in s && forall x :: x in s && x != m ==> lt(m, x)
  {
    m :| m in s;
    if s != {m} {
      var rest := s - {m};
      assert s == rest + {m};
      var k := LeastExists(lt, rest);
      if lt(k, m) {
        forall x | x in s && x != k ensures lt(k, x) { assert x == m || x in rest; }
        m := k;
      } else {
        forall x | x in s && x != m ensures lt(m, x) { assert x in rest; }
      }
    }
  }

  /** Python's `sorted` of a set: its elements in ascending order. */
  ghost function Ascending<T(!new)>(lt: (T, T) -> bool, s: set<T>): (r: seq<T>)
    requires StrictTotal(lt)
    ensures forall x :: x in r <==> x in s
    ensures Increasing(lt, r)
  {
    if s == {} then []
    else
      assert exists m :: m in s && forall x :: x in s && x != m ==> lt(m, x) by { var m := LeastExists(lt, s); }
      var m :| m in s && forall x :: x in s && x != m ==> lt(m, x);
      [m] + Ascending(lt, s - {m})
  }

  /** Sorting leaves exactly the sorted lists unchanged. */
  lemma {:induction false} SortFixpoint<T(!new)>(lt: (T, T) -> bool, s: seq<T>)
    requires StrictTotal(lt)
    ensures NoDescent(lt, s) ==> Sort(lt, s) == s
    ensures NoDescent(lt, Sort(lt, s))
  {
    if s != [] {
      var init, x := s[..|s| - 1], s[|s| - 1];
      SortFixpoint(lt, init);
      InsertNoDescent(lt, x, Sort(lt, init));
      InsertLast(lt, x, Sort(lt, init));
      assert s == init + [x];
    }
  }

  lemma {:induction false} InsertNoDescent<T(!new)>(lt: (T, T) -> bool, x: T, s: seq<T>)
    requires StrictTotal(lt) && NoDescent(lt, s)
    ensures NoDescent(lt, Insert(lt, x, s))
  {
    hide StrictTotal;
    if s != [] && !lt(x, s[0]) {
      InsertNoDescent(lt, x, s[1..]);
      InsertKeepsElements(lt, x, s[1..]);
      var r := Insert(lt, x, s[1..]);
      SameElements(r, s[1..] + [x]);
      forall j | 0 <= j < |r| ensures !lt(r[j], s[0]) {
        assert r[j] in s[1..] + [x];
        if r[j] in s[1..] {
          var k :| 0 <= k < |s[1..]| && s[1..][k] == r[j];
          assert s[k + 1] == r[j];
        }
      }
    } else if s != [] {
      BelowHead(lt, x, s);
    }
  }

  lemma BelowHead<T(!new)>(lt: (T, T) -> bool, x: T, s: seq<T>)
    requires StrictTotal(lt) && NoDescent(lt, s) && s != [] && lt(x, s[0])
    ensures NoDescent(lt, [x] + s)
  {
  }

  /** An element with nothing greater before it goes last. */
  lemma {:induction false} InsertLast<T(!new)>(lt: (T, T) -> bool, x: T, s: seq<T>)
    ensures (forall y :: y in s ==> !lt(x, y)) ==> Insert(lt, x, s) == s + [x]
  {
    if s != [] {
      InsertLast(lt, x, s[1..]);
      assert s == [s[0]] + s[1..];
      assert forall y :: y in s[1..] ==> y in s;
    }
  }

  function Map<S, T>(f: S -> T, s: seq<S>): (r: seq<T>)
    ensures |r| == |s|
    ensures forall i :: 0 <= i < |s| ==> r[i] == f(s[i])
  {
    seq(|s|, i requires 0 <= i < |s| => f(s[i]))
  }

  function Without<T>(s: seq<T>, j: nat): (r: seq<T>)
    requires j < |s|
  {
    s[..j] + s[j + 1..]
  }

  lemma WithoutElements<T>(s: seq<T>, j: nat)
    requires j < |s|
    ensures multiset(s) == multiset(Without(s, j)) + multiset{s[j]}
  {
    assert s == s[..j] + [s[j]] + s[j + 1..];
  }

  lemma MapWithout<S, T>(f: S -> T, s: seq<S>, j: nat)
    requires j < |s|
    ensures multiset(s) == multiset(Without(s, j)) + multiset{s[j]}
    ensures multiset(Map(f, s)) == multiset(Map(f, Without(s, j))) + multiset{f(s[j])}
  {
    WithoutElements(s, j);
    WithoutElements(Map(f, s), j);
    assert Map(f, Without(s, j)) == Without(Map(f, s), j);
  }

  /** Mapping a reordered list reorders the images. */
  lemma {:induction false} MapPermutation<S, T>(f: S -> T, s: seq<S>, t: seq<S>)
    requires multiset(s) == multiset(t)
    ensures multiset(Map(f, s)) == multiset(Map(f, t))
    decreases |s|
  {
    SameElements(s, t);
    if s != [] {
      HeadIn(s);
      var j :| 0 <= j < |t| && t[j] == s[0];
      MapWithout(f, s, 0);
      MapWithout(f, t, j);
      assert multiset(Without(s, 0)) == multiset(s) - multiset{s[0]};
      assert multiset(Without(t, j)) == multiset(t) - multiset{s[0]};
      MapPermutation(f, Without(s, 0), Without(t, j));
    }
  }

  /** Lexicographic order of sequences over the element order `lt`. */
  predicate Lex<T(==)>(lt: (T, T) -> bool, a: seq<T>, b: seq<T>) {
    if b == [] then false
    else if a == [] then true
    else if a[0] == b[0] then Lex(lt, a[1..], b[1..])
    else lt(a[0], b[0])
  }

  lemma {:induction false} LexIrreflexive<T(!new)>(lt: (T, T) -> bool, a: seq<T>)
    ensures !Lex(lt, a, a)
  {
    if a != [] { LexIrreflexive(lt, a[1..]); }
  }

  lemma {:induction false} LexTransitive<T(!new)>(lt: (T, T) -> bool, a: seq<T>, b: seq<T>, c: seq<T>)
    requires StrictTotal(lt)
    requires Lex(lt, a, b) && Lex(lt, b, c)
    ensures Lex(lt, a, c)
  {
    if a != [] && a[0] == b[0] && b[0] == c[0] { LexTransitive(lt, a[1..], b[1..], c[1..]); }
  }

  lemma {:induction false} LexTotal<T(!new)>(lt: (T, T) -> bool, a: seq<T>, b: seq<T>)
    requires StrictTotal(lt)
    ensures a == b || Lex(lt, a, b) || Lex(lt, b, a)
  {
    if a != [] && b != [] && a[0] == b[0] {
      LexTotal(lt, a[1..], b[1..]);
      assert a == [a[0]] + a[1..] && b == [b[0]] + b[1..];
    }
  }

  /** A shared prefix does not matter to the lexicographic order. */
  lemma {:induction false} LexPrefix<T(!new)>(lt: (T, T) -> bool, p: seq<T>, a: seq<T>, b: seq<T>)
    ensures Lex(lt, p + a, p + b) == Lex(lt, a, b)
  {
    if p == [] {
      assert p + a == a && p + b == b;
    } else {
      assert (p + a)[1..] == p[1..] + a && (p + b)[1..] == p[1..] + b;
      LexPrefix(lt, p[1..], a, b);
    }
  }
}
