/** What an accepted manifest says, down to its JSON values, and that nobody can change a listed file under it. */
module Tamper {
  import opened Ordering
  import opened Text
  import opened FileTree
  import opened Inventory
  import opened JsonFile
  import Json
  import opened Manifest

  /** The JSON value equals the integer in Python. */
  predicate SizeIs(v: Option<Json.Raw>, size: nat, f: Floats) {
    match v
    case Some(Int(n)) => n == size
    case Some(Bool(b)) => if b then size == 1 else size == 0
    case Some(Float(text)) => f.whole(text) == Some(size)
    case _ => false
  }

  /** The value is an object that states this name, and the size and the digest of this content. */
  predicate States(v: Json.Raw, name: Str, content: Bytes, hash: Bytes -> Str, f: Floats) {
    && v.Object?
    && Lookup(v.members, U("path")) == Some(Json.String(name))
    && SizeIs(Lookup(v.members, U("bytes")), |content|, f)
    && Lookup(v.members, U("sha256")) == Some(Json.String(hash(content)))
  }

  /** A name a manifest can declare. */
  predicate Declarable(p: Path) {
    BACKSLASH !in Join(p) && Resolvable(Join(p))
  }

  /** The values state the files `ps` of the tree one by one. */
  ghost predicate StatesAll(items: seq<Json.Raw>, ps: seq<Path>, t: Tree, hash: Bytes -> Str, f: Floats) {
    && |ps| == |items|
    && forall i :: 0 <= i < |ps| ==>
        ps[i] in t && t[ps[i]].File? && Declarable(ps[i]) && States(items[i], Join(ps[i]), t[ps[i]].content, hash, f)
  }

  /** `ps` are the files without the manifest, in the order of their names. */
  ghost predicate InNameOrder(ps: seq<Path>, files: seq<Path>) {
    Increasing(StrLess, Map(Join, ps)) && forall p :: p in ps <==> p in files && p != [U("manifest.json")]
  }

  /** The list states exactly the given files but the manifest, each once and in the order of their names. */
  ghost predicate ListsFiles(items: seq<Json.Raw>, files: seq<Path>, t: Tree, hash: Bytes -> Str, f: Floats) {
    exists ps :: InNameOrder(ps, files) && StatesAll(items, ps, t, hash, f)
  }

  /** The files of a tree with real names. */
  ghost predicate RealFiles(t: Tree, files: seq<Path>) {
    forall p :: p in files ==> p in t && t[p].File? && p != [] && GoodPath(p)
  }

  lemma SizeMeaning(v: Json.Raw, size: nat, f: Floats)
    requires v.Object?
    ensures EqualsInt(FieldOf(v.members, BYTES, f), size) <==> SizeIs(Lookup(v.members, U("bytes")), size, f)
  {
    hide U, Lookup;
  }

  lemma TextMeaning(v: Json.Raw, name: Str, f: Floats, text: Str)
    requires v.Object?
    ensures FieldOf(v.members, name, f) == Field.String(text) <==> Lookup(v.members, name) == Some(Json.String(text))
  {
    hide Lookup;
  }

  /** What the checkers demand of one value, on the value itself. */
  lemma DescribesMeaning(v: Json.Raw, t: Tree, p: Path, hash: Bytes -> Str, f: Floats)
    requires p != [] && GoodPath(p) && p in t && t[p].File?
    ensures Describes(t, hash, Seen(f)(v)) && PathOf(Seen(f)(v)) == Join(p)
      <==> Declarable(p) && States(v, Join(p), t[p].content, hash, f)
  {
    hide U, Lookup, FieldOf, EqualsInt, SizeIs, SafeRelative, Join, GoodPath, Resolvable;
    DeclaredPathFound(p);
    JoinIsText(p);
    if v.Object? {
      SizeMeaning(v, |t[p].content|, f);
      TextMeaning(v, PATH, f, Join(p));
      TextMeaning(v, SHA256, f, hash(t[p].content));
    }
  }

  lemma JoinIsText(p: Path)
    requires p != [] && GoodPath(p)
    ensures Join(p) != []
  {
    assert p[0] in p;
  }

  /** The manifest has exactly the names of the files `ps`. */
  lemma NamesMatch(ps: seq<Path>, files: seq<Path>, t: Tree)
    requires RealFiles(t, files) && InNameOrder(ps, files)
    ensures forall n :: n in NamesOf(files) <==> exists i :: 0 <= i < |ps| && Join(ps[i]) == n
  {
    hide GoodPath, Join, StrLess, U;
    forall p | p in files && p != MANIFEST ensures Join(p) != MANIFEST_NAME && p in ps { ManifestNameIsItsOwn(p); }
    ManifestIsBareName();
    forall n ensures n in NamesOf(files) <==> exists i :: 0 <= i < |ps| && Join(ps[i]) == n {
      if n in NamesOf(files) {
        var p :| p in files && Join(p) == n;
        var i :| 0 <= i < |ps| && ps[i] == p;
      }
      if i :| 0 <= i < |ps| && Join(ps[i]) == n { assert ps[i] in ps; }
    }
  }

  lemma StatedIsExact(t: Tree, files: seq<Path>, items: seq<Json.Raw>, hash: Bytes -> Str, f: Floats, ps: seq<Path>)
    requires RealFiles(t, files) && InNameOrder(ps, files) && StatesAll(items, ps, t, hash, f)
    ensures ExactManifest(t, files, Map(Seen(f), items), hash)
  {
    hide GoodPath, Join, StrLess, U, Seen, PathOf, Describes, States, Declarable, NamesOf;
    var entries := Map(Seen(f), items);
    forall i | 0 <= i < |items| ensures Describes(t, hash, entries[i]) && PathOf(entries[i]) == Join(ps[i]) {
      assert ps[i] in ps;
      DescribesMeaning(items[i], t, ps[i], hash, f);
    }
    assert Map(PathOf, entries) == Map(Join, ps);
    NamesMatch(ps, files, t);
    forall n ensures n in Declared(entries) <==> n in NamesOf(files) {
      if i :| 0 <= i < |ps| && Join(ps[i]) == n { assert entries[i] in entries; }
      if e :| e in entries && PathOf(e) == n { var i :| 0 <= i < |entries| && entries[i] == e; }
    }
  }

  /** The file an entry names. */
  function FileOf(f: Floats): Json.Raw -> Path {
    (v: Json.Raw) => match SafeRelative(PathOf(Seen(f)(v))) case Some(p) => p case None => []
  }

  lemma ExactNames(t: Tree, files: seq<Path>, items: seq<Json.Raw>, hash: Bytes -> Str, f: Floats, v: Json.Raw)
    requires RealFiles(t, files) && ExactManifest(t, files, Map(Seen(f), items), hash) && v in items
    ensures var p := FileOf(f)(v);
      p in files && p != MANIFEST && PathOf(Seen(f)(v)) == Join(p) && Declarable(p)
        && States(v, Join(p), t[p].content, hash, f)
  {
    hide GoodPath, Join, StrLess, U, Seen, PathOf, Describes, States, SafeRelative, Resolvable;
    var entries := Map(Seen(f), items);
    var i :| 0 <= i < |items| && items[i] == v;
    assert entries[i] in entries && PathOf(entries[i]) in Declared(entries);
    var p :| p in files && Join(p) == PathOf(entries[i]);
    ManifestIsBareName();
    DescribesMeaning(v, t, p, hash, f);
    DeclaredPathFound(p);
  }

  lemma ExactIsStated(t: Tree, files: seq<Path>, items: seq<Json.Raw>, hash: Bytes -> Str, f: Floats)
    requires RealFiles(t, files) && ExactManifest(t, files, Map(Seen(f), items), hash)
    ensures InNameOrder(Map(FileOf(f), items), files) && StatesAll(items, Map(FileOf(f), items), t, hash, f)
  {
    hide GoodPath, Join, StrLess, U, Seen, PathOf, Describes, States, Declarable, FileOf;
    var entries, ps := Map(Seen(f), items), Map(FileOf(f), items);
    forall i | 0 <= i < |items|
      ensures ps[i] in files && ps[i] != MANIFEST && PathOf(entries[i]) == Join(ps[i]) && Declarable(ps[i])
        && States(items[i], Join(ps[i]), t[ps[i]].content, hash, f)
    {
      assert items[i] in items;
      ExactNames(t, files, items, hash, f, items[i]);
    }
    assert Map(PathOf, entries) == Map(Join, ps);
    ManifestIsBareName();
    forall p | p in files && p != MANIFEST ensures p in ps {
      ManifestNameIsItsOwn(p);
      assert Join(p) in Declared(entries);
      var e :| e in entries && PathOf(e) == Join(p);
      var i :| 0 <= i < |entries| && entries[i] == e;
      assert Join(ps[i]) == Join(p);
      SplitJoinGood(p);
      SplitJoinGood(ps[i]);
    }
  }

  lemma SplitJoinGood(p: Path)
    requires p != [] && GoodPath(p)
    ensures Split(Join(p)) == p
  {
    SplitJoin(p);
  }

  /** The entries are an exact manifest of the files exactly if the JSON values state them one by one in name order. */
  lemma ExactMeaning(t: Tree, files: seq<Path>, items: seq<Json.Raw>, hash: Bytes -> Str, f: Floats)
    requires RealFiles(t, files)
    ensures ExactManifest(t, files, Map(Seen(f), items), hash) <==> ListsFiles(items, files, t, hash, f)
  {
    hide ExactManifest, RealFiles, InNameOrder, StatesAll;
    if ExactManifest(t, files, Map(Seen(f), items), hash) { ExactIsStated(t, files, items, hash, f); }
    if ListsFiles(items, files, t, hash, f) {
      var ps :| InNameOrder(ps, files) && StatesAll(items, ps, t, hash, f);
      StatedIsExact(t, files, items, hash, f, ps);
    }
  }

  // ---- what acceptance means ---------------------------------------------------------------------

  /** The manifest is an object whose `files` is this list. */
  ghost predicate ManifestLists(t: Tree, f: Floats, items: seq<Json.Raw>) {
    && [U("manifest.json")] in t && t[[U("manifest.json")]].File?
    && match ReadJson(t[[U("manifest.json")]].content, f)
      case Some(Object(members)) => Lookup(members, U("files")) == Some(Json.Array(items))
      case _ => false
  }

  /** The manifest is an object whose `files` is empty without being a list. */
  ghost predicate ManifestEmpty(t: Tree, f: Floats) {
    && [U("manifest.json")] in t && t[[U("manifest.json")]].File?
    && match ReadJson(t[[U("manifest.json")]].content, f)
      case Some(Object(members)) => Lookup(members, U("files")) in {Some(Json.String([])), Some(Json.Object([]))}
      case _ => false
  }

  /** The files a walk returns are real. */
  lemma InventoryIsReal(t: Tree, met: Path -> bool)
    requires NamedTree(t) && InventoryOf(t, met).Some? && forall p :: met(p) ==> p != []
    ensures RealFiles(t, InventoryOf(t, met).value)
  {
    hide GoodPath, WellFormed, PathLess;
  }

  /**
   * The package checker finds nothing wrong exactly if no link is met and the manifest lists every file of the package
   * but itself, once, in the order of the names, each under its name with its size and its digest.
   */
  lemma PackageMeaning(t: Tree, f: Floats, hash: Bytes -> Str)
    requires NamedTree(t)
    ensures PackageAccepts(t, f, hash, InventoryOf(t, NotSkipped)) <==>
      && InventoryOf(t, NotSkipped).Some?
      && var files := InventoryOf(t, NotSkipped).value;
        || (exists items :: ManifestLists(t, f, items) && ListsFiles(items, files, t, hash, f))
        || (ManifestEmpty(t, f) && ListsFiles([], files, t, hash, f))
  {
    hide InventoryOf, ReadJson, ListsFiles, ExactManifest, Lookup, U, NotSkipped, RealFiles, NamedTree, Seen;
    if InventoryOf(t, NotSkipped).Some? && HasManifest(t, f) {
      NotSkippedIsBelow();
      InventoryIsReal(t, NotSkipped);
      var files := InventoryOf(t, NotSkipped).value;
      forall items { ExactMeaning(t, files, items, hash, f); }
      assert Map(Seen(f), []) == [];
    }
  }

  lemma NotSkippedIsBelow()
    ensures forall p :: NotSkipped(p) ==> p != []
    ensures forall p :: Kept(p) ==> p != []
  {
  }

  /** An integer for a size and 64 lower-case hexadecimal digits, both as the baseline checker wants them. */
  predicate PlainEntry(v: Json.Raw) {
    && v.Object?
    && (match Lookup(v.members, U("bytes")) case Some(Int(_)) => true case Some(Bool(_)) => true case _ => false)
    && match Lookup(v.members, U("sha256"))
      case Some(String(s)) =>
        |s| == 64 && forall i :: 0 <= i < 64 ==> 0x30 <= s[i] <= 0x39 || 0x61 <= s[i] <= 0x66
      case _ => false
  }

  /** A value that is stated as it should be is well formed for the baseline checker exactly if it is plain. */
  lemma PlainMeaning(v: Json.Raw, t: Tree, hash: Bytes -> Str, f: Floats)
    requires Describes(t, hash, Seen(f)(v))
    ensures WellFormedEntry(Seen(f)(v)) <==> PlainEntry(v)
  {
    hide U, Lookup, SafeRelative;
    FieldKinds(v, f);
  }

  lemma FieldKinds(v: Json.Raw, f: Floats)
    requires v.Object?
    ensures var size := Lookup(v.members, BYTES);
      FieldOf(v.members, BYTES, f).Int? || FieldOf(v.members, BYTES, f).Bool? <==>
        size.Some? && (size.value.Int? || size.value.Bool?)
    ensures FieldOf(v.members, SHA256, f).String? <==>
      Lookup(v.members, SHA256).Some? && Lookup(v.members, SHA256).value.String?
  {
    hide U, Lookup;
  }

  /** The baseline checker passes exactly if its walk meets no link and the files are listed so, in plain entries. */
  lemma BaselineMeaning(t: Tree, f: Floats, hash: Bytes -> Str)
    requires NamedTree(t)
    ensures BaselineVerdict(t, f, hash, InventoryOf(t, Kept)) == Pass <==>
      && InventoryOf(t, Kept).Some?
      && exists items ::
        && ManifestLists(t, f, items) && ListsFiles(items, InventoryOf(t, Kept).value, t, hash, f)
        && forall v :: v in items ==> PlainEntry(v)
  {
    hide InventoryOf, ReadJson, ListsFiles, Lookup, U, Kept, RealFiles, NamedTree, Seen, PlainEntry, Describes;
    hide WellFormedEntry, CrashesFirst, StrLess, PathOf, NamesOf;
    if InventoryOf(t, Kept).Some? && HasManifest(t, f) {
      NotSkippedIsBelow();
      InventoryIsReal(t, Kept);
      var files := InventoryOf(t, Kept).value;
      forall items
        ensures ExactManifest(t, files, Map(Seen(f), items), hash) <==> ListsFiles(items, files, t, hash, f)
      {
        ExactMeaning(t, files, items, hash, f);
      }
      forall items | ExactManifest(t, files, Map(Seen(f), items), hash)
        ensures !CrashesFirst(Map(Seen(f), items))
        ensures (forall e :: e in Map(Seen(f), items) ==> WellFormedEntry(e)) <==>
          forall v :: v in items ==> PlainEntry(v)
      {
        ExactIsPlain(t, files, items, hash, f);
      }
    }
  }

  lemma ExactIsPlain(t: Tree, files: seq<Path>, items: seq<Json.Raw>, hash: Bytes -> Str, f: Floats)
    requires ExactManifest(t, files, Map(Seen(f), items), hash)
    ensures !CrashesFirst(Map(Seen(f), items))
    ensures (forall e :: e in Map(Seen(f), items) ==> WellFormedEntry(e)) <==> forall v :: v in items ==> PlainEntry(v)
  {
    hide Describes, WellFormedEntry, PlainEntry, Seen, StrLess, NamesOf, Unresolvable;
    var entries := Map(Seen(f), items);
    forall i | 0 <= i < |items|
      ensures entries[i] in entries && !Unresolvable(entries[i])
      ensures WellFormedEntry(entries[i]) <==> PlainEntry(items[i])
    {
      assert entries[i] in entries;
      PlainMeaning(items[i], t, hash, f);
      DescribedIsResolvable(entries[i], t, hash);
    }
    if forall e :: e in entries ==> WellFormedEntry(e) {
      forall v | v in items ensures PlainEntry(v) {
        var i :| 0 <= i < |items| && items[i] == v;
        assert WellFormedEntry(entries[i]);
      }
    }
    if forall v :: v in items ==> PlainEntry(v) {
      forall e | e in entries ensures WellFormedEntry(e) {
        var i :| 0 <= i < |entries| && entries[i] == e;
        assert PlainEntry(items[i]);
      }
    }
  }

  lemma DescribedIsResolvable(e: RawEntry, t: Tree, hash: Bytes -> Str)
    requires Describes(t, hash, e)
    ensures !Unresolvable(e)
  {
    UnresolvableIsBad(e);
  }

  /**
   * What the baseline checker demands of a value before it looks at the files: an object with a path that is not empty,
   * absolute, climbing or beyond what the system takes, an integer size, and 64 hexadecimal digits.
   */
  lemma EntryFormMeaning(v: Json.Raw, f: Floats)
    ensures WellFormedEntry(Seen(f)(v)) <==>
      && v.Object?
      && (match Lookup(v.members, U("path"))
          case Some(String(name)) =>
            && name != [] && name[0] != 0x2F && 0x5C !in name && 0 !in name && U("..") !in Split(name)
            && forall i :: 0 <= i < |name| ==> 0xD800 <= name[i] <= 0xDFFF ==> 0xDC80 <= name[i] <= 0xDCFF
          case _ => false)
      && (match Lookup(v.members, U("bytes")) case Some(Int(_)) => true case Some(Bool(_)) => true case _ => false)
      && (match Lookup(v.members, U("sha256"))
          case Some(String(s)) =>
            |s| == 64 && forall i :: 0 <= i < 64 ==> 0x30 <= s[i] <= 0x39 || 0x61 <= s[i] <= 0x66
          case Some(Int(n)) => |Json.IntText(n)| == 64 && n > 0
          case _ => false)
  {
    hide U, Lookup, Hex64, Confined, Resolvable, Json.IntText;
    if v.Object? {
      FieldKinds(v, f);
      PathKind(v, f);
      var digest := Lookup(v.members, SHA256);
      if digest.Some? && digest.value.Int? { DigitCount(digest.value.n); }
      if digest.Some? && digest.value.String? { HexMeaning(digest.value.text); }
      var path := Lookup(v.members, PATH);
      if path.Some? && path.value.String? { NameMeaning(path.value.text); }
    }
  }

  lemma PathKind(v: Json.Raw, f: Floats)
    requires v.Object?
    ensures var path, field := Lookup(v.members, PATH), FieldOf(v.members, PATH, f);
      && (field.String? <==> path.Some? && path.value.String?) && (field.String? ==> field.text == path.value.text)
    ensures var digest, field := Lookup(v.members, SHA256), FieldOf(v.members, SHA256, f);
      && (field.Int? <==> digest.Some? && digest.value.Int?) && (field.Int? ==> field.n == digest.value.n)
      && (field.String? ==> field.text == digest.value.text)
  {
    hide U, Lookup;
  }

  lemma HexMeaning(s: Str)
    ensures Hex64(s) <==> |s| == 64 && forall i :: 0 <= i < 64 ==> 0x30 <= s[i] <= 0x39 || 0x61 <= s[i] <= 0x66
  {
  }

  lemma {:induction false} KeptComponents(parts: seq<Str>, n: Str)
    ensures n in DropEmpty(parts) <==> n in parts && n != [] && n != [DOT]
  {
    if parts != [] { KeptComponents(parts[1..], n); }
  }

  lemma NameMeaning(name: Str)
    ensures SafeRelative(name).Some? <==>
      && name != [] && name[0] != 0x2F && 0x5C !in name && 0 !in name && U("..") !in Split(name)
      && forall i :: 0 <= i < |name| ==> 0xD800 <= name[i] <= 0xDFFF ==> 0xDC80 <= name[i] <= 0xDCFF
  {
    assert U("..") == [DOT, DOT];
    hide U, Split;
    KeptComponents(Split(name), [DOT, DOT]);
    assert Resolvable(name) <==>
      && 0 !in name
      && forall i :: 0 <= i < |name| ==> 0xD800 <= name[i] <= 0xDFFF ==> 0xDC80 <= name[i] <= 0xDCFF;
  }

  // ---- how many digits a number has ------------------------------------------------------------------

  function Ten(k: nat): (r: nat)
    ensures r > 0
  {
    if k == 0 then 1 else 10 * Ten(k - 1)
  }

  lemma {:induction false} TenPlus(a: nat, b: nat)
    ensures Ten(a + b) == Ten(a) * Ten(b)
  {
    if a > 0 { TenPlus(a - 1, b); }
  }

  lemma FifteenDigits()
    ensures Ten(15) == 1000000000000000
  {
    assert Ten(1) == 10 && Ten(3) == 1000;
    TenPlus(3, 3);
    TenPlus(6, 1);
    TenPlus(7, 7);
    TenPlus(14, 1);
  }

  lemma LeastDigits()
    ensures Ten(63) == LEAST_64_DIGITS
  {
    assert Ten(1) == 10;
    FifteenDigits();
    hide Ten;
    TenPlus(15, 15);
    TenPlus(30, 1);
    TenPlus(31, 31);
    TenPlus(62, 1);
  }

  /** A number has more than `k` digits exactly from the `k`-th power of ten on. */
  lemma {:induction false} LongNumbers(n: nat, k: nat)
    requires k > 0
    ensures |Json.NatText(n)| > k <==> n >= Ten(k)
  {
    if n >= 10 {
      if k > 1 { LongNumbers(n / 10, k - 1); }
    } else if k > 1 {
      TenGrows(k);
    }
  }

  lemma {:induction false} TenGrows(k: nat)
    requires k > 0
    ensures Ten(k) >= 10
  {
    if k > 1 { TenGrows(k - 1); }
  }

  lemma DigitCount(n: int)
    ensures LEAST_64_DIGITS <= n < 10 * LEAST_64_DIGITS <==> n > 0 && |Json.IntText(n)| == 64
  {
    LeastDigits();
    if n > 0 {
      LongNumbers(n, 63);
      LongNumbers(n, 64);
    }
  }



  // ---- tamper evidence -----------------------------------------------------------------------------

  /** Two trees have the same files, each with the same size and the same digest. */
  ghost predicate SameFiles(t: Tree, a: seq<Path>, u: Tree, b: seq<Path>, hash: Bytes -> Str)
    requires RealFiles(t, a) && RealFiles(u, b)
  {
    && (forall p :: p != [U("manifest.json")] ==> (p in a <==> p in b))
    && (forall p :: p in a && p in b && p != [U("manifest.json")] ==>
      hash(t[p].content) == hash(u[p].content) && |t[p].content| == |u[p].content|)
  }

  lemma SameSize(v: Option<Json.Raw>, m: nat, n: nat, f: Floats)
    requires SizeIs(v, m, f) && SizeIs(v, n, f)
    ensures m == n
  {
  }

  lemma OneStatement(v: Json.Raw, p: Path, c: Bytes, q: Path, d: Bytes, hash: Bytes -> Str, f: Floats)
    requires p != [] && GoodPath(p) && q != [] && GoodPath(q)
    requires States(v, Join(p), c, hash, f) && States(v, Join(q), d, hash, f)
    ensures p == q && hash(c) == hash(d) && |c| == |d|
  {
    hide GoodPath, Join, U, SizeIs, Lookup;
    SplitJoinGood(p);
    SplitJoinGood(q);
    SameSize(Lookup(v.members, U("bytes")), |c|, |d|, f);
  }

  /** One list states the files of two trees only if these are the same. */
  lemma OneListOneTree(items: seq<Json.Raw>, t: Tree, a: seq<Path>, u: Tree, b: seq<Path>, hash: Bytes -> Str,
      f: Floats)
    requires RealFiles(t, a) && RealFiles(u, b)
    requires ListsFiles(items, a, t, hash, f) && ListsFiles(items, b, u, hash, f)
    ensures SameFiles(t, a, u, b, hash)
  {
    hide GoodPath, Join, StrLess, Declarable, States;
    var ps :| InNameOrder(ps, a) && StatesAll(items, ps, t, hash, f);
    var qs :| InNameOrder(qs, b) && StatesAll(items, qs, u, hash, f);
    forall i | 0 <= i < |items|
      ensures ps[i] == qs[i] && hash(t[ps[i]].content) == hash(u[ps[i]].content)
      ensures |t[ps[i]].content| == |u[ps[i]].content|
    {
      assert ps[i] in ps && qs[i] in qs;
      OneStatement(items[i], ps[i], t[ps[i]].content, qs[i], u[qs[i]].content, hash, f);
    }
    assert ps == qs;
    FilesFromList(ps, t, a, u, b, hash);
  }

  lemma FilesFromList(ps: seq<Path>, t: Tree, a: seq<Path>, u: Tree, b: seq<Path>, hash: Bytes -> Str)
    requires RealFiles(t, a) && RealFiles(u, b) && InNameOrder(ps, a) && InNameOrder(ps, b)
    requires forall i :: 0 <= i < |ps| ==> ps[i] in t && t[ps[i]].File? && ps[i] in u && u[ps[i]].File?
    requires forall i :: 0 <= i < |ps| ==>
      hash(t[ps[i]].content) == hash(u[ps[i]].content) && |t[ps[i]].content| == |u[ps[i]].content|
    ensures SameFiles(t, a, u, b, hash)
  {
    hide GoodPath, Join, StrLess, U, Increasing, Map;
    forall p | p in a && p in b && p != [U("manifest.json")]
      ensures hash(t[p].content) == hash(u[p].content) && |t[p].content| == |u[p].content|
    {
      assert p in ps;
      var i :| 0 <= i < |ps| && ps[i] == p;
    }
  }

  /**
   * Two packages with the same manifest bytes that the package checker accepts have the same files, with the same sizes
   * and digests.
   */
  lemma TamperEvidence(t: Tree, u: Tree, f: Floats, hash: Bytes -> Str)
    requires NamedTree(t) && NamedTree(u) && MANIFEST in t && MANIFEST in u && t[MANIFEST] == u[MANIFEST]
    requires PackageAccepts(t, f, hash, InventoryOf(t, NotSkipped))
    requires PackageAccepts(u, f, hash, InventoryOf(u, NotSkipped))
    ensures RealFiles(t, InventoryOf(t, NotSkipped).value) && RealFiles(u, InventoryOf(u, NotSkipped).value)
    ensures SameFiles(t, InventoryOf(t, NotSkipped).value, u, InventoryOf(u, NotSkipped).value, hash)
  {
    hide InventoryOf, ReadJson, ListsFiles, Lookup, U, NotSkipped, RealFiles, NamedTree, PackageAccepts, SameFiles;
    PackageMeaning(t, f, hash);
    PackageMeaning(u, f, hash);
    NotSkippedIsBelow();
    InventoryIsReal(t, NotSkipped);
    InventoryIsReal(u, NotSkipped);
    var a, b := InventoryOf(t, NotSkipped).value, InventoryOf(u, NotSkipped).value;
    forall items | ListsFiles(items, a, t, hash, f) && ListsFiles(items, b, u, hash, f)
      ensures SameFiles(t, a, u, b, hash)
    {
      OneListOneTree(items, t, a, u, b, hash, f);
    }
  }

  ghost predicate Injective(hash: Bytes -> Str) {
    forall a, b :: hash(a) == hash(b) ==> a == b
  }

  /** If SHA-256 is injective, the files are the same byte for byte. */
  lemma SameManifestSameBytes(t: Tree, u: Tree, f: Floats, hash: Bytes -> Str, p: Path)
    requires NamedTree(t) && NamedTree(u) && MANIFEST in t && MANIFEST in u && t[MANIFEST] == u[MANIFEST]
    requires PackageAccepts(t, f, hash, InventoryOf(t, NotSkipped))
    requires PackageAccepts(u, f, hash, InventoryOf(u, NotSkipped))
    requires Injective(hash) && p != MANIFEST && NotSkipped(p)
    ensures (p in t && t[p].File?) <==> (p in u && u[p].File?)
    ensures p in t && t[p].File? ==> t[p].content == u[p].content
  {
    hide NotSkipped, NamedTree, PathLess, GoodPath, ReadManifest, Iterated, ExactManifest, Lookup, InventoryOf;
    TamperEvidence(t, u, f, hash);
  }

  // ---- a changed file is reported ------------------------------------------------------------------

  /** The tree with other bytes in a file. */
  function Changed(t: Tree, p: Path, content: Bytes): Tree
    requires p in t && t[p].File?
  {
    t[p := t[p].(content := content)]
  }

  lemma ChangeKeepsWalks(t: Tree, p: Path, content: Bytes, met: Path -> bool)
    requires p in t && t[p].File?
    ensures InventoryOf(Changed(t, p, content), met) == InventoryOf(t, met)
  {
    hide PathLess, InventoryOf;
    assert IsInventory(Changed(t, p, content), met, InventoryOf(t, met));
    InventoryUnique(Changed(t, p, content), met, InventoryOf(t, met));
  }

  /**
   * What the package checker says of one value that declares a real name: the file is missing, a key is missing, or the
   * size or digest differ.
   */
  lemma EntryError(v: Json.Raw, t: Tree, p: Path, hash: Bytes -> Str, f: Floats)
    requires p != [] && GoodPath(p) && Declarable(p)
    requires v.Object? && Lookup(v.members, U("path")) == Some(Json.String(Join(p)))
    ensures CheckEntry(t, hash, Seen(f)(v)) ==
      if p !in t || !t[p].File? then Report(FileMissing(Join(p)))
      else if Lookup(v.members, U("bytes")).None? || Lookup(v.members, U("sha256")).None? then Raise
      else if !States(v, Join(p), t[p].content, hash, f) then Report(HashMismatch(Join(p)))
      else Good
  {
    hide U, Lookup, EqualsInt, SizeIs, SafeRelative, Join, GoodPath, Resolvable;
    DeclaredPathFound(p);
    TextMeaning(v, PATH, f, Join(p));
    KeyMeaning(v, BYTES, f);
    KeyMeaning(v, SHA256, f);
    if p in t && t[p].File? { DescribesMeaning(v, t, p, hash, f); }
  }

  lemma KeyMeaning(v: Json.Raw, name: Str, f: Floats)
    requires v.Object?
    ensures FieldOf(v.members, name, f).Absent? <==> Lookup(v.members, name).None?
  {
    hide Lookup;
  }

  /** A value that stated a file states it after the change exactly if it is another file. */
  lemma StatedAfterChange(v: Json.Raw, q: Path, t: Tree, hash: Bytes -> Str, f: Floats, p: Path, content: Bytes)
    requires q in t && t[q].File? && q != [] && GoodPath(q) && Declarable(q)
    requires States(v, Join(q), t[q].content, hash, f) && p in t && t[p].File?
    requires hash(content) != hash(t[p].content) || |content| != |t[p].content|
    ensures CheckEntry(Changed(t, p, content), hash, Seen(f)(v))
      == if q == p then Report(HashMismatch(Join(p))) else Good
  {
    hide GoodPath, Join, U, Declarable, SizeIs, Lookup, CheckEntry, Seen;
    StatedKeys(v, Join(q), t[q].content, hash, f);
    EntryError(v, Changed(t, p, content), q, hash, f);
    if q == p && States(v, Join(p), content, hash, f) {
      SameSize(Lookup(v.members, U("bytes")), |content|, |t[p].content|, f);
    }
  }

  /** Of the values that state the files of the tree, exactly that of the changed file states it no longer. */
  lemma ChangeIsReported(t: Tree, files: seq<Path>, items: seq<Json.Raw>, hash: Bytes -> Str, f: Floats, p: Path,
      content: Bytes)
    requires RealFiles(t, files) && ListsFiles(items, files, t, hash, f) && p in files && p != MANIFEST
    requires hash(content) != hash(t[p].content) || |content| != |t[p].content|
    ensures var u := Changed(t, p, content);
      && (forall v :: v in items ==> CheckEntry(u, hash, Seen(f)(v)) in {Good, Report(HashMismatch(Join(p)))})
      && exists v :: v in items && CheckEntry(u, hash, Seen(f)(v)) == Report(HashMismatch(Join(p)))
  {
    hide GoodPath, Join, StrLess, Declarable, States, CheckEntry, Seen, Changed;
    var u := Changed(t, p, content);
    var ps :| InNameOrder(ps, files) && StatesAll(items, ps, t, hash, f);
    forall i | 0 <= i < |items|
      ensures CheckEntry(u, hash, Seen(f)(items[i])) == if ps[i] == p then Report(HashMismatch(Join(p))) else Good
    {
      assert ps[i] in ps;
      StatedAfterChange(items[i], ps[i], t, hash, f, p, content);
    }
    assert p in ps;
    var i :| 0 <= i < |ps| && ps[i] == p;
    assert items[i] in items;
  }

  lemma StatedKeys(v: Json.Raw, name: Str, content: Bytes, hash: Bytes -> Str, f: Floats)
    requires States(v, name, content, hash, f)
    ensures Lookup(v.members, U("bytes")).Some? && Lookup(v.members, U("sha256")).Some?
  {
    hide U, Lookup;
  }

  /** After a change of one listed file of an accepted package, its mismatch is what the package checker reports. */
  lemma PackageReportsChange(t: Tree, f: Floats, hash: Bytes -> Str, p: Path, content: Bytes,
      errors: seq<PackageError>)
    requires NamedTree(t) && PackageAccepts(t, f, hash, InventoryOf(t, NotSkipped))
    requires p in t && t[p].File? && NotSkipped(p) && p != MANIFEST
    requires hash(content) != hash(t[p].content) || |content| != |t[p].content|
    ensures var u := Changed(t, p, content);
      && InventoryOf(u, NotSkipped).Some? && HasManifest(u, f) && Iterated(ManifestOf(u, f), f).Some?
      && (PackageErrors(u, Iterated(ManifestOf(u, f), f).value, hash, InventoryOf(u, NotSkipped).value, errors) ==>
        forall x :: x in errors <==> x == HashMismatch(Join(p)))
  {
    hide InventoryOf, ReadJson, ListsFiles, Lookup, U, NotSkipped, NamedTree, Seen, CheckEntry, Join, Describes;
    hide NamesOf, StrLess, PathOf, RealFiles;
    var u := Changed(t, p, content);
    ChangeKeepsWalks(t, p, content, NotSkipped);
    NotSkippedIsBelow();
    InventoryIsReal(t, NotSkipped);
    var files, entries := InventoryOf(t, NotSkipped).value, Iterated(ManifestOf(t, f), f).value;
    assert p in files;
    forall items | entries == Map(Seen(f), items)
      ensures forall e :: e in entries ==> CheckEntry(u, hash, e) in {Good, Report(HashMismatch(Join(p)))}
      ensures exists e :: e in entries && CheckEntry(u, hash, e) == Report(HashMismatch(Join(p)))
    {
      ExactMeaning(t, files, items, hash, f);
      ChangeIsReported(t, files, items, hash, f, p, content);
      ChangeInEntries(u, items, hash, f, Join(p));
    }
    assert Map(Seen(f), []) == [];
  }

  lemma ChangeInEntries(u: Tree, items: seq<Json.Raw>, hash: Bytes -> Str, f: Floats, name: Str)
    requires forall v :: v in items ==> CheckEntry(u, hash, Seen(f)(v)) in {Good, Report(HashMismatch(name))}
    requires exists v :: v in items && CheckEntry(u, hash, Seen(f)(v)) == Report(HashMismatch(name))
    ensures forall e :: e in Map(Seen(f), items) ==> CheckEntry(u, hash, e) in {Good, Report(HashMismatch(name))}
    ensures exists e :: e in Map(Seen(f), items) && CheckEntry(u, hash, e) == Report(HashMismatch(name))
  {
    hide CheckEntry, Seen;
    var entries := Map(Seen(f), items);
    forall e | e in entries ensures CheckEntry(u, hash, e) in {Good, Report(HashMismatch(name))} {
      var i :| 0 <= i < |entries| && entries[i] == e;
      assert items[i] in items;
    }
    var v :| v in items && CheckEntry(u, hash, Seen(f)(v)) == Report(HashMismatch(name));
    var i :| 0 <= i < |items| && items[i] == v;
    assert entries[i] in entries;
  }

  /** The baseline checker calls a package it has passed a mismatch after such a change. */
  lemma BaselineReportsChange(t: Tree, f: Floats, hash: Bytes -> Str, p: Path, content: Bytes)
    requires NamedTree(t) && BaselineVerdict(t, f, hash, InventoryOf(t, Kept)) == Pass
    requires p in t && t[p].File? && Kept(p) && p != MANIFEST
    requires hash(content) != hash(t[p].content) || |content| != |t[p].content|
    ensures var u := Changed(t, p, content); BaselineVerdict(u, f, hash, InventoryOf(u, Kept)) == ManifestMismatch
  {
    hide InventoryOf, ReadJson, ListsFiles, Lookup, U, Kept, NamedTree, Seen, CheckEntry, Join, Describes;
    hide NamesOf, StrLess, PathOf, RealFiles, CrashesFirst, WellFormedEntry;
    var u := Changed(t, p, content);
    ChangeKeepsWalks(t, p, content, Kept);
    NotSkippedIsBelow();
    InventoryIsReal(t, Kept);
    var files, entries := InventoryOf(t, Kept).value, Listed(ManifestOf(t, f), f).value;
    assert p in files;
    forall items | entries == Map(Seen(f), items)
      ensures exists e :: e in entries && CheckEntry(u, hash, e) != Good
    {
      ExactMeaning(t, files, items, hash, f);
      ChangeIsReported(t, files, items, hash, f, p, content);
      ChangeInEntries(u, items, hash, f, Join(p));
    }
    forall e { CheckEntryMeaning(u, hash, e); }
  }
}
