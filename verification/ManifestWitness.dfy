/** Concrete packages on which the manifest tools disagree with each other or with themselves. */
module ManifestWitness {
  import opened Ordering
  import opened Text
  import opened FileTree
  import opened Inventory
  import opened NameOrder
  import opened Manifest
  import Utf8
  import Json
  import opened StrictJson
  import opened JsonFile

  const A: Str := U("a")
  const X: Str := U("x")
  const A_B: Str := U("a.b")

  /** The manifest `{}`. */
  const NO_FIELDS: Json.Raw := Json.Object([])

  lemma NoFieldsReadable(f: Floats)
    ensures WriteJson(NO_FIELDS).Some?
    ensures ReadManifest(WriteJson(NO_FIELDS).value, f) == Some([])
  {
    hide WriteJson, ReadJson;
    RewriteOutcome(NO_FIELDS, f);
  }

  lemma ShortNames()
    ensures |A| == |X| == 1 && A[0] == 'a' as int && X[0] == 'x' as int
    ensures |A_B| == 3 && A_B[0] == 'a' as int && A_B[1] == DOT && A_B[2] == 'b' as int
    ensures GoodName(A) && GoodName(X) && GoodName(A_B) && GoodName(MANIFEST_NAME)
    ensures !Skipped(A) && !Skipped(X) && !Skipped(A_B)
  {
    assert |A| == |X| == 1 && A[0] == 'a' as int && X[0] == 'x' as int;
    assert |A_B| == 3 && A_B[0] == 'a' as int && A_B[1] == DOT && A_B[2] == 'b' as int;
    LiteralGood("manifest.json");
    hide U, Skipped;
    PlainName(A);
    PlainName(X);
    PlainName(A_B);
  }

  // ---- two names in different orders -------------------------------------------------------------

  function ClashTree(manifest: Bytes): Tree {
    map[[] := Dir, MANIFEST := File(manifest, 0), [A] := Dir, [A, X] := File([], 0), [A_B] := File([], 0)]
  }

  lemma ClashTreeShape(manifest: Bytes)
    ensures var t := ClashTree(manifest);
      && NamedTree(t) && NoPackageLink(t) && MANIFEST in t && t[MANIFEST] == File(manifest, 0)
      && [A, X] in Listable(t) && [A_B] in Listable(t)
  {
    hide U, Skipped, PackageList, GoodName;
    ShortNames();
    assert |MANIFEST_NAME| == 13;
    var t := ClashTree(manifest);
    assert [A, X][..1] == [A] && [A][..0] == [] && [A_B][..0] == [] && MANIFEST[..0] == [];
    assert [A, X] != MANIFEST && [A_B] != MANIFEST && [A] != MANIFEST by {
      assert |[A, X]| == 2 && [A_B][0] != MANIFEST[0] && [A][0] != MANIFEST[0];
    }
    assert [A] != [A_B] by { assert [A][0] != [A_B][0]; }
    assert NotSkipped([A, X]) && NotSkipped([A_B]);
  }

  /** Refreshing the package of `a/x` and `a.b` returns normally, and then both checkers reject it. */
  lemma ClashRejected(f: Floats, hash: Bytes -> Str)
    requires SoundFloats(f) && DigestsAreHex(hash)
    ensures WriteJson(NO_FIELDS).Some?
    ensures var t := ClashTree(WriteJson(NO_FIELDS).value); var u := AfterRefresh(t, f, hash);
      && NamedTree(t) && Refreshable(t, f) && HasManifest(u, f)
      && !PackageAccepts(u, f, hash, InventoryOf(u, NotSkipped))
      && BaselineVerdict(u, f, hash, InventoryOf(u, Kept)) != Pass
  {
    hide U, ClashTree, NamedTree, WriteJson, ReadManifest, Listable, SoundFloats, DigestsAreHex, AfterRefresh;
    hide PackageAccepts, BaselineVerdict, InventoryOf, Clash, NoPackageLink;
    NoFieldsReadable(f);
    var t := ClashTree(WriteJson(NO_FIELDS).value);
    ClashTreeShape(WriteJson(NO_FIELDS).value);
    ClashWitness();
    RefreshThenValidate(t, f, hash);
    RefreshThenBaseline(t, f, hash);
    assert Refreshable(t, f) && Finite(t, f);
    NamesEncodable(t, f);
    RewrittenManifest(t, f, hash);
  }

  lemma NamesEncodable(t: Tree, f: Floats)
    requires HasManifest(t, f) && ManifestOf(t, f) == []
    requires exists manifest :: t == ClashTree(manifest)
    ensures Encodable(t, f)
  {
    hide U, ReadManifest, PackageList, Skipped, GoodName, Join, Utf8.NoSurrogate, NotSkipped;
    var manifest :| t == ClashTree(manifest);
    ShortJoins();
    forall p | p in Listable(t) ensures Utf8.NoSurrogate(Join(p)) {
      assert p in t && t[p].File?;
      assert p == [A, X] || p == [A_B];
    }
  }

  lemma ShortJoins()
    ensures Utf8.NoSurrogate(Join([A, X])) && Utf8.NoSurrogate(Join([A_B]))
  {
    hide U, Skipped, GoodName;
    ShortNames();
    assert [A, X][1..] == [X];
    assert Join([A, X]) == A + [SLASH] + X && Join([A_B]) == A_B;
  }

  // ---- a name that cannot be encoded -------------------------------------------------------------

  /** What Python decodes the file name made of the one byte 0xFF to. */
  const UNDECODABLE: Str := [0xDCFF]

  function UndecodableTree(manifest: Bytes): Tree {
    map[[] := Dir, MANIFEST := File(manifest, 0), [UNDECODABLE] := File([], 0)]
  }

  /** With a file name that is not UTF-8 the refresh raises, the manifest is empty, and both checkers reject. */
  lemma UndecodableEmpties(f: Floats, hash: Bytes -> Str)
    requires SoundFloats(f) && DigestsAreHex(hash)
    ensures WriteJson(NO_FIELDS).Some?
    ensures var t := UndecodableTree(WriteJson(NO_FIELDS).value); var u := AfterRefresh(t, f, hash);
      && NamedTree(t) && Refreshable(t, f) && NamesAreOrderly(t)
      && u == t[MANIFEST := File([], 0)]
      && !PackageAccepts(u, f, hash, InventoryOf(u, NotSkipped))
      && BaselineVerdict(u, f, hash, InventoryOf(u, Kept)) != Pass
  {
    hide U, UndecodableTree, NamedTree, ReadManifest, SoundFloats, DigestsAreHex, Listable;
    hide PackageAccepts, BaselineVerdict, InventoryOf, NoPackageLink, WriteJson, Updated;
    NoFieldsReadable(f);
    var t := UndecodableTree(WriteJson(NO_FIELDS).value);
    UndecodableShape(WriteJson(NO_FIELDS).value);
    assert [UNDECODABLE] in Listable(t);
    assert Utf8.Surrogate(Join([UNDECODABLE])[0]);
    EmptiedExactly(t, f, hash);
    RefreshThenValidate(t, f, hash);
    RefreshThenBaseline(t, f, hash);
  }

  lemma UndecodableShape(manifest: Bytes)
    ensures var t := UndecodableTree(manifest);
      && NamedTree(t) && NoPackageLink(t) && NamesAreOrderly(t) && MANIFEST in t && t[MANIFEST] == File(manifest, 0)
      && [UNDECODABLE] in Listable(t)
  {
    hide U, Skipped, PackageList, GoodName, Clash;
    ShortNames();
    PlainName(UNDECODABLE);
    assert GoodName(UNDECODABLE) by { UndecodableGood(); }
    var t := UndecodableTree(manifest);
    assert [UNDECODABLE][..0] == [] && MANIFEST[..0] == [];
    assert |MANIFEST_NAME| == 13;
    assert [UNDECODABLE] != MANIFEST by { assert [UNDECODABLE][0] != MANIFEST[0]; }
    assert NotSkipped([UNDECODABLE]);
    NoSelfClash([UNDECODABLE]);
    assert forall p :: p in Listable(t) <==> p == [UNDECODABLE];
    assert BACKSLASH !in Join([UNDECODABLE]);
  }

  lemma UndecodableGood()
    ensures GoodName(UNDECODABLE)
  {
  }

  // ---- a size that is a float --------------------------------------------------------------------

  const ONE_POINT_ZERO: Str := U("1.0")

  /** A manifest that gives the size of the one file `a` as `1.0`. */
  function FloatManifest(digest: Str): Json.Raw {
    Json.Object([Json.Member(FILES, Json.Array([FloatEntry(digest)]))])
  }

  function FloatEntry(digest: Str): Json.Raw {
    EntryObject(A, Json.Float(ONE_POINT_ZERO), digest)
  }

  function OneFile(manifest: Bytes): Tree {
    map[[] := Dir, MANIFEST := File(manifest, 0), [A] := File([0], 0)]
  }

  lemma OneIsLiteral()
    ensures Json.FloatLiteral(ONE_POINT_ZERO)
  {
    var s := ONE_POINT_ZERO;
    assert |s| == 3 && s[0] == '1' as int && s[1] == DOT && s[2] == '0' as int;
    hide U;
    assert s[1..][0] == DOT && s[1..][1] == s[2] && s[1..][1..][0] == s[2] && s[1..][1..][1..] == [];
    assert Json.DigitRun(s) == 1 && Json.DigitRun(s[1..][1..]) == 1;
    assert Json.FractionLength(s[1..]) == 2 && s[1..][2..] == [];
    assert s[..3] == s && [] + s == s;
  }

  /** That manifest can be written and is read back. */
  lemma FloatManifestStays(f: Floats, digest: Str)
    requires Hex64(digest) && f.repr(ONE_POINT_ZERO) == ONE_POINT_ZERO
    ensures var v := FloatManifest(digest); WriteJson(v).Some? && ReadJson(WriteJson(v).value, f) == Some(v)
  {
    hide WriteJson, ReadJson, U, Json.FloatLiteral, Hex64, Utf8.NoSurrogate, EntryObject;
    OneIsLiteral();
    KeysClean();
    LiteralClean("a");
    ThreeFields(A, Json.Float(ONE_POINT_ZERO), digest, f);
    var items := [FloatEntry(digest)];
    var m := Json.Member(FILES, Json.Array(items));
    ListMember(items[0], f);
    assert Map(MemberName, [m]) == [FILES];
    RewriteOutcome(FloatManifest(digest), f);
  }

  lemma ListMember(v: Json.Raw, f: Floats)
    requires Canonical(v, f) && Json.Clean(v) && Json.Printable(v, false)
    ensures var m := Json.Member(FILES, Json.Array([v]));
      ReprsMember(m, f) && NoDuplicatesIn(m) && Json.PrintableMember(m, false) && Json.CleanMember(m)
  {
    hide Reprs, NoDuplicates, Json.Clean, Json.Printable;
    var items := [v];
    assert items[0] == v;
    FilesMember(Json.Array(items), f) by { SingleList(v, f); }
    assert Json.Clean(Json.Array(items)) by { SingleList(v, f); }
  }

  lemma SingleList(v: Json.Raw, f: Floats)
    requires Canonical(v, f) && Json.Clean(v) && Json.Printable(v, false)
    ensures var list := Json.Array([v]); Canonical(list, f) && Json.Clean(list) && Json.Printable(list, false)
  {
  }

  /** What the checkers see in that manifest. */
  lemma FloatManifestSeen(f: Floats, digest: Str)
    requires f.whole(ONE_POINT_ZERO) == Some(1)
    ensures var seen := Manifest.Object(Field.String(A), Field.Float(1), Field.String(digest));
      Listed(FloatManifest(digest).members, f) == Some([seen])
        && Iterated(FloatManifest(digest).members, f) == Some([seen])
  {
    hide U, FieldOf, Seen, EntryObject;
    SeenObject(A, Json.Float(ONE_POINT_ZERO), digest, f);
    assert Map(Seen(f), [FloatEntry(digest)]) == [Seen(f)(FloatEntry(digest))];
  }

  lemma OneFileShape(manifest: Bytes)
    ensures var t := OneFile(manifest);
      && NamedTree(t) && NoPackageLink(t) && MANIFEST in t && t[MANIFEST] == File(manifest, 0)
      && NamesOf(PackageList(t)) == {A}
  {
    hide U, Skipped, GoodName, PackageList;
    ShortNames();
    ManifestIsNotSkipped();
    var t := OneFile(manifest);
    assert [A][..0] == [] && MANIFEST[..0] == [];
    assert [A] != MANIFEST by { assert |MANIFEST_NAME| == 13 && [A][0] != MANIFEST[0]; }
    assert NotSkipped([A]);
    assert forall p :: p in PackageList(t) <==> p == [A] || p == MANIFEST;
    assert Join([A]) == A && Join(MANIFEST) == MANIFEST_NAME;
    assert A != MANIFEST_NAME;
    forall n ensures n in NamesOf(PackageList(t)) <==> n == A {
      if n == A { assert [A] in PackageList(t); }
    }
  }

  /** The package checker finds nothing wrong with that manifest; the baseline checker calls it invalid. */
  lemma FloatSizeAccepted(f: Floats, hash: Bytes -> Str)
    requires f.repr(ONE_POINT_ZERO) == ONE_POINT_ZERO && f.whole(ONE_POINT_ZERO) == Some(1)
    requires DigestsAreHex(hash)
    ensures WriteJson(FloatManifest(hash([0]))).Some?
    ensures var t := OneFile(WriteJson(FloatManifest(hash([0]))).value);
      && PackageAccepts(t, f, hash, InventoryOf(t, NotSkipped))
      && BaselineVerdict(t, f, hash, InventoryOf(t, Kept)) == ManifestInvalid
  {
    hide U, WriteJson, ReadJson, InventoryOf, PackageList, NoPackageLink, NamedTree, StrLess, Canonical, FloatManifest;
    hide NamesOf, SafeRelative, Json.Clean, Json.Printable, Listed, Iterated, OneFile;
    var digest := hash([0]);
    var v := FloatManifest(digest);
    FloatManifestStays(f, digest);
    FloatManifestSeen(f, digest);
    var t := OneFile(WriteJson(v).value);
    OneFileShape(WriteJson(v).value);
    OneFileContent(WriteJson(v).value);
    WalkFindsList(t);
    ShortNames();
    assert v.Object? by { FloatManifestIsObject(digest); }
    assert ManifestOf(t, f) == v.members;
    var seen := Manifest.Object(Field.String(A), Field.Float(1), Field.String(digest));
    assert Join([A]) == A && BACKSLASH !in A;
    DeclaredPathFound([A]);
    assert Describes(t, hash, seen);
    assert Map(PathOf, [seen]) == [A];
    assert Declared([seen]) == {A};
    assert !WellFormedEntry(seen);
    assert seen in [seen];
  }

  lemma OneFileContent(manifest: Bytes)
    ensures var t := OneFile(manifest); [A] in t && t[[A]] == File([0], 0)
  {
    hide U;
    ShortNames();
    assert [A] != MANIFEST by { assert |MANIFEST_NAME| == 13 && [A][0] != MANIFEST[0]; }
  }

  lemma FloatManifestIsObject(digest: Str)
    ensures FloatManifest(digest).Object?
  {
  }

  // ---- a number that overflows -------------------------------------------------------------------

  const OVERFLOW: Str := U("1e999")

  /** The manifest that holds this number under the empty name. */
  const OVERFLOWING: Json.Raw := Json.Object([Json.Member([], Json.Float(OVERFLOW))])

  function OverflowText(): Str {
    Json.Print(OVERFLOWING, Json.INDENTED)
  }

  function Alone(manifest: Bytes): Tree {
    map[[] := Dir, MANIFEST := File(manifest, 0)]
  }

  lemma OverflowIsLiteral()
    ensures Json.FloatLiteral(OVERFLOW)
  {
    var one: Str, digits: Str, tail: Str := [0x31], [0x39, 0x39, 0x39], [0x65, 0x39, 0x39, 0x39];
    assert OVERFLOW == one + tail by { assert |OVERFLOW| == 5; }
    hide U, Json.DigitRun;
    Json.DigitRunAppend(one, tail);
    Json.DigitRunAppend(digits, []);
    assert digits + [] == digits && tail[1..] == digits;
    OverflowParts(one + tail, tail);
  }

  lemma OverflowParts(s: Str, tail: Str)
    requires |s| == 5 && s[0] == 0x31 && s[1..] == tail && Json.DigitRun(s) == 1
    requires |tail| == 4 && tail[0] == 0x65 && tail[1] == 0x39 && Json.DigitRun(tail[1..]) == 3
    ensures Json.FloatLiteral(s)
  {
    hide Json.DigitRun, Json.NatValue;
    assert Json.WholeLength(s) == 1 && Json.FractionLength(tail) == 0 && tail[0..] == tail;
    assert Json.ExponentLength(tail) == 4 && tail[4..] == [] && s[..5] == s && [] + s == s;
  }

  lemma OverflowRead(f: Floats)
    requires f.repr(OVERFLOW) == Json.INFINITY
    ensures Utf8.Encode(OverflowText()).Some?
    ensures ReadManifest(Utf8.Encode(OverflowText()).value, f) == Some([Json.Member([], Json.Float(Json.INFINITY))])
  {
    hide U, Json.FloatLiteral, Json.Print, Json.Loads, Utf8.Encode, Utf8.Decode;
    OverflowIsLiteral();
    var m := Json.Member([], Json.Float(OVERFLOW));
    assert Json.PrintableMember(m, false) && Json.WrittenMember(m) && Json.CleanMember(m) && NoDuplicatesIn(m);
    Json.PrintFits(OVERFLOWING, Json.INDENTED);
    Utf8.RoundTrip(OverflowText());
    Json.TextRoundTrip(OVERFLOWING, Json.INDENTED);
    DuplicatesRejected(OVERFLOWING);
    assert NormalMembers([m], f) == [NormalMember(m, f)];
  }

  lemma AloneShape(manifest: Bytes)
    ensures var t := Alone(manifest);
      && NamedTree(t) && NoPackageLink(t) && NamesAreOrderly(t) && MANIFEST in t && t[MANIFEST] == File(manifest, 0)
      && Listable(t) == []
  {
    hide U, Skipped, PackageList, GoodName, Clash;
    ShortNames();
    assert MANIFEST[..0] == [];
    var t := Alone(manifest);
    forall p ensures p !in Listable(t) {}
    HeadIn(Listable(t));
  }

  /** With `1e999` in the manifest the refresh returns normally and leaves a manifest that cannot be read. */
  lemma OverflowUnreadable(f: Floats, hash: Bytes -> Str)
    requires SoundFloats(f) && f.repr(OVERFLOW) == Json.INFINITY && DigestsAreHex(hash)
    ensures Utf8.Encode(OverflowText()).Some?
    ensures var t := Alone(Utf8.Encode(OverflowText()).value); var u := AfterRefresh(t, f, hash);
      && NamedTree(t) && Refreshable(t, f) && NamesAreOrderly(t) && Encodable(t, f)
      && WriteJson(Updated(t, f, hash)).Some? && !HasManifest(u, f)
  {
    hide U, Alone, NamedTree, ReadManifest, SoundFloats, DigestsAreHex, Listable, OverflowText, Updated, WriteJson;
    hide AfterRefresh, NamesAreOrderly, NoPackageLink;
    OverflowRead(f);
    AloneShape(Utf8.Encode(OverflowText()).value);
    var t := Alone(Utf8.Encode(OverflowText()).value);
    var m := Json.Member([], Json.Float(Json.INFINITY));
    assert ManifestOf(t, f) == [m] && m in [m];
    assert |FILES| == 5;
    assert Json.CleanMember(m);
    InfinityIsNoLiteral();
    assert !Json.PrintableMember(m, false);
    EmptiedExactly(t, f, hash);
    RewrittenManifest(t, f, hash);
  }

  lemma InfinityIsNoLiteral()
    ensures !Json.FloatLiteral(Json.INFINITY)
  {
    assert Json.INFINITY[0] == 'I' as int;
    hide U, Json.ParseUnsigned;
    Json.NoDigitFails(Json.INFINITY, false);
  }
}
