/** The digest of a directory tree, and what it tells apart. */
module Fingerprint {
  import opened Ordering
  import opened Text
  import opened FileTree
  import opened Inventory
  import Json
  import JsonText
  import Utf8

  /** What the fingerprint looks at: paths, kinds and file bytes, but neither modes, link targets nor special files. */
  datatype Seen = SeenFile(content: Bytes) | SeenDirectory | SeenLink

  function Look(n: Node): Option<Seen> {
    match n
    case File(content, _) => Some(SeenFile(content))
    case Dir => Some(SeenDirectory)
    case Link => Some(SeenLink)
    case Special => None
  }

  function Observed(t: Tree): map<Path, Seen> {
    map p | p in t && p != [] && Look(t[p]).Some? :: Look(t[p]).value
  }

  const DIRECTORY: Str := U("DIRECTORY")
  const SYMLINK: Str := U("SYMLINK")

  /** The tuple a node contributes, as `json.dumps` sees it. */
  function EntryOf(p: Path, seen: Seen, hash: Bytes -> Str): Json.Raw {
    match seen
    case SeenLink => Json.Array([Json.String(Join(p)), Json.String(SYMLINK), Json.Null])
    case SeenFile(content) => Json.Array([Json.String(Join(p)), Json.String(hash(content)), Json.Int(|content|)])
    case SeenDirectory => Json.Array([Json.String(Join(p)), Json.String(DIRECTORY), Json.Null])
  }

  function EntryAt(o: map<Path, Seen>, hash: Bytes -> Str): Path -> Json.Raw {
    (p: Path) => if p in o then EntryOf(p, o[p], hash) else Json.Null
  }

  /** The observed paths in order. */
  ghost function SortedPaths(o: map<Path, Seen>): (r: seq<Path>)
    ensures Increasing(PathLess, r)
    ensures forall p :: p in r <==> p in o
  {
    PathOrder();
    Ascending(PathLess, o.Keys)
  }

  ghost function Entries(o: map<Path, Seen>, hash: Bytes -> Str): seq<Json.Raw> {
    Map(EntryAt(o, hash), SortedPaths(o))
  }

  /** The bytes of the text that is hashed; there is always such text, for `ensure_ascii` leaves no surrogate in it. */
  function EncodedEntries(entries: seq<Json.Raw>): Bytes {
    match Utf8.Encode(Json.Print(Json.Array(entries), Json.COMPACT_ASCII)) case Some(b) => b case None => []
  }

  /** The fingerprint of what was observed. */
  ghost function Snapshot(o: map<Path, Seen>, hash: Bytes -> Str): Str {
    hash(EncodedEntries(Entries(o, hash)))
  }

  lemma ObservedAt(t: Tree, p: Path)
    requires p in t && p != []
    ensures p in Observed(t) <==> Look(t[p]).Some?
    ensures p in Observed(t) ==> Observed(t)[p] == Look(t[p]).value
  {
  }

  lemma ObservedInTree(t: Tree)
    ensures forall p :: p in Observed(t) ==> p in t && p != []
  {
  }

  /** `_tree_snapshot` */
  method TreeSnapshot(t: Tree, all: seq<Path>, hash: Bytes -> Str) returns (digest: Str)
    requires ListsAll(t, all)
    ensures digest == Snapshot(Observed(t), hash)
  {
    hide PathLess, EntryOf, Observed, Look;
    SortedAll(t, all);
    var paths := Sort(PathLess, all);
    var entries: seq<Json.Raw> := [];
    ghost var seenPaths: seq<Path> := [];
    ghost var o := Observed(t);
    var i := 0;
    while i < |paths|
      invariant 0 <= i <= |paths|
      invariant Increasing(PathLess, seenPaths)
      invariant forall p :: p in seenPaths <==> p in paths[..i] && p in o
      invariant entries == Map(EntryAt(o, hash), seenPaths)
    {
      var p := paths[i];
      assert paths[..i + 1] == paths[..i] + [p] && p in paths;
      var seen := Look(t[p]);
      ObservedAt(t, p);
      if seen.Some? {
        forall q | q in seenPaths ensures PathLess(q, p) {
          var k :| 0 <= k < |paths[..i]| && paths[..i][k] == q;
          assert paths[k] == q;
        }
        entries := entries + [EntryOf(p, seen.value, hash)];
        seenPaths := seenPaths + [p];
      }
      i := i + 1;
    }
    assert paths[..i] == paths;
    PathOrder();
    ObservedInTree(t);
    IncreasingUnique(PathLess, seenPaths, SortedPaths(o));
    digest := hash(EncodedEntries(entries));
  }

  // ---- the text that is hashed -------------------------------------------------------------------

  /** What the fingerprint writes of one path. */
  function EntryText(p: Path, n: Node, hash: Bytes -> Str): Str {
    U("[") + Json.Quoted(Join(p), true)
    + (match n
       case Dir => U(",\"DIRECTORY\",null]")
       case Link => U(",\"SYMLINK\",null]")
       case Special => []
       case File(content, _) =>
         U(",") + Json.Quoted(hash(content), true) + U(",") + Json.IntText(|content|) + U("]"))
  }

  lemma ThreeText(a: Json.Raw, b: Json.Raw, c: Json.Raw)
    ensures Json.Print(Json.Array([a, b, c]), Json.COMPACT_ASCII)
      == U("[") + Json.Print(a, Json.COMPACT_ASCII) + U(",") + Json.Print(b, Json.COMPACT_ASCII) + U(",")
        + Json.Print(c, Json.COMPACT_ASCII) + U("]")
  {
    var l := Json.COMPACT_ASCII;
    JsonText.TextMeaning(Json.Array([a, b, c]), l);
    var x, y, z := Json.Print(a, l), Json.Print(b, l), Json.Print(c, l);
    hide Json.Print, U;
    assert Map(JsonText.Written(l), [a, b, c]) == [x, y, z] && U(",") + [] == U(",");
    assert [x, y, z][1..] == [y, z] && [y, z][1..] == [z];
    assert JsonText.Separated([y, z], U(",")) == y + U(",") + z;
    assert JsonText.Separated([x, y, z], U(",")) == x + U(",") + (y + U(",") + z);
    hide *;
    Reassociate(U("["), x, U(","), y, z, U("]"));
  }

  lemma Reassociate(a: Str, x: Str, c: Str, y: Str, z: Str, e: Str)
    ensures a + [] + (x + c + (y + c + z)) + [] + e == a + x + c + y + c + z + e
  {
  }

  /** The middle and the end of a text without a digest. */
  lemma TagEnd(tag: string, text: string)
    requires text == "," + tag + ",null]"
    ensures U(text) == U(",") + U(tag) + U(",") + U("null") + U("]")
  {
    Joined(",", tag);
    Joined("," + tag, ",");
    Joined("," + tag + ",", "null");
    Joined("," + tag + "," + "null", "]");
    assert text == "," + tag + "," + "null" + "]";
  }

  lemma PartTexts(s: Str, n: nat)
    ensures Json.Print(Json.String(s), Json.COMPACT_ASCII) == Json.Quoted(s, true)
    ensures Json.Print(Json.Null, Json.COMPACT_ASCII) == U("null")
    ensures Json.Print(Json.Int(n), Json.COMPACT_ASCII) == Json.IntText(n)
  {
  }

  lemma TagIsText(name: Str, tag: string, quoted: string, end: string)
    requires JsonText.PlainLiteral(tag) && quoted == "\"" + tag + "\"" && end == "," + quoted + ",null]"
    ensures Json.Print(Json.Array([Json.String(name), Json.String(U(tag)), Json.Null]), Json.COMPACT_ASCII)
      == U("[") + Json.Quoted(name, true) + U(end)
  {
    hide *;
    JsonText.QuotedLiteral(tag, true, quoted);
    TagEnd(quoted, end);
    ThreeText(Json.String(name), Json.String(U(tag)), Json.Null);
    PartTexts(name, 0);
    PartTexts(U(tag), 0);
    Regroup(U("["), Json.Quoted(name, true), U(","), U(quoted), U("null"), U("]"));
  }

  lemma FileIsText(name: Str, digest: Str, n: nat)
    ensures Json.Print(Json.Array([Json.String(name), Json.String(digest), Json.Int(n)]), Json.COMPACT_ASCII)
      == U("[") + Json.Quoted(name, true) + U(",") + Json.Quoted(digest, true) + U(",") + Json.IntText(n) + U("]")
  {
    hide *;
    ThreeText(Json.String(name), Json.String(digest), Json.Int(n));
    PartTexts(name, n);
    PartTexts(digest, n);
  }

  lemma PlainTags()
    ensures JsonText.PlainLiteral("DIRECTORY") && JsonText.PlainLiteral("SYMLINK")
    ensures ",\"DIRECTORY\",null]" == "," + "\"DIRECTORY\"" + ",null]"
    ensures ",\"SYMLINK\",null]" == "," + "\"SYMLINK\"" + ",null]"
  {
  }

  lemma EntryIsText(p: Path, n: Node, hash: Bytes -> Str)
    requires !n.Special?
    ensures Look(n).Some? && Json.Print(EntryOf(p, Look(n).value, hash), Json.COMPACT_ASCII) == EntryText(p, n, hash)
  {
    PlainTags();
    hide U, Json.Quoted, Json.IntText, Json.Print, JsonText.PlainLiteral, Join;
    match n
    case Dir => TagIsText(Join(p), "DIRECTORY", "\"DIRECTORY\"", ",\"DIRECTORY\",null]");
    case Link => TagIsText(Join(p), "SYMLINK", "\"SYMLINK\"", ",\"SYMLINK\",null]");
    case File(content, _) =>
      FileIsText(Join(p), hash(content), |content|);
      Regroup(U("["), Json.Quoted(Join(p), true), U(","), Json.Quoted(hash(content), true), Json.IntText(|content|),
        U("]"));
  }

  lemma Regroup(a: Str, x: Str, c: Str, y: Str, z: Str, e: Str)
    ensures a + x + (c + y + c + z + e) == a + x + c + y + c + z + e
  {
  }

  /** What the fingerprint writes of the paths. */
  function TextsOf(t: Tree, hash: Bytes -> Str, paths: seq<Path>): seq<Str>
    requires forall i :: 0 <= i < |paths| ==> paths[i] in t
  {
    seq(|paths|, i requires 0 <= i < |paths| && paths[i] in t => EntryText(paths[i], t[paths[i]], hash))
  }

  /** The text that is hashed lists them, for all but the special files, in the order of the paths. */
  lemma SnapshotText(t: Tree, hash: Bytes -> Str, paths: seq<Path>)
    requires Increasing(PathLess, paths) && forall p :: p in paths <==> p in t && p != [] && !t[p].Special?
    ensures forall i :: 0 <= i < |paths| ==> paths[i] in t
    ensures Snapshot(Observed(t), hash) == hash(
      if paths == [] then U("[]") else U("[") + JsonText.Separated(TextsOf(t, hash, paths), U(",")) + U("]"))
  {
    hide U, EntryText, EntryOf, Json.Print, Json.Written, EncodedEntries, PathLess, JsonText.Separated;
    PathOrder();
    forall i | 0 <= i < |paths| ensures paths[i] in t { assert paths[i] in paths; }
    assert forall p :: p in paths <==> p in Observed(t);
    IncreasingUnique(PathLess, paths, SortedPaths(Observed(t)));
    ListIsText(t, hash, paths);
    forall i | 0 <= i < |paths| { EntryWritten(paths[i], Observed(t)[paths[i]], hash); }
    ListIsAscii(Map(EntryAt(Observed(t), hash), paths));
  }

  lemma EntryWritten(p: Path, seen: Seen, hash: Bytes -> Str)
    ensures Json.Written(EntryOf(p, seen, hash))
  {
  }

  /** Without floats a text is ASCII, and its own encoding. */
  lemma ListIsAscii(entries: seq<Json.Raw>)
    requires forall i :: 0 <= i < |entries| ==> Json.Written(entries[i])
    ensures EncodedEntries(entries) == Json.Print(Json.Array(entries), Json.COMPACT_ASCII)
  {
    hide Json.Print, Utf8.Encode, Utf8.Ascii;
    Json.PrintFits(Json.Array(entries), Json.COMPACT_ASCII);
    Utf8.AsciiEncodes(Json.Print(Json.Array(entries), Json.COMPACT_ASCII));
  }

  lemma ListIsText(t: Tree, hash: Bytes -> Str, paths: seq<Path>)
    requires forall i :: 0 <= i < |paths| ==> paths[i] in t && paths[i] != [] && !t[paths[i]].Special?
    ensures Json.Print(Json.Array(Map(EntryAt(Observed(t), hash), paths)), Json.COMPACT_ASCII) ==
      if paths == [] then U("[]") else U("[") + JsonText.Separated(TextsOf(t, hash, paths), U(",")) + U("]")
  {
    hide U, EntryText, EntryOf, Json.Print, JsonText.Separated, Look;
    var l := Json.COMPACT_ASCII;
    var entries := Map(EntryAt(Observed(t), hash), paths);
    var texts := Map(JsonText.Written(l), entries);
    forall i | 0 <= i < |paths| ensures texts[i] == EntryText(paths[i], t[paths[i]], hash) {
      EntryIsText(paths[i], t[paths[i]], hash);
      ObservedAt(t, paths[i]);
    }
    assert texts == TextsOf(t, hash, paths);
    JsonText.TextMeaning(Json.Array(entries), l);
    assert U(",") + [] == U(",") && U("[") + [] == U("[");
    assert U("[") + [] + JsonText.Separated(texts, U(",")) + [] == U("[") + JsonText.Separated(texts, U(","));
  }

  // ---- what the fingerprint tells apart ----------------------------------------------------------

  ghost predicate Injective(hash: Bytes -> Str) {
    forall a, b :: hash(a) == hash(b) ==> a == b
  }

  ghost predicate PlainDigests(hash: Bytes -> Str) {
    forall b :: Plain(hash(b))
  }

  predicate Plain(s: Str) {
    forall i :: 0 <= i < |s| ==> s[i] < 0x80
  }

  /** The observation of a tree: no root, and real names. */
  ghost predicate Observable(o: map<Path, Seen>) {
    forall p :: p in o ==> p != [] && GoodPath(p)
  }

  /** No name holds a high surrogate directly followed by a low one, as in any name decoded from bytes. */
  ghost predicate NamesDecoded(o: map<Path, Seen>) {
    forall p, n :: p in o && n in p ==> Json.NoSplitPair(n)
  }

  lemma {:induction false} JoinNoSplitPair(p: Path)
    requires forall n :: n in p ==> Json.NoSplitPair(n)
    ensures Json.NoSplitPair(Join(p))
  {
    if |p| == 1 {
      assert p[0] in p;
    } else if |p| > 1 {
      JoinNoSplitPair(p[1..]);
      assert p[0] in p;
      var tail := Join(p[1..]);
      var s := p[0] + [SLASH] + tail;
      forall i | 0 <= i < |s| - 1 ensures !(Json.HighSurrogate(s[i]) && Json.LowSurrogate(s[i + 1])) {
        if i > |p[0]| { assert s[i] == tail[i - |p[0]| - 1] && s[i + 1] == tail[i - |p[0]|]; }
      }
    }
  }

  lemma TagsArePlain()
    ensures Plain(DIRECTORY) && Plain(SYMLINK) && DIRECTORY != SYMLINK
  {
  }

  /** Equal entries come from the same path and what was seen there. */
  lemma EntryInjective(p: Path, x: Seen, q: Path, y: Seen, hash: Bytes -> Str)
    requires p != [] && q != [] && GoodPath(p) && GoodPath(q) && Injective(hash)
    requires EntryOf(p, x, hash) == EntryOf(q, y, hash)
    ensures p == q && x == y
  {
    TagsArePlain();
    SplitJoin(p);
    SplitJoin(q);
    var a, b := EntryOf(p, x, hash).items, EntryOf(q, y, hash).items;
    assert a[0] == b[0] && a[1] == b[1] && a[2] == b[2];
  }

  lemma PlainIsPrintable(s: Str)
    ensures Plain(s) ==> Json.NoSplitPair(s)
  {
  }

  lemma EntryPrintable(p: Path, seen: Seen, hash: Bytes -> Str)
    requires (forall n :: n in p ==> Json.NoSplitPair(n)) && PlainDigests(hash)
    ensures Json.Printable(EntryOf(p, seen, hash), true)
  {
    hide Json.NoSplitPair, Plain;
    TagsArePlain();
    JoinNoSplitPair(p);
    forall s { PlainIsPrintable(s); }
    var items := EntryOf(p, seen, hash).items;
    assert Json.Printable(items[0], true) && Json.Printable(items[1], true) && Json.Printable(items[2], true);
  }

  lemma EntriesPrintable(o: map<Path, Seen>, hash: Bytes -> Str)
    requires NamesDecoded(o) && PlainDigests(hash)
    ensures Json.Printable(Json.Array(Entries(o, hash)), true)
  {
    hide EntryOf, Json.NoSplitPair, PlainDigests;
    var paths := SortedPaths(o);
    forall i | 0 <= i < |paths| ensures Json.Printable(Entries(o, hash)[i], true) {
      assert paths[i] in paths;
      EntryPrintable(paths[i], o[paths[i]], hash);
    }
  }

  /** Equal entry lists mean equal observations. */
  lemma EntriesDetermine(o: map<Path, Seen>, q: map<Path, Seen>, hash: Bytes -> Str)
    requires Observable(o) && Observable(q) && Injective(hash) && Entries(o, hash) == Entries(q, hash)
    ensures o == q
  {
    hide EntryOf, GoodPath, PathLess, Increasing;
    var a, b := SortedPaths(o), SortedPaths(q);
    assert |a| == |Entries(o, hash)| == |b|;
    forall i | 0 <= i < |a| ensures a[i] == b[i] && o[a[i]] == q[b[i]] {
      assert a[i] in a && b[i] in b;
      assert Entries(o, hash)[i] == EntryOf(a[i], o[a[i]], hash) && Entries(q, hash)[i] == EntryOf(b[i], q[b[i]], hash);
      EntryInjective(a[i], o[a[i]], b[i], q[b[i]], hash);
    }
    assert a == b;
    forall p | p in o ensures o[p] == q[p] {
      assert p in a;
    }
  }

  /** Two observations have the same fingerprint exactly when they are equal. */
  lemma FingerprintInjective(o: map<Path, Seen>, q: map<Path, Seen>, hash: Bytes -> Str)
    requires Injective(hash) && PlainDigests(hash)
    requires Observable(o) && Observable(q) && NamesDecoded(o) && NamesDecoded(q)
    ensures Snapshot(o, hash) == Snapshot(q, hash) <==> o == q
  {
    hide Json.Print, Json.Printable, Entries, Observable, NamesDecoded, EncodedEntries;
    if Snapshot(o, hash) == Snapshot(q, hash) {
      var v, w := Json.Array(Entries(o, hash)), Json.Array(Entries(q, hash));
      assert EncodedEntries(v.items) == EncodedEntries(w.items);
      EntriesPrintable(o, hash);
      EntriesPrintable(q, hash);
      EncodedIsText(v.items);
      EncodedIsText(w.items);
      Json.TextRoundTrip(v, Json.COMPACT_ASCII);
      Json.TextRoundTrip(w, Json.COMPACT_ASCII);
      EntriesDetermine(o, q, hash);
    }
  }

  /** What is hashed is the text itself, code point by code point. */
  lemma EncodedIsText(entries: seq<Json.Raw>)
    requires Json.Printable(Json.Array(entries), true)
    ensures EncodedEntries(entries) == Json.Print(Json.Array(entries), Json.COMPACT_ASCII)
  {
    hide Json.Print, Json.Printable, Json.Written, Utf8.Encode, Utf8.Ascii;
    var v := Json.Array(entries);
    Json.PrintableWritten(v, true);
    Json.PrintFits(v, Json.COMPACT_ASCII);
    Utf8.AsciiEncodes(Json.Print(v, Json.COMPACT_ASCII));
  }

  /** The fingerprint sees the same at the path: nothing, a file with the same bytes, a directory, or a link. */
  predicate SameSight(t: Tree, u: Tree, p: Path) {
    && ((p in t && t[p].File?) <==> (p in u && u[p].File?))
    && ((p in t && t[p].Dir?) <==> (p in u && u[p].Dir?))
    && ((p in t && t[p].Link?) <==> (p in u && u[p].Link?))
    && (p in t && p in u && t[p].File? && u[p].File? ==> t[p].content == u[p].content)
  }

  /** The names of a tree are names, as decoded from a file system. */
  ghost predicate NamesOfTree(t: Tree) {
    forall p :: p in t ==> GoodPath(p) && forall n :: n in p ==> Json.NoSplitPair(n)
  }

  lemma ObservedIsObservable(t: Tree)
    requires NamesOfTree(t)
    ensures Observable(Observed(t)) && NamesDecoded(Observed(t))
  {
  }

  /** Two trees have the same fingerprint exactly when below their roots it looks at the same things. */
  lemma TreesToldApart(t: Tree, u: Tree, hash: Bytes -> Str)
    requires Injective(hash) && PlainDigests(hash) && NamesOfTree(t) && NamesOfTree(u)
    ensures Snapshot(Observed(t), hash) == Snapshot(Observed(u), hash) <==>
            forall p :: p != [] ==> SameSight(t, u, p)
  {
    hide Snapshot, NamesOfTree, Observed, Observable, NamesDecoded, SameSight;
    ObservedIsObservable(t);
    ObservedIsObservable(u);
    FingerprintInjective(Observed(t), Observed(u), hash);
    ObservedInTree(t);
    ObservedInTree(u);
    forall p | p != [] ensures SameSight(t, u, p) <==> SameSeen(t, u, p) { SightIsSeen(t, u, p); }
    if forall p :: p != [] ==> SameSight(t, u, p) {
      forall p | p != [] ensures SameSeen(t, u, p) { assert SameSight(t, u, p); }
      assert Observed(t).Keys == Observed(u).Keys by {
        forall p ensures p in Observed(t) <==> p in Observed(u) { assert p != [] ==> SameSeen(t, u, p); }
      }
      forall p | p in Observed(t) ensures Observed(t)[p] == Observed(u)[p] { assert SameSeen(t, u, p); }
    }
  }

  /** The observations agree on the path. */
  predicate SameSeen(t: Tree, u: Tree, p: Path) {
    && (p in Observed(t) <==> p in Observed(u))
    && (p in Observed(t) && p in Observed(u) ==> Observed(t)[p] == Observed(u)[p])
  }

  lemma SightIsSeen(t: Tree, u: Tree, p: Path)
    requires p != []
    ensures SameSight(t, u, p) <==> SameSeen(t, u, p)
  {
    hide Observed;
    ObservedInTree(t);
    ObservedInTree(u);
    if p in t { ObservedAt(t, p); }
    if p in u { ObservedAt(u, p); }
  }

  /** Two code points that `ensure_ascii` writes as one. */
  const SPLIT_PAIR: Str := [0xD800, 0xDC00]
  const ONE_CODE: Str := [0x10000]

  lemma SameEscape()
    ensures Json.Escape(SPLIT_PAIR, true) == Json.Escape(ONE_CODE, true)
  {
  }

  lemma SameText(a: Str, b: Str, rest: seq<Json.Raw>)
    requires Json.Escape(a, true) == Json.Escape(b, true)
    ensures Json.Print(Json.Array([Json.Array([Json.String(a)] + rest)]), Json.COMPACT_ASCII)
      == Json.Print(Json.Array([Json.Array([Json.String(b)] + rest)]), Json.COMPACT_ASCII)
  {
    var x, y := [Json.String(a)] + rest, [Json.String(b)] + rest;
    assert x[1..] == rest && y[1..] == rest;
    assert Json.Print(x[0], Json.COMPACT_ASCII) == Json.Print(y[0], Json.COMPACT_ASCII);
    assert Json.PrintItems(x, Json.COMPACT_ASCII) == Json.PrintItems(y, Json.COMPACT_ASCII);
    assert Json.PrintItems([Json.Array(x)], Json.COMPACT_ASCII) == Json.Print(Json.Array(x), Json.COMPACT_ASCII);
    assert Json.PrintItems([Json.Array(y)], Json.COMPACT_ASCII) == Json.Print(Json.Array(y), Json.COMPACT_ASCII);
  }

  lemma SingleEntry(name: Str, hash: Bytes -> Str)
    ensures Entries(map[[name] := SeenDirectory], hash)
      == [Json.Array([Json.String(name)] + [Json.String(DIRECTORY), Json.Null])]
  {
    hide PathLess;
    var o := map[[name] := SeenDirectory];
    var paths := SortedPaths(o);
    PathOrder();
    assert [name] in paths;
    IncreasingUnique(PathLess, paths, [[name]]);
    assert EntryOf([name], SeenDirectory, hash).items == [Json.String(name)] + [Json.String(DIRECTORY), Json.Null];
  }

  /** Without the condition on names it fails: two different directories with one fingerprint. */
  lemma SplitPairCollides(hash: Bytes -> Str)
    ensures var o, q := map[[SPLIT_PAIR] := SeenDirectory], map[[ONE_CODE] := SeenDirectory];
      Observable(o) && Observable(q) && o != q && Snapshot(o, hash) == Snapshot(q, hash)
  {
    hide Entries, Json.Print, Json.Escape, Utf8.Encode;
    var o, q := map[[SPLIT_PAIR] := SeenDirectory], map[[ONE_CODE] := SeenDirectory];
    assert [SPLIT_PAIR][0] != [ONE_CODE][0];
    assert [SPLIT_PAIR] in o && [SPLIT_PAIR] !in q;
    SingleEntry(SPLIT_PAIR, hash);
    SingleEntry(ONE_CODE, hash);
    SameEscape();
    SameText(SPLIT_PAIR, ONE_CODE, [Json.String(DIRECTORY), Json.Null]);
  }
}
