/** The manifest: how it is refreshed, and what its two checkers accept. */
module Manifest {
  import opened Ordering
  import opened Text
  import opened FileTree
  import opened Inventory
  import opened NameOrder
  import Utf8
  import Json
  import opened StrictJson
  import opened JsonFile

  /** A value under a key of a JSON object; `Float` is a float that equals an integer. */
  datatype Field = Absent | String(text: Str) | Int(n: int) | Bool(b: bool) | Float(n: int) | Other

  datatype RawEntry = NotAnObject | Object(path: Field, bytes: Field, sha256: Field)

  const FILES: Str := U("files")
  const PATH: Str := U("path")
  const BYTES: Str := U("bytes")
  const SHA256: Str := U("sha256")

  function FieldOf(members: seq<Json.Member>, name: Str, f: Floats): Field {
    match Lookup(members, name)
    case None => Absent
    case Some(String(text)) => Field.String(text)
    case Some(Int(n)) => Field.Int(n)
    case Some(Bool(b)) => Field.Bool(b)
    case Some(Float(text)) => (match f.whole(text) case Some(n) => Field.Float(n) case None => Other)
    case Some(_) => Other
  }

  /** What the checkers see of an entry. */
  function Seen(f: Floats): Json.Raw -> RawEntry {
    (v: Json.Raw) =>
      if v.Object? then Object(FieldOf(v.members, PATH, f), FieldOf(v.members, BYTES, f), FieldOf(v.members, SHA256, f))
      else NotAnObject
  }

  /** The members of the manifest, when it can be read and is an object. */
  function ReadManifest(content: Bytes, f: Floats): Option<seq<Json.Member>> {
    match ReadJson(content, f) case Some(Object(members)) => Some(members) case _ => None
  }

  /** `manifest["files"]`, when it is a list. */
  function Listed(members: seq<Json.Member>, f: Floats): Option<seq<RawEntry>> {
    match Lookup(members, FILES) case Some(Array(items)) => Some(Map(Seen(f), items)) case _ => None
  }

  /** What iterating over `manifest["files"]` yields without an error: an empty string or object will do, too. */
  function Iterated(members: seq<Json.Member>, f: Floats): Option<seq<RawEntry>> {
    match Lookup(members, FILES)
    case Some(String(text)) => if text == [] then Some([]) else None
    case Some(Object(fields)) => if fields == [] then Some([]) else None
    case _ => Listed(members, f)
  }

  predicate HexDigit(c: Code) {
    0x30 <= c <= 0x39 || 0x61 <= c <= 0x66
  }

  /** `re.fullmatch(r"[0-9a-f]{64}", s)` */
  predicate Hex64(s: Str) {
    |s| == 64 && forall i :: 0 <= i < 64 ==> HexDigit(s[i])
  }

  const LEAST_64_DIGITS := 1000000000000000000000000000000000000000000000000000000000000000

  const MANIFEST: Path := [U("manifest.json")]
  const MANIFEST_NAME: Str := U("manifest.json")

  /** `==` between an integer and a JSON value. */
  predicate EqualsInt(f: Field, n: int) {
    match f
    case Int(m) => m == n
    case Bool(b) => (if b then 1 else 0) == n
    case Float(m) => m == n
    case _ => false
  }

  /** `digest(path) == {key: entry[key] for key in ("bytes", "sha256")}` */
  predicate Matches(content: Bytes, hash: Bytes -> Str, e: RawEntry)
    requires e.Object?
  {
    EqualsInt(e.bytes, |content|) && e.sha256 == String(hash(content))
  }

  // ---- refresh ---------------------------------------------------------------------------------

  function EntryObject(path: Str, size: Json.Raw, digest: Str): Json.Raw {
    Json.Object([
      Json.Member(PATH, Json.String(path)), Json.Member(BYTES, size), Json.Member(SHA256, Json.String(digest))])
  }

  /** The entry a refresh writes for a file. */
  function EntryOf(t: Tree, hash: Bytes -> Str): Path -> Json.Raw {
    (p: Path) =>
      if p in t && t[p].File? then EntryObject(Join(p), Json.Int(|t[p].content|), hash(t[p].content)) else Json.Null
  }

  function DropManifest(files: seq<Path>): (r: seq<Path>)
    ensures forall p :: p in r <==> p in files && p != MANIFEST
  {
    if files == [] then []
    else (if files[0] == MANIFEST then [] else [files[0]]) + DropManifest(files[1..])
  }

  lemma {:induction false} DropManifestIncreasing(files: seq<Path>)
    requires Increasing(PathLess, files)
    ensures Increasing(PathLess, DropManifest(files))
  {
    hide PathLess;
    if files != [] {
      DropManifestIncreasing(files[1..]);
      var rest := DropManifest(files[1..]);
      forall j | 0 <= j < |rest| ensures PathLess(files[0], rest[j]) {
        assert rest[j] in files[1..];
        var k :| 0 <= k < |files[1..]| && files[1..][k] == rest[j];
        assert files[k + 1] == rest[j];
      }
    }
  }

  /** The list of entries a refresh writes. */
  function Entries(t: Tree, files: seq<Path>, hash: Bytes -> Str): Json.Raw {
    Json.Array(Map(EntryOf(t, hash), DropManifest(files)))
  }

  predicate HasManifest(t: Tree, f: Floats) {
    MANIFEST in t && t[MANIFEST].File? && ReadManifest(t[MANIFEST].content, f).Some?
  }

  /** The members of a readable manifest. */
  function ManifestOf(t: Tree, f: Floats): seq<Json.Member>
    requires HasManifest(t, f)
  {
    ReadManifest(t[MANIFEST].content, f).value
  }

  /**
   * The manifest after an attempt to write `bytes`: the file has been emptied before the text turns out not to be
   * encodable.
   */
  function Overwritten(t: Tree, bytes: Option<Bytes>): Tree
    requires MANIFEST in t && t[MANIFEST].File?
  {
    t[MANIFEST := t[MANIFEST].(content := match bytes case Some(b) => b case None => [])]
  }

  /** The package files in refresh order, when no symbolic link is among them. */
  ghost function PackageList(t: Tree): (r: seq<Path>)
    ensures Increasing(PathLess, r)
    ensures forall p :: p in r <==> p in t && NotSkipped(p) && t[p].File?
  {
    PathOrder();
    Ascending(PathLess, set p | p in t && NotSkipped(p) && t[p].File?)
  }

  ghost predicate NoPackageLink(t: Tree) {
    forall p :: p in t && NotSkipped(p) ==> !t[p].Link?
  }

  /** The recursive walk finds that list, unless it meets a link. */
  lemma WalkFindsList(t: Tree)
    ensures InventoryOf(t, NotSkipped) == if NoPackageLink(t) then Some(PackageList(t)) else None
  {
    hide NotSkipped, PathLess, InventoryOf, PackageList;
    PathOrder();
    var files := InventoryOf(t, NotSkipped);
    if files.Some? { IncreasingUnique(PathLess, files.value, PackageList(t)); }
  }

  /** The value a refresh writes. */
  ghost function Updated(t: Tree, f: Floats, hash: Bytes -> Str): Json.Raw
    requires HasManifest(t, f)
  {
    Json.Object(Assign(ManifestOf(t, f), FILES, Entries(t, PackageList(t), hash)))
  }

  /**
   * A refresh replaces the list of files, in its place or at the end, and nothing else: one object for each package
   * file but the manifest, component by component in order, with its name, its size and its digest.
   */
  lemma UpdatedSpelled(t: Tree, f: Floats, hash: Bytes -> Str, ps: seq<Path>)
    requires HasManifest(t, f) && Increasing(PathLess, ps)
    requires forall p :: p in ps <==> p in t && t[p].File? && NotSkipped(p) && p != [U("manifest.json")]
    ensures exists items ::
      && Updated(t, f, hash) == Json.Object(Assign(ManifestOf(t, f), U("files"), Json.Array(items)))
      && |items| == |ps|
      && forall i :: 0 <= i < |ps| ==>
          && ps[i] in t && t[ps[i]].File?
          && items[i] == Json.Object([
               Json.Member(U("path"), Json.String(Join(ps[i]))),
               Json.Member(U("bytes"), Json.Int(|t[ps[i]].content|)),
               Json.Member(U("sha256"), Json.String(hash(t[ps[i]].content)))])
  {
    hide NotSkipped, PathLess, U, Assign, ReadManifest, PackageList, Join;
    PathOrder();
    DropManifestIncreasing(PackageList(t));
    IncreasingUnique(PathLess, ps, DropManifest(PackageList(t)));
    forall i | 0 <= i < |ps| ensures ps[i] in t && t[ps[i]].File? { assert ps[i] in ps; }
    var items := Map(EntryOf(t, hash), ps);
    assert Updated(t, f, hash) == Json.Object(Assign(ManifestOf(t, f), U("files"), Json.Array(items)));
  }

  /** A refresh gets as far as writing. */
  ghost predicate Refreshable(t: Tree, f: Floats) {
    HasManifest(t, f) && NoPackageLink(t)
  }

  /** The tree after a refresh, whatever comes of it. */
  ghost function AfterRefresh(t: Tree, f: Floats, hash: Bytes -> Str): Tree {
    if Refreshable(t, f) then Overwritten(t, WriteJson(Updated(t, f, hash))) else t
  }

  /** How a refresh ends: it returns, it raises with the manifest emptied, or it raises before it writes. */
  datatype RefreshOutcome = Rewritten | Emptied | Untouched

  /** `refresh_manifest` */
  method RefreshManifest(disk: Disk, listing: Path -> seq<Path>, f: Floats, hash: Bytes -> Str)
    returns (outcome: RefreshOutcome)
    requires WellFormed(disk.nodes) && Lists(disk.nodes, listing)
    modifies disk`nodes
    ensures disk.nodes == AfterRefresh(old(disk.nodes), f, hash)
    ensures outcome == Untouched <==> !Refreshable(old(disk.nodes), f)
    ensures outcome == Emptied <==>
      Refreshable(old(disk.nodes), f) && WriteJson(Updated(old(disk.nodes), f, hash)).None?
  {
    hide NotSkipped, PathLess, Map, ReadManifest, InventoryOf, WriteJson, WellFormed;
    if MANIFEST !in disk.nodes || !disk.nodes[MANIFEST].File? {
      return Untouched;
    }
    var members := ReadManifest(disk.nodes[MANIFEST].content, f);
    if members.None? {
      return Untouched;
    }
    WalkFindsList(disk.nodes);
    var files := PackageFiles(disk.nodes, listing);
    if files.None? {
      return Untouched;
    }
    var updated := Json.Object(Assign(members.value, FILES, Entries(disk.nodes, files.value, hash)));
    var bytes := WriteJson(updated);
    disk.nodes := Overwritten(disk.nodes, bytes);
    outcome := if bytes.Some? then Rewritten else Emptied;
  }

  lemma SameList(t: Tree, u: Tree)
    requires t.Keys == u.Keys && forall p :: p in t ==> (t[p].File? <==> u[p].File?)
    ensures PackageList(t) == PackageList(u)
  {
    hide NotSkipped, PathLess;
    PathOrder();
    IncreasingUnique(PathLess, PackageList(t), PackageList(u));
  }

  // ---- what the checkers demand ----------------------------------------------------------------

  /** A declared path that is neither empty nor absolute, does not climb, and holds no backslash. */
  predicate Confined(value: Str) {
    value != [] && value[0] != SLASH && [DOT, DOT] !in DropEmpty(Split(value)) && BACKSLASH !in value
  }

  /** A text `path.resolve()` can hand to the system: no NUL, and no surrogate but those of escaped bytes. */
  predicate Resolvable(value: Str) {
    forall i :: 0 <= i < |value| ==> value[i] != NUL && (Utf8.Surrogate(value[i]) ==> 0xDC80 <= value[i] <= 0xDCFF)
  }

  /** The components of a declared path, unless it is unsafe or cannot be resolved. */
  function SafeRelative(value: Str): Option<Path> {
    if Confined(value) && Resolvable(value) then Some(DropEmpty(Split(value))) else None
  }

  function PathOf(e: RawEntry): Str {
    if e.Object? && e.path.String? then e.path.text else []
  }

  predicate Locatable(e: RawEntry) {
    e.Object? && e.path.String? && SafeRelative(e.path.text).Some?
  }

  /** `str(value)` of the field is 64 hexadecimal digits. */
  predicate HexText(f: Field) {
    match f
    case String(s) => Hex64(s)
    case Int(n) => LEAST_64_DIGITS <= n < 10 * LEAST_64_DIGITS
    case _ => false
  }

  /** Resolving the path of the entry raises something other than the error of the checker. */
  predicate Unresolvable(e: RawEntry) {
    e.Object? && e.path.String? && Confined(e.path.text) && !Resolvable(e.path.text)
  }

  predicate WellFormedEntry(e: RawEntry) {
    Locatable(e) && (e.bytes.Int? || e.bytes.Bool?) && HexText(e.sha256)
  }

  /** The entry names a file of the tree and states its size and digest. */
  predicate Describes(t: Tree, hash: Bytes -> Str, e: RawEntry) {
    && Locatable(e)
    && var p := SafeRelative(e.path.text).value; p in t && t[p].File? && Matches(t[p].content, hash, e)
  }

  /** The declared names a package with these files must have. */
  function NamesOf(files: seq<Path>): set<Str> {
    (set p | p in files :: Join(p)) - {MANIFEST_NAME}
  }

  function Declared(entries: seq<RawEntry>): set<Str> {
    set e | e in entries :: PathOf(e)
  }

  /** Every package file is described by exactly one entry, in name order, and nothing else is declared. */
  ghost predicate ExactManifest(t: Tree, files: seq<Path>, entries: seq<RawEntry>, hash: Bytes -> Str) {
    && (forall e :: e in entries ==> Describes(t, hash, e))
    && Increasing(StrLess, Map(PathOf, entries))
    && Declared(entries) == NamesOf(files)
  }

  ghost predicate DigestsAreHex(hash: Bytes -> Str) {
    forall b :: Hex64(hash(b))
  }

  // ---- the baseline checker --------------------------------------------------------------------

  /** A verdict, or `Crashed` when resolving a declared path raises. */
  datatype BaselineResult = Pass | SpecInvalid | ManifestInvalid | PackageSymlink | ManifestMismatch | Crashed

  ghost predicate ListedWell(entries: Option<seq<RawEntry>>) {
    && entries.Some?
    && (forall e :: e in entries.value ==> WellFormedEntry(e))
    && Increasing(StrLess, Map(PathOf, entries.value))
  }

  /** An entry that cannot be resolved, before any other bad entry. */
  ghost predicate CrashesFirst(entries: seq<RawEntry>) {
    exists k :: 0 <= k < |entries| && CrashesAt(entries, k)
  }

  ghost predicate CrashesAt(entries: seq<RawEntry>, k: nat)
    requires k < |entries|
  {
    && Unresolvable(entries[k])
    && (forall i :: 0 <= i < k ==> WellFormedEntry(entries[i]))
    && NoRepeats(Map(PathOf, entries[..k]))
  }

  /** The verdict `validate_manifest` owes, on a tree whose kept files are `files`. */
  ghost function BaselineVerdict(t: Tree, f: Floats, hash: Bytes -> Str, files: Option<seq<Path>>): BaselineResult {
    if !HasManifest(t, f) then SpecInvalid
    else
      var entries := Listed(ManifestOf(t, f), f);
      if entries.Some? && CrashesFirst(entries.value) then Crashed
      else if !ListedWell(entries) then ManifestInvalid
      else if files.None? then PackageSymlink
      else if ExactManifest(t, files.value, entries.value, hash) then Pass
      else ManifestMismatch
  }

  datatype Listing = Names(names: seq<Str>) | BadEntry | NotResolved

  /** The entry loop of `validate_manifest`: the listed paths, or what stops it at the first bad entry. */
  method ListEntries(entries: seq<RawEntry>) returns (r: Listing)
    ensures r.Names? <==> (forall e :: e in entries ==> WellFormedEntry(e)) && NoRepeats(Map(PathOf, entries))
    ensures r.Names? ==> r.names == Map(PathOf, entries)
    ensures r.NotResolved? <==> CrashesFirst(entries)
  {
    hide WellFormedEntry, PathOf, Unresolvable;
    var listed: seq<Str> := [];
    var i := 0;
    while i < |entries|
      invariant 0 <= i <= |entries|
      invariant forall k :: 0 <= k < i ==> WellFormedEntry(entries[k]) && !Unresolvable(entries[k])
      invariant listed == Map(PathOf, entries[..i]) && NoRepeats(listed)
    {
      var e := entries[i];
      assert e in entries;
      UnresolvableIsBad(e);
      if Unresolvable(e) {
        assert CrashesAt(entries, i);
        return NotResolved;
      }
      if !WellFormedEntry(e) {
        return BadEntry;
      }
      var relative := PathOf(e);
      if relative in listed {
        var k :| 0 <= k < i && listed[k] == relative;
        return BadEntry;
      }
      listed := listed + [relative];
      i := i + 1;
    }
    assert entries[..i] == entries;
    r := Names(listed);
  }

  lemma UnresolvableIsBad(e: RawEntry)
    ensures Unresolvable(e) ==> !Locatable(e) && !WellFormedEntry(e)
  {
  }

  /** The last loop of `validate_manifest`. */
  method AllDescribed(t: Tree, entries: seq<RawEntry>, hash: Bytes -> Str) returns (ok: bool)
    ensures ok <==> forall e :: e in entries ==> Describes(t, hash, e)
  {
    hide Describes;
    var i := 0;
    while i < |entries|
      invariant 0 <= i <= |entries|
      invariant forall k :: 0 <= k < i ==> Describes(t, hash, entries[k])
    {
      if !Describes(t, hash, entries[i]) {
        assert entries[i] in entries;
        return false;
      }
      i := i + 1;
    }
    ok := true;
  }

  lemma SortedMeansIncreasing(s: seq<Str>)
    requires NoRepeats(s)
    ensures s == Sort(StrLess, s) <==> Increasing(StrLess, s)
  {
    StrOrder();
    SortFixpoint(StrLess, s);
    forall i, j | 0 <= i < j < |s| ensures StrLess(s[i], s[j]) <==> !StrLess(s[j], s[i]) {
      assert s[i] != s[j];
    }
  }

  /** `validate_manifest` */
  method ValidateManifest(t: Tree, all: seq<Path>, f: Floats, hash: Bytes -> Str) returns (r: BaselineResult)
    requires WellFormed(t) && ListsAll(t, all)
    ensures r == BaselineVerdict(t, f, hash, InventoryOf(t, Kept))
  {
    hide ReadManifest, Listed, WellFormed, Kept, Describes, WellFormedEntry, StrLess, PathOf, InventoryOf, NamesOf;
    hide Declared, CrashesFirst;
    if MANIFEST !in t || !t[MANIFEST].File? {
      return SpecInvalid;
    }
    var members := ReadManifest(t[MANIFEST].content, f);
    if members.None? {
      return SpecInvalid;
    }
    var raw := Listed(members.value, f);
    if raw.None? {
      return ManifestInvalid;
    }
    var listed := ListEntries(raw.value);
    StrOrder();
    if listed.NotResolved? {
      return Crashed;
    }
    if listed.BadEntry? {
      if Increasing(StrLess, Map(PathOf, raw.value)) { IncreasingNoRepeats(StrLess, Map(PathOf, raw.value)); }
      return ManifestInvalid;
    }
    SortedMeansIncreasing(listed.names);
    if listed.names != Sort(StrLess, listed.names) {
      return ManifestInvalid;
    }
    var listing := FlatPackageFiles(t, all);
    if listing.None? {
      return PackageSymlink;
    }
    DeclaredIsListed(raw.value);
    if (set n | n in listed.names) != NamesOf(listing.value) {
      return ManifestMismatch;
    }
    var ok := AllDescribed(t, raw.value, hash);
    r := if ok then Pass else ManifestMismatch;
  }

  lemma DeclaredIsListed(entries: seq<RawEntry>)
    ensures (set n | n in Map(PathOf, entries)) == Declared(entries)
  {
  }

  // ---- the package checker ---------------------------------------------------------------------

  datatype PackageError = NotUniqueSorted | InventoryDiffers | FileMissing(name: Str) | HashMismatch(name: Str)

  /** What one entry makes the last loop do: nothing, report, or raise. */
  datatype EntryOutcome = Good | Report(error: PackageError) | Raise

  function CheckEntry(t: Tree, hash: Bytes -> Str, e: RawEntry): EntryOutcome {
    if !Locatable(e) then Raise
    else
      var p := SafeRelative(e.path.text).value;
      if p !in t || !t[p].File? then Report(FileMissing(e.path.text))
      else if e.bytes.Absent? || e.sha256.Absent? then Raise
      else if !Matches(t[p].content, hash, e) then Report(HashMismatch(e.path.text))
      else Good
  }

  lemma CheckEntryMeaning(t: Tree, hash: Bytes -> Str, e: RawEntry)
    ensures CheckEntry(t, hash, e) == Good <==> Describes(t, hash, e)
  {
  }

  /** The last loop of the manifest part of `validate`; `None` when an entry raises. */
  method CheckEntries(t: Tree, entries: seq<RawEntry>, hash: Bytes -> Str) returns (r: Option<seq<PackageError>>)
    ensures r == Some([]) <==> forall e :: e in entries ==> Describes(t, hash, e)
    ensures r.None? <==> exists e :: e in entries && CheckEntry(t, hash, e) == Raise
    ensures r.Some? ==> forall x :: x in r.value <==> exists e :: e in entries && CheckEntry(t, hash, e) == Report(x)
  {
    hide CheckEntry, Describes;
    forall e { CheckEntryMeaning(t, hash, e); }
    var errors: seq<PackageError> := [];
    var i := 0;
    while i < |entries|
      invariant 0 <= i <= |entries|
      invariant forall k :: 0 <= k < i ==> CheckEntry(t, hash, entries[k]) != Raise
      invariant forall x :: x in errors <==> exists k :: 0 <= k < i && CheckEntry(t, hash, entries[k]) == Report(x)
    {
      assert entries[i] in entries;
      match CheckEntry(t, hash, entries[i]) {
        case Raise => return None;
        case Report(x) => errors := errors + [x];
        case Good =>
      }
      i := i + 1;
    }
    forall x ensures x in errors <==> exists e :: e in entries && CheckEntry(t, hash, e) == Report(x) {
      if e :| e in entries && CheckEntry(t, hash, e) == Report(x) {
        var k :| 0 <= k < |entries| && entries[k] == e;
      }
    }
    forall e | e in entries ensures CheckEntry(t, hash, e) != Raise {
      var k :| 0 <= k < |entries| && entries[k] == e;
    }
    r := Some(errors);
    assert errors != [] ==> errors[0] in errors;
    forall e | e in entries && errors == [] ensures CheckEntry(t, hash, e) == Good {
      var k :| 0 <= k < |entries| && entries[k] == e;
      assert forall x :: CheckEntry(t, hash, e) != Report(x);
    }
  }

  /** Whether the manifest part of `validate` finds nothing wrong, on a tree whose unskipped files are `files`. */
  ghost predicate PackageAccepts(t: Tree, f: Floats, hash: Bytes -> Str, files: Option<seq<Path>>) {
    && HasManifest(t, f) && files.Some?
    && var entries := Iterated(ManifestOf(t, f), f);
      entries.Some? && ExactManifest(t, files.value, entries.value, hash)
  }

  /** The errors the manifest part of `validate` collects when nothing raises. */
  ghost predicate PackageErrors(t: Tree, entries: seq<RawEntry>, hash: Bytes -> Str, files: seq<Path>,
      errors: seq<PackageError>) {
    forall x :: x in errors <==>
      || (x == NotUniqueSorted && !Increasing(StrLess, Map(PathOf, entries)))
      || (x == InventoryDiffers && Declared(entries) != NamesOf(files))
      || (exists e :: e in entries && CheckEntry(t, hash, e) == Report(x))
  }

  /** `set(s)`, listed without repeats. */
  function Distinct(s: seq<Str>): (r: seq<Str>)
    ensures forall x :: x in r <==> x in s
    ensures NoRepeats(r)
  {
    if s == [] then []
    else
      var init := Distinct(s[..|s| - 1]);
      if s[|s| - 1] in init then init else init + [s[|s| - 1]]
  }

  /** `s == sorted(set(s))` says that `s` is strictly increasing. */
  lemma SortedSetMeansIncreasing(s: seq<Str>)
    ensures s == Sort(StrLess, Distinct(s)) <==> Increasing(StrLess, s)
  {
    StrOrder();
    SortElements(StrLess, Distinct(s));
    SortIncreasing(StrLess, Distinct(s));
    if Increasing(StrLess, s) {
      IncreasingUnique(StrLess, s, Sort(StrLess, Distinct(s)));
    }
  }

  /** The manifest part of `validate`; `None` when it raises. */
  method CheckManifest(t: Tree, listing: Path -> seq<Path>, f: Floats, hash: Bytes -> Str)
    returns (r: Option<seq<PackageError>>)
    requires WellFormed(t) && Lists(t, listing)
    ensures r == Some([]) <==> PackageAccepts(t, f, hash, InventoryOf(t, NotSkipped))
    ensures r.Some? <==>
      && HasManifest(t, f) && InventoryOf(t, NotSkipped).Some? && Iterated(ManifestOf(t, f), f).Some?
      && forall e :: e in Iterated(ManifestOf(t, f), f).value ==> CheckEntry(t, hash, e) != Raise
    ensures r.Some? ==>
      PackageErrors(t, Iterated(ManifestOf(t, f), f).value, hash, InventoryOf(t, NotSkipped).value, r.value)
  {
    hide ReadManifest, Iterated, WellFormed, Describes, StrLess, PathOf, InventoryOf, NamesOf, Declared, Map;
    hide CheckEntry, NotSkipped, Distinct;
    r := None;
    var found := PackageFiles(t, listing);
    if found.None? || MANIFEST !in t || !t[MANIFEST].File? {
      return;
    }
    var members := ReadManifest(t[MANIFEST].content, f);
    if members.None? || Iterated(members.value, f).None? {
      return;
    }
    var entries := Iterated(members.value, f).value;
    var declared := Map(PathOf, entries);
    var errors: seq<PackageError> := [];
    SortedSetMeansIncreasing(declared);
    if declared != Sort(StrLess, Distinct(declared)) {
      errors := errors + [NotUniqueSorted];
    }
    DeclaredIsListed(entries);
    if (set n | n in declared) != NamesOf(found.value) {
      errors := errors + [InventoryDiffers];
    }
    var checked := CheckEntries(t, entries, hash);
    if checked.None? {
      return;
    }
    r := Some(errors + checked.value);
    assert r.value == [] <==> errors == [] && checked.value == [];
  }

  // ---- what acceptance means, and when a refresh is accepted -------------------------------------

  /** `sorted(names)` */
  ghost function SortedNames(names: set<Str>): (r: seq<Str>)
    ensures Increasing(StrLess, r)
    ensures forall n :: n in r <==> n in names
  {
    StrOrder();
    Ascending(StrLess, names)
  }

  /** An exact manifest declares the package's names as their one ascending list. */
  lemma ExactMeansBijection(t: Tree, files: seq<Path>, entries: seq<RawEntry>, hash: Bytes -> Str)
    ensures ExactManifest(t, files, entries, hash) <==>
      && Map(PathOf, entries) == SortedNames(NamesOf(files))
      && forall e :: e in entries ==> Describes(t, hash, e)
  {
    hide StrLess, PathOf, NamesOf, Describes;
    StrOrder();
    DeclaredIsListed(entries);
    var listed, names := Map(PathOf, entries), SortedNames(NamesOf(files));
    assert forall n :: n in listed <==> n in Declared(entries);
    if ExactManifest(t, files, entries, hash) {
      IncreasingUnique(StrLess, listed, names);
    }
    if listed == names {
      assert Declared(entries) == NamesOf(files);
    }
  }

  /**
   * On the same inventory the two checkers accept the same manifests, if these are lists and state no size as a float.
   */
  lemma CheckersAgree(t: Tree, f: Floats, hash: Bytes -> Str, files: Option<seq<Path>>)
    requires DigestsAreHex(hash)
    ensures BaselineVerdict(t, f, hash, files) == Pass <==>
      && PackageAccepts(t, f, hash, files)
      && Listed(ManifestOf(t, f), f).Some?
      && forall e :: e in Listed(ManifestOf(t, f), f).value ==> !(e.Object? && e.bytes.Float?)
  {
    hide StrLess, PathOf, NamesOf, Declared, SafeRelative, Hex64, ReadManifest, Map;
    if HasManifest(t, f) && Listed(ManifestOf(t, f), f).Some? {
      var entries := Listed(ManifestOf(t, f), f).value;
      forall e | e in entries && Describes(t, hash, e)
        ensures WellFormedEntry(e) <==> !e.bytes.Float?
      {
        assert exists b :: e.sha256 == Field.String(hash(b));
      }
      if CrashesFirst(entries) {
        var k :| 0 <= k < |entries| && CrashesAt(entries, k);
        UnresolvableIsBad(entries[k]);
        assert entries[k] in entries;
      }
    }
  }

  /** A real path is declared under its joined name, unless that holds a backslash or cannot be resolved. */
  lemma DeclaredPathFound(p: Path)
    requires p != [] && GoodPath(p)
    ensures SafeRelative(Join(p)) == if BACKSLASH !in Join(p) && Resolvable(Join(p)) then Some(p) else None
  {
    SplitJoin(p);
    DropEmptyGood(p);
    assert p[0] in p;
    if |p| > 1 { assert Join(p)[0] == p[0][0]; }
    assert p[0][0] in p[0];
  }

  // ---- what a refresh writes ---------------------------------------------------------------------

  /** A file system with real names. */
  ghost predicate NamedTree(t: Tree) {
    WellFormed(t) && forall p :: p in t ==> GoodPath(p)
  }

  /** The package files a manifest must describe. */
  ghost function Listable(t: Tree): seq<Path> {
    DropManifest(PackageList(t))
  }

  /** No two package files clash, and no name holds a backslash. */
  ghost predicate NamesAreOrderly(t: Tree) {
    && (forall p, q :: p in Listable(t) && q in Listable(t) ==> !Clash(p, q))
    && (forall p :: p in Listable(t) ==> BACKSLASH !in Join(p))
  }

  /** No name of a package file and nothing else in the manifest holds a surrogate. */
  ghost predicate Encodable(t: Tree, f: Floats)
    requires HasManifest(t, f)
  {
    && (forall p :: p in Listable(t) ==> Utf8.NoSurrogate(Join(p)))
    && (forall m :: m in ManifestOf(t, f) && m.name != FILES ==> Json.CleanMember(m))
  }

  /** Nothing else in the manifest is an infinite float. */
  ghost predicate Finite(t: Tree, f: Floats)
    requires HasManifest(t, f)
  {
    forall m :: m in ManifestOf(t, f) && m.name != FILES ==> Json.PrintableMember(m, false)
  }

  lemma ListableGood(t: Tree, p: Path)
    requires NamedTree(t) && p in Listable(t)
    ensures p in t && t[p].File? && p != MANIFEST && p != [] && GoodPath(p) && NotSkipped(p)
  {
  }

  lemma HexIsClean(s: Str)
    requires Hex64(s)
    ensures Utf8.NoSurrogate(s)
  {
    hide HexDigit;
    forall i | 0 <= i < |s| ensures !Utf8.Surrogate(s[i]) { HexIsAscii(s[i]); }
  }

  lemma HexIsAscii(c: Code)
    requires HexDigit(c)
    ensures c < 0x80
  {
  }

  lemma FieldMember(name: Str, v: Json.Raw, f: Floats)
    requires Utf8.NoSurrogate(name)
    requires v.String? || v.Int? || (v.Float? && Json.FloatLiteral(v.text) && f.repr(v.text) == v.text)
    ensures var m := Json.Member(name, v);
      && ReprsMember(m, f) && NoDuplicatesIn(m) && Json.PrintableMember(m, false)
      && (Json.CleanMember(m) <==> v.String? ==> Utf8.NoSurrogate(v.text))
  {
  }

  /** An object with the three fields of an entry. */
  lemma ThreeFields(path: Str, size: Json.Raw, digest: Str, f: Floats)
    requires size.Int? || (size.Float? && Json.FloatLiteral(size.text) && f.repr(size.text) == size.text)
    requires Hex64(digest)
    ensures var v := EntryObject(path, size, digest);
      Canonical(v, f) && Json.Printable(v, false) && (Json.Clean(v) <==> Utf8.NoSurrogate(path))
  {
    hide U, Hex64, Utf8.NoSurrogate, Json.FloatLiteral;
    KeysClean();
    HexIsClean(digest);
    FieldMember(PATH, Json.String(path), f);
    FieldMember(BYTES, size, f);
    FieldMember(SHA256, Json.String(digest), f);
    hide Json.CleanMember, Json.PrintableMember, ReprsMember, NoDuplicatesIn;
    var ms := EntryObject(path, size, digest).members;
    assert ms[0] == Json.Member(PATH, Json.String(path));
    assert ms[1] == Json.Member(BYTES, size);
    assert ms[2] == Json.Member(SHA256, Json.String(digest));
    assert Map(MemberName, ms) == [PATH, BYTES, SHA256];
    assert |ms| == 3;
  }

  lemma EntryShape(t: Tree, f: Floats, hash: Bytes -> Str, p: Path)
    requires DigestsAreHex(hash) && NamedTree(t) && p in Listable(t)
    ensures Canonical(EntryOf(t, hash)(p), f) && Json.Printable(EntryOf(t, hash)(p), false)
    ensures Json.Clean(EntryOf(t, hash)(p)) <==> Utf8.NoSurrogate(Join(p))
  {
    hide NamedTree, Listable, Join, Hex64, U, Utf8.NoSurrogate, GoodPath, NotSkipped, Canonical, EntryObject;
    hide Json.Clean, Json.Printable;
    ListableGood(t, p);
    ThreeFields(Join(p), Json.Int(|t[p].content|), hash(t[p].content), f);
  }

  lemma KeysClean()
    ensures Utf8.NoSurrogate(PATH) && Utf8.NoSurrogate(BYTES) && Utf8.NoSurrogate(SHA256) && Utf8.NoSurrogate(FILES)
  {
    LiteralClean("path");
    LiteralClean("bytes");
    LiteralClean("sha256");
    LiteralClean("files");
  }

  lemma LiteralClean(s: string)
    requires forall c :: c in s ==> c as int < 0x80
    ensures Utf8.NoSurrogate(U(s))
  {
    forall i | 0 <= i < |s| ensures !Utf8.Surrogate(U(s)[i]) { assert s[i] in s; }
  }

  lemma EntriesShape(t: Tree, f: Floats, hash: Bytes -> Str)
    requires DigestsAreHex(hash) && NamedTree(t)
    ensures var v := Entries(t, PackageList(t), hash);
      && Canonical(v, f) && Json.Printable(v, false)
      && (Json.Clean(v) <==> forall p :: p in Listable(t) ==> Utf8.NoSurrogate(Join(p)))
  {
    hide NamedTree, EntryOf, Join, Utf8.NoSurrogate, DigestsAreHex, PackageList;
    var files, items := Listable(t), Entries(t, PackageList(t), hash).items;
    assert |items| == |files|;
    forall i | 0 <= i < |files|
      ensures Canonical(items[i], f) && Json.Printable(items[i], false)
      ensures Json.Clean(items[i]) <==> Utf8.NoSurrogate(Join(files[i]))
    {
      assert files[i] in files;
      EntryShape(t, f, hash, files[i]);
    }
    if Json.Clean(Entries(t, PackageList(t), hash)) {
      forall p | p in files ensures Utf8.NoSurrogate(Join(p)) {
        var i :| 0 <= i < |files| && files[i] == p;
        assert Json.Clean(items[i]);
      }
    } else {
      var i :| 0 <= i < |items| && !Json.Clean(items[i]);
      assert files[i] in files;
    }
  }

  /**
   * What a refresh writes: it can be encoded and read back under conditions on the names and on the rest of the
   * manifest.
   */
  lemma UpdatedShape(t: Tree, f: Floats, hash: Bytes -> Str)
    requires DigestsAreHex(hash) && NamedTree(t) && HasManifest(t, f) && SoundFloats(f)
    ensures Canonical(Updated(t, f, hash), f)
    ensures Json.Clean(Updated(t, f, hash)) <==> Encodable(t, f)
    ensures Json.Printable(Updated(t, f, hash), false) <==> Finite(t, f)
  {
    hide NamedTree, PackageList, SoundFloats, DigestsAreHex, ReadJson, Join, Listable, Entries, U;
    hide Json.CleanMember, Json.PrintableMember, ReprsMember, NoDuplicatesIn, Utf8.NoSurrogate;
    var ms, value := ManifestOf(t, f), Entries(t, PackageList(t), hash);
    ReadIsCanonical(t[MANIFEST].content, f);
    assert Canonical(Json.Object(ms), f);
    EntriesShape(t, f, hash);
    var files, all := Json.Member(FILES, value), Assign(ms, FILES, value);
    forall m { AssignMembers(ms, FILES, value, m); }
    FilesMember(value, f);
  }

  lemma FilesMember(value: Json.Raw, f: Floats)
    requires Canonical(value, f) && Json.Printable(value, false)
    ensures var m := Json.Member(FILES, value);
      ReprsMember(m, f) && NoDuplicatesIn(m) && Json.PrintableMember(m, false)
        && (Json.CleanMember(m) <==> Json.Clean(value))
  {
    KeysClean();
  }

  lemma CleanMembers(ms: seq<Json.Member>)
    ensures Json.Clean(Json.Object(ms)) <==> forall m :: m in ms ==> Json.CleanMember(m)
    ensures Json.Printable(Json.Object(ms), false) <==> forall m :: m in ms ==> Json.PrintableMember(m, false)
  {
    hide Json.CleanMember, Json.PrintableMember;
    assert forall i :: 0 <= i < |ms| ==> ms[i] in ms;
  }

  lemma EmptyUnreadable(f: Floats)
    ensures ReadManifest([], f).None?
  {
    assert Json.Loads([]) == None;
  }

  /** Exactly a surrogate in a name or elsewhere in the manifest makes a refresh raise with the manifest emptied. */
  lemma EmptiedExactly(t: Tree, f: Floats, hash: Bytes -> Str)
    requires DigestsAreHex(hash) && NamedTree(t) && HasManifest(t, f) && SoundFloats(f)
    ensures WriteJson(Updated(t, f, hash)).None? <==> !Encodable(t, f)
  {
    hide NamedTree, Updated, WriteJson, Encodable, SoundFloats, DigestsAreHex, ReadManifest;
    UpdatedShape(t, f, hash);
    RewriteOutcome(Updated(t, f, hash), f);
  }

  /**
   * The manifest after a refresh: what was written, if it could be encoded and read back, and nothing readable
   * otherwise.
   */
  lemma RewrittenManifest(t: Tree, f: Floats, hash: Bytes -> Str)
    requires DigestsAreHex(hash) && NamedTree(t) && Refreshable(t, f) && SoundFloats(f)
    ensures var u := AfterRefresh(t, f, hash);
      && (HasManifest(u, f) <==> Encodable(t, f) && Finite(t, f))
      && (HasManifest(u, f) ==> Json.Object(ManifestOf(u, f)) == Updated(t, f, hash))
  {
    hide NamedTree, WriteJson, ReadJson, Encodable, Finite, SoundFloats, DigestsAreHex, NoPackageLink, PackageList;
    var v := Updated(t, f, hash);
    assert v.Object?;
    hide Updated, Canonical, Json.Clean, Json.Printable;
    UpdatedShape(t, f, hash);
    RewriteOutcome(v, f);
    EmptyUnreadable(f);
  }

  lemma SameShape(t: Tree, f: Floats, hash: Bytes -> Str)
    ensures var u := AfterRefresh(t, f, hash);
      && t.Keys == u.Keys
      && (forall p :: p in t ==>
        (t[p].File? <==> u[p].File?) && (t[p].Dir? <==> u[p].Dir?) && (t[p].Link? <==> u[p].Link?))
      && (forall p :: p in t && p != MANIFEST ==> u[p] == t[p])
  {
    hide ReadManifest, WriteJson, Updated, NoPackageLink;
  }

  lemma KeptShape(t: Tree, f: Floats, hash: Bytes -> Str)
    requires NamedTree(t)
    ensures var u := AfterRefresh(t, f, hash);
      && NamedTree(u) && PackageList(u) == PackageList(t) && (NoPackageLink(u) <==> NoPackageLink(t))
      && (WalksMatch(u) <==> WalksMatch(t))
  {
    hide AfterRefresh, PackageList, NotSkipped, Kept, Exceptional, GoodPath;
    SameShape(t, f, hash);
    SameList(t, AfterRefresh(t, f, hash));
  }

  /** A second refresh changes nothing, whatever came of the first. */
  lemma RefreshIdempotent(t: Tree, f: Floats, hash: Bytes -> Str)
    requires DigestsAreHex(hash) && NamedTree(t) && SoundFloats(f)
    ensures AfterRefresh(AfterRefresh(t, f, hash), f, hash) == AfterRefresh(t, f, hash)
  {
    hide NamedTree, WriteJson, ReadManifest, Encodable, Finite, SoundFloats, DigestsAreHex, NoPackageLink, PackageList;
    hide EntryOf;
    var u := AfterRefresh(t, f, hash);
    if Refreshable(t, f) && HasManifest(u, f) {
      RewrittenManifest(t, f, hash);
      KeptShape(t, f, hash);
      SameEntries(t, f, hash);
      AssignLookup(ManifestOf(t, f), FILES, Entries(t, PackageList(t), hash));
      assert Updated(u, f, hash) == Updated(t, f, hash);
    }
  }

  lemma SameEntries(t: Tree, f: Floats, hash: Bytes -> Str)
    requires NamedTree(t)
    ensures var u := AfterRefresh(t, f, hash); Entries(u, PackageList(t), hash) == Entries(t, PackageList(t), hash)
  {
    hide AfterRefresh, NamedTree, PackageList, EntryOf;
    var u, files := AfterRefresh(t, f, hash), Listable(t);
    SameShape(t, f, hash);
    forall i | 0 <= i < |files| ensures EntryOf(u, hash)(files[i]) == EntryOf(t, hash)(files[i]) {
      assert files[i] in files;
      SameEntry(t, u, hash, files[i]);
    }
    assert Map(EntryOf(u, hash), files) == Map(EntryOf(t, hash), files);
  }

  lemma SameEntry(t: Tree, u: Tree, hash: Bytes -> Str, p: Path)
    requires t.Keys == u.Keys && (p in t ==> u[p] == t[p])
    ensures EntryOf(u, hash)(p) == EntryOf(t, hash)(p)
  {
  }

  // ---- when a refresh is accepted ----------------------------------------------------------------

  /** What the checkers see of the entry a refresh writes. */
  function EntrySeen(t: Tree, hash: Bytes -> Str): Path -> RawEntry {
    (p: Path) =>
      if p in t && t[p].File?
      then Object(Field.String(Join(p)), Field.Int(|t[p].content|), Field.String(hash(t[p].content)))
      else NotAnObject
  }

  lemma LookupThree(a: Json.Member, b: Json.Member, c: Json.Member)
    requires a.name != b.name && a.name != c.name && b.name != c.name
    ensures Lookup([a, b, c], a.name) == Some(a.value)
    ensures Lookup([a, b, c], b.name) == Some(b.value)
    ensures Lookup([a, b, c], c.name) == Some(c.value)
  {
    assert [a, b, c][1..] == [b, c] && [b, c][1..] == [c];
    assert Lookup([c], c.name) == Some(c.value);
  }

  /** What the checkers see of an object with the three fields of an entry. */
  lemma SeenObject(path: Str, size: Json.Raw, digest: Str, f: Floats)
    requires size.Int? || (size.Float? && f.whole(size.text).Some?)
    ensures Seen(f)(EntryObject(path, size, digest)) ==
            Object(
              Field.String(path),
              if size.Int? then Field.Int(size.n) else Field.Float(f.whole(size.text).value),
              Field.String(digest))
  {
    hide U, Lookup;
    LookupThree(Json.Member(PATH, Json.String(path)), Json.Member(BYTES, size),
      Json.Member(SHA256, Json.String(digest)));
  }

  lemma SeenAgain(t: Tree, f: Floats, hash: Bytes -> Str, p: Path)
    ensures Seen(f)(EntryOf(t, hash)(p)) == EntrySeen(t, hash)(p)
  {
    hide U, EntryObject, FieldOf, Join;
    if p in t && t[p].File? { SeenObject(Join(p), Json.Int(|t[p].content|), hash(t[p].content), f); }
  }

  /** The entries the checkers see after a refresh that can be read back. */
  lemma RefreshedEntries(t: Tree, f: Floats, hash: Bytes -> Str)
    requires HasManifest(t, f)
    ensures Listed(Updated(t, f, hash).members, f) == Some(Map(EntrySeen(t, hash), Listable(t)))
    ensures Iterated(Updated(t, f, hash).members, f) == Some(Map(EntrySeen(t, hash), Listable(t)))
  {
    hide ReadManifest, Assign, Lookup, EntryOf, EntrySeen, Seen, PackageList, U;
    AssignLookup(ManifestOf(t, f), FILES, Entries(t, PackageList(t), hash));
    var items := Map(EntryOf(t, hash), Listable(t));
    forall p { SeenAgain(t, f, hash, p); }
    assert Map(Seen(f), items) == Map(EntrySeen(t, hash), Listable(t));
  }

  lemma NoSelfClash(p: Path)
    ensures !Clash(p, p)
  {
  }

  lemma ListableIncreases(t: Tree)
    ensures Increasing(PathLess, Listable(t))
  {
    DropManifestIncreasing(PackageList(t));
  }

  /** The joined names ascend exactly when no two listed files clash. */
  lemma NamesAscend(t: Tree)
    requires NamedTree(t)
    ensures Increasing(StrLess, Map(Join, Listable(t))) <==>
            forall p, q :: p in Listable(t) && q in Listable(t) ==> !Clash(p, q)
  {
    hide StrLess, PathLess, Clash, Join, GoodPath, NotSkipped, NamedTree, Listable;
    var files := Listable(t);
    var names := Map(Join, files);
    ListableIncreases(t);
    PathOrder();
    forall i, j | 0 <= i < |files| && 0 <= j < |files| && i != j
      ensures PathLess(files[i], files[j]) && !StrLess(names[i], names[j]) <==> Clash(files[i], files[j])
    {
      ListableGood(t, files[i]);
      ListableGood(t, files[j]);
      assert files[i] != files[j];
      OrdersDiffer(files[i], files[j]);
    }
    forall i | 0 <= i < |files| ensures !Clash(files[i], files[i]) { NoSelfClash(files[i]); }
    forall i, j | 0 <= i < j < |files| ensures PathLess(files[i], files[j]) && !PathLess(files[j], files[i]) {}
    if Increasing(StrLess, names) {
      forall p, q | p in files && q in files ensures !Clash(p, q) {
        var i :| 0 <= i < |files| && files[i] == p;
        var j :| 0 <= j < |files| && files[j] == q;
        if i == j { NoSelfClash(p); }
      }
    } else {
      var i, j :| 0 <= i < j < |names| && !StrLess(names[i], names[j]);
      assert files[i] in files && files[j] in files;
    }
  }

  lemma EntryPaths(t: Tree, hash: Bytes -> Str)
    requires NamedTree(t)
    ensures Map(PathOf, Map(EntrySeen(t, hash), Listable(t))) == Map(Join, Listable(t))
  {
    hide Join, NamedTree, Listable;
    var files := Listable(t);
    forall i | 0 <= i < |files| ensures PathOf(Map(EntrySeen(t, hash), files)[i]) == Join(files[i]) {
      ListableGood(t, files[i]);
    }
  }

  lemma ManifestNameIsItsOwn(p: Path)
    requires p != [] && GoodPath(p)
    ensures Join(p) == MANIFEST_NAME <==> p == MANIFEST
  {
    LiteralChars("manifest.json", '/');
    SplitJoin(p);
    SplitPlain(MANIFEST_NAME);
  }

  /** A refresh declares exactly the names of the package. */
  lemma RefreshDeclares(t: Tree, hash: Bytes -> Str)
    requires NamedTree(t)
    ensures Declared(Map(EntrySeen(t, hash), Listable(t))) == NamesOf(PackageList(t))
  {
    hide Join, EntrySeen, GoodPath, NotSkipped, PathOf;
    var files, entries := Listable(t), Map(EntrySeen(t, hash), Listable(t));
    EntryPaths(t, hash);
    DeclaredIsListed(entries);
    var names := Map(Join, files);
    forall n ensures n in names <==> n in NamesOf(PackageList(t)) {
      if n in names {
        var i :| 0 <= i < |names| && names[i] == n;
        assert files[i] in files;
        ListableGood(t, files[i]);
        ManifestNameIsItsOwn(files[i]);
      }
      if n in NamesOf(PackageList(t)) {
        var p :| p in PackageList(t) && Join(p) == n;
        ManifestIsBareName();
        assert p in files;
        var i :| 0 <= i < |files| && files[i] == p;
        assert names[i] == n;
      }
    }
  }

  lemma ManifestIsBareName()
    ensures Join(MANIFEST) == MANIFEST_NAME
  {
  }

  /** A text that UTF-8 can encode, of a real path, can be resolved. */
  lemma {:induction false} RealPathResolves(p: Path)
    requires GoodPath(p) && Utf8.NoSurrogate(Join(p))
    ensures Resolvable(Join(p))
  {
    if |p| > 1 {
      assert Join(p) == p[0] + [SLASH] + Join(p[1..]);
      forall i | 0 <= i < |Join(p[1..])| ensures Join(p[1..])[i] == Join(p)[|p[0]| + 1 + i] {}
      RealPathResolves(p[1..]);
    }
    assert p != [] ==> p[0] in p;
  }

  /** A refreshed entry describes its file, unless a backslash makes the name unsafe. */
  lemma RefreshedEntry(t: Tree, f: Floats, hash: Bytes -> Str, p: Path)
    requires NamedTree(t) && p in Listable(t) && Utf8.NoSurrogate(Join(p))
    ensures Describes(AfterRefresh(t, f, hash), hash, EntrySeen(t, hash)(p)) <==> BACKSLASH !in Join(p)
  {
    hide Join, GoodPath, NotSkipped, SafeRelative, Listable, WellFormed, AfterRefresh;
    ListableGood(t, p);
    SameShape(t, f, hash);
    DeclaredPathFound(p);
    RealPathResolves(p);
  }

  /** The entries a refresh writes are an exact manifest exactly when the names are orderly. */
  lemma RefreshedExactly(t: Tree, f: Floats, hash: Bytes -> Str)
    requires NamedTree(t) && forall p :: p in Listable(t) ==> Utf8.NoSurrogate(Join(p))
    ensures ExactManifest(AfterRefresh(t, f, hash), PackageList(t), Map(EntrySeen(t, hash), Listable(t)), hash) <==>
            NamesAreOrderly(t)
  {
    hide Join, NamedTree, PackageList, AfterRefresh, StrLess, PathOf, NamesOf, Declared, Describes, Clash, EntrySeen;
    hide Listable;
    var files := Listable(t);
    var entries := Map(EntrySeen(t, hash), files);
    RefreshDeclares(t, hash);
    EntryPaths(t, hash);
    NamesAscend(t);
    forall p | p in files { RefreshedEntry(t, f, hash, p); }
    forall e ensures e in entries <==> exists p :: p in files && EntrySeen(t, hash)(p) == e {
      if e in entries {
        var i :| 0 <= i < |entries| && entries[i] == e;
        assert files[i] in files;
      }
      if p :| p in files && EntrySeen(t, hash)(p) == e {
        var i :| 0 <= i < |files| && files[i] == p;
        assert entries[i] == e;
      }
    }
  }

  lemma EncodableNames(t: Tree, f: Floats)
    requires HasManifest(t, f) && Encodable(t, f)
    ensures forall p :: p in Listable(t) ==> Utf8.NoSurrogate(Join(p))
  {
  }

  /** What must hold before a refresh for its result to be accepted. */
  ghost predicate Rewritable(t: Tree, f: Floats) {
    Refreshable(t, f) && Encodable(t, f) && Finite(t, f) && NamesAreOrderly(t)
  }

  /**
   * After a refresh, whatever came of it, the package checker finds nothing wrong with the manifest exactly when the
   * package was rewritable.
   */
  lemma RefreshThenValidate(t: Tree, f: Floats, hash: Bytes -> Str)
    requires NamedTree(t) && SoundFloats(f) && DigestsAreHex(hash)
    ensures var u := AfterRefresh(t, f, hash);
      PackageAccepts(u, f, hash, InventoryOf(u, NotSkipped)) <==> Rewritable(t, f)
  {
    hide NamedTree, SoundFloats, DigestsAreHex, InventoryOf, NoPackageLink, PackageList, NotSkipped, WriteJson;
    hide ReadManifest;
    hide Encodable, Finite, NamesAreOrderly, Updated, Iterated, ExactManifest, Listable, EntrySeen;
    var u := AfterRefresh(t, f, hash);
    KeptShape(t, f, hash);
    WalkFindsList(u);
    if Refreshable(t, f) {
      RewrittenManifest(t, f, hash);
      RefreshedEntries(t, f, hash);
      if Encodable(t, f) {
        EncodableNames(t, f);
        RefreshedExactly(t, f, hash);
      }
    }
  }

  /** Package files have different names. */
  lemma NamesTellFiles(a: seq<Path>, b: seq<Path>, p: Path)
    requires forall q :: q in a + b ==> q != [] && GoodPath(q)
    requires p in b && p !in a && p != MANIFEST
    ensures NamesOf(a) != NamesOf(b)
  {
    hide Join;
    assert p in a + b;
    ManifestNameIsItsOwn(p);
    if Join(p) in NamesOf(a) {
      var q :| q in a && Join(q) == Join(p);
      assert q in a + b;
      SplitJoin(p);
      SplitJoin(q);
    }
  }

  /** A flat walk that finds other files finds other names. */
  lemma OtherFilesOtherNames(t: Tree, found: seq<Path>)
    requires NamedTree(t) && MANIFEST in t && t[MANIFEST].File?
    requires IsInventory(t, Kept, Some(found)) && found != PackageList(t)
    ensures NamesOf(found) != NamesOf(PackageList(t))
  {
    hide Kept, Exceptional, NotSkipped, PathLess, WellFormed, NamesOf, GoodPath;
    var files := PackageList(t);
    PathOrder();
    forall p { NotSkippedMeaning(p); }
    if forall p :: p in found ==> p in files { IncreasingUnique(PathLess, found, files); }
    var p :| p in found && p !in files;
    ManifestIsNotSkipped();
    forall q | q in files + found ensures q != [] && GoodPath(q) { KeptIsBelowRoot(q); }
    NamesTellFiles(files, found, p);
  }

  lemma StartsElsewhere(n: Str, b: string)
    requires n != [] && b != "" && n[0] != b[0] as int
    ensures !IsPrefix(U(b), n) && U(b) != n
  {
    assert U(b)[0] == b[0] as int;
  }

  lemma EndsElsewhere(n: Str, b: string)
    requires n != [] && b != "" && n[|n| - 1] != b[|b| - 1] as int
    ensures Suffix(n) != U(b)
  {
    assert U(b)[|b| - 1] == b[|b| - 1] as int;
  }

  /** A name that starts and ends otherwise is not skipped. */
  lemma PlainName(n: Str)
    requires n != [] && n[0] !in {DOT, 'E' as int, '_' as int} && (n[0] == 'a' as int ==> |n| < 9)
    requires n[|n| - 1] !in {'c' as int, 'o' as int}
    ensures !Skipped(n)
  {
    hide U, IsPrefix, Suffix;
    StartsElsewhere(n, ".git");
    StartsElsewhere(n, ".venv");
    StartsElsewhere(n, "__pycache__");
    StartsElsewhere(n, ".pytest_cache");
    StartsElsewhere(n, ".DS_Store");
    StartsElsewhere(n, "EPHI_1.0_Design_Pack.zip");
    StartsElsewhere(n, ".env");
    StartsElsewhere(n, ".env.");
    if n[0] != 'a' as int { StartsElsewhere(n, "artifacts"); }
    assert |U("artifacts")| == 9;
    EndsElsewhere(n, ".pyc");
    EndsElsewhere(n, ".pyo");
  }

  lemma ManifestIsNotSkipped()
    ensures NotSkipped(MANIFEST)
  {
    var n := MANIFEST_NAME;
    assert |n| == 13 && n[0] == 'm' as int && n[12] == 'n' as int;
    hide Skipped, U;
    PlainName(n);
  }

  /** A link the recursive walk meets is met by the flat walk, too. */
  lemma LinkStopsBoth(t: Tree)
    requires !NoPackageLink(t)
    ensures InventoryOf(t, Kept).None?
  {
    hide NotSkipped, Kept, Exceptional, InventoryOf, PathLess;
    var p :| p in t && NotSkipped(p) && t[p].Link?;
    NotSkippedMeaning(p);
  }

  /** The baseline checker passes the refreshed package exactly when, besides, its own walk finds the same files. */
  lemma RefreshThenBaseline(t: Tree, f: Floats, hash: Bytes -> Str)
    requires NamedTree(t) && SoundFloats(f) && DigestsAreHex(hash)
    ensures var u := AfterRefresh(t, f, hash);
      BaselineVerdict(u, f, hash, InventoryOf(u, Kept)) == Pass <==> Rewritable(t, f) && WalksMatch(t)
  {
    hide NamedTree, SoundFloats, DigestsAreHex, InventoryOf, NoPackageLink, PackageList, NotSkipped, WriteJson;
    hide ReadManifest;
    hide Encodable, Finite, NamesAreOrderly, Updated, Iterated, Listed, Listable, EntrySeen, WalksMatch, Kept;
    hide NamesOf, Declared, PathOf, Describes, StrLess;
    var u := AfterRefresh(t, f, hash);
    KeptShape(t, f, hash);
    RefreshThenValidate(t, f, hash);
    CheckersAgree(u, f, hash, InventoryOf(u, NotSkipped));
    if !NoPackageLink(u) {
      LinkStopsBoth(u);
    } else if HasManifest(u, f) && Refreshable(t, f) {
      WalkFindsList(u);
      WalksAgree(u);
      RewrittenManifest(t, f, hash);
      RefreshedEntries(t, f, hash);
      NoFloats(t, hash, Listable(t));
      assert Listed(ManifestOf(u, f), f) == Some(Map(EntrySeen(t, hash), Listable(t)));
      if WalksMatch(u) {
        assert InventoryOf(u, Kept) == InventoryOf(u, NotSkipped);
      } else if InventoryOf(u, Kept).Some? {
        RefreshDeclares(t, hash);
        OtherFilesOtherNames(u, InventoryOf(u, Kept).value);
      }
    }
  }

  lemma NoFloats(t: Tree, hash: Bytes -> Str, files: seq<Path>)
    ensures forall e :: e in Map(EntrySeen(t, hash), files) ==> !(e.Object? && e.bytes.Float?)
  {
    var entries := Map(EntrySeen(t, hash), files);
    forall e | e in entries ensures !(e.Object? && e.bytes.Float?) {
      var i :| 0 <= i < |entries| && entries[i] == e;
    }
  }
}
