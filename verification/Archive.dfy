/** The source-archive gate: which member lists are accepted, and in which order they come out. */
module Archive {
  import opened Ordering
  import opened Text
  import opened FileTree

  datatype Reason =
    | UnsafeMemberPath | SourceRootMismatch | UnsafeMemberSymlink | UnsafeMemberSpecialFile
    | SourceRootNotDirectory | EncryptedMember | DuplicateMember | AmbiguousMember
    | EmptyArchive | SourceRootMissing | MemberConflict | UnsafeExtractionPath
    | ProtectedPath | SourceFilenameMismatch | ArchiveSymlink | ArchiveMissing | ArchiveNotRegularFile
    | SourceHashMismatch | StageAlreadyExists | InvalidZip | PreflightIoError | VerifiedAndStaged

  datatype Result<+T> = Ok(value: T) | Err(reason: Reason)

  /** What the zip directory says of one member, the bytes it unpacks to, and how reading it fails, if it does. */
  datatype Entry = Entry(filename: Str, externalAttr: nat, flagBits: nat, content: Bytes, damage: Fault)

  datatype Member = Member(name: Str, relative: Path, isDirectory: bool, info: Entry)

  const S_IFDIR := 0x4
  const S_IFREG := 0x8
  const S_IFLNK := 0xA

  /** `(info.external_attr >> 16) & 0o177777` */
  function MemberMode(e: Entry): nat {
    e.externalAttr / 0x1_0000 % 0x1_0000
  }

  /** The four type bits `stat.S_IFMT` keeps. */
  function FileType(e: Entry): nat {
    MemberMode(e) / 0x1000
  }

  /** The components of a member name, if the name is safe. */
  function ValidateMemberName(name: Str): Option<Path> {
    if name == [] || NUL in name || BACKSLASH in name || COLON in name then None
    else if name[0] == SLASH then None
    else
      var split := Split(name);
      var parts := if split[|split| - 1] == [] then split[..|split| - 1] else split;
      if parts == [] || [] in parts || [DOT] in parts || [DOT, DOT] in parts then None else Some(parts)
  }

  predicate EndsInSlash(name: Str) {
    name != [] && name[|name| - 1] == SLASH
  }

  function IsDirectory(e: Entry): bool {
    EndsInSlash(e.filename) || FileType(e) == S_IFDIR
  }

  /** `root.rstrip("/")` */
  function RStripSlash(root: Str): Str {
    if EndsInSlash(root) then RStripSlash(root[..|root| - 1]) else root
  }

  predicate InRoot(normalized: Str, root: Str) {
    normalized == root || IsPrefix(RStripSlash(root) + [SLASH], normalized)
  }

  function Parts(e: Entry): Path {
    match ValidateMemberName(e.filename) case Some(p) => p case None => []
  }

  /** The normalized member name. */
  function Name(e: Entry): Str {
    Join(Parts(e))
  }

  function MemberOf(e: Entry): Member {
    Member(e.filename, Parts(e), IsDirectory(e), e)
  }

  /** The first check a member fails by itself. */
  function EntryFault(e: Entry, root: Str): Option<Reason> {
    if ValidateMemberName(e.filename).None? then Some(UnsafeMemberPath)
    else if !InRoot(Name(e), root) then Some(SourceRootMismatch)
    else if FileType(e) == S_IFLNK then Some(UnsafeMemberSymlink)
    else if FileType(e) !in {0, S_IFREG, S_IFDIR} then Some(UnsafeMemberSpecialFile)
    else if Name(e) == root && !IsDirectory(e) then Some(SourceRootNotDirectory)
    else if e.flagBits % 2 == 1 then Some(EncryptedMember)
    else None
  }

  // ---- what acceptance means -------------------------------------------------------------------

  predicate SafeName(n: Str) {
    GoodName(n) && BACKSLASH !in n && COLON !in n
  }

  /** `name` spells the component sequence `p`, with or without a closing slash. */
  predicate Spells(name: Str, p: Path) {
    && p != [] && (forall n :: n in p ==> SafeName(n))
    && (name == Join(p) || name == Join(p) + [SLASH])
  }

  /** A member that is fine by itself. */
  ghost predicate Lawful(e: Entry, root: Str) {
    && (exists p :: Spells(e.filename, p))
    && InRoot(Name(e), root)
    && FileType(e) in {0, S_IFREG, S_IFDIR}
    && (Name(e) == root ==> IsDirectory(e))
    && e.flagBits % 2 == 0
  }

  /** No file member is a proper ancestor of another member. */
  ghost predicate NoConflict(entries: seq<Entry>) {
    forall a, b :: a in entries && b in entries && !IsDirectory(a) ==> !ProperPrefix(Parts(a), Parts(b))
  }

  function FoldedName(fold: Str -> Str): Entry -> Str {
    (e: Entry) => fold(Name(e))
  }

  ghost predicate Acceptable(entries: seq<Entry>, root: Str, fold: Str -> Str) {
    && entries != []
    && (forall e :: e in entries ==> Lawful(e, root))
    && NoRepeats(Map(FoldedName(fold), entries))
    && NoConflict(entries)
  }

  predicate MemberLess(a: Member, b: Member) {
    || StrLess(Join(a.relative), Join(b.relative))
    || (Join(a.relative) == Join(b.relative) && a.isDirectory && !b.isDirectory)
  }

  /** The member list an acceptable archive yields. */
  function Accepted(entries: seq<Entry>): seq<Member> {
    Sort(MemberLess, Map(MemberOf, entries))
  }

  lemma {:induction false} JoinChars(p: Path, c: Code)
    requires c != SLASH
    ensures c in Join(p) <==> exists n :: n in p && c in n
  {
    if |p| > 1 {
      JoinChars(p[1..], c);
      assert forall n :: n in p <==> n == p[0] || n in p[1..];
    }
  }

  lemma SpellsChars(name: Str, p: Path)
    requires Spells(name, p)
    ensures name != [] && NUL !in name && BACKSLASH !in name && COLON !in name && name[0] != SLASH
  {
    JoinChars(p, NUL);
    JoinChars(p, BACKSLASH);
    JoinChars(p, COLON);
    assert p[0] in p;
    assert Join(p)[0] == p[0][0];
  }

  lemma SplitTrailingSlash(p: Path)
    requires p != [] && forall n :: n in p ==> NoSlash(n)
    ensures Split(Join(p) + [SLASH]) == p + [[]]
  {
    JoinAppend(p, [[]]);
    assert Join(p) + [SLASH] + [] == Join(p) + [SLASH];
    SplitJoin(p + [[]]);
  }

  lemma SpelledIsAccepted(name: Str, p: Path)
    requires Spells(name, p)
    ensures ValidateMemberName(name) == Some(p)
  {
    hide Split, Join;
    SpellsChars(name, p);
    SplitTrailingSlash(p);
    SplitJoin(p);
    assert p[|p| - 1] in p;
  }

  lemma AcceptedIsSpelled(name: Str, p: Path)
    requires ValidateMemberName(name) == Some(p)
    ensures Spells(name, p)
  {
    hide Split, Join;
    JoinSplit(name);
    var split := Split(name);
    assert forall n :: n in p ==> n in split;
    if split[|split| - 1] == [] {
      assert split == p + [[]];
      JoinAppend(p, [[]]);
      JoinNothing();
    }
    JoinChars(p, NUL);
    JoinChars(p, BACKSLASH);
    JoinChars(p, COLON);
  }

  lemma JoinNothing()
    ensures Join([[]]) == []
  {
  }

  /** A name is accepted exactly when it spells a canonical component sequence, and yields it. */
  lemma NameAcceptance(name: Str, p: Path)
    ensures ValidateMemberName(name) == Some(p) <==> Spells(name, p)
  {
    hide ValidateMemberName, Spells;
    if Spells(name, p) { SpelledIsAccepted(name, p); }
    if ValidateMemberName(name) == Some(p) { AcceptedIsSpelled(name, p); }
  }

  /** The name without one closing slash. */
  function Unclosed(name: Str): Str {
    if name != [] && name[|name| - 1] == 0x2F then name[..|name| - 1] else name
  }

  /**
   * A name is accepted exactly if it holds no NUL, backslash or colon and, but for one closing slash, no component of
   * it is empty, a dot or two dots.
   */
  lemma SafeNames(name: Str)
    ensures ValidateMemberName(name).Some? <==>
      && (forall c :: c in name ==> c != 0 && c != 0x5C && c != 0x3A)
      && forall n :: n in Split(Unclosed(name)) ==> n != [] && n != [0x2E] && n != [0x2E, 0x2E]
  {
    hide Split;
    if name != [] {
      var init, last := name[..|name| - 1], name[|name| - 1];
      assert name == init + [last];
      if last == SLASH { SplitClosed(init); } else { LastPart(name); }
      if name[0] == SLASH { StartsEmpty(name); }
    } else {
      SplitPlain([]);
    }
    var split, parts := Split(name), Split(Unclosed(name));
    assert split == parts || split == parts + [[]];
    assert name != [] ==> parts == if split[|split| - 1] == [] then split[..|split| - 1] else split;
    assert split[0] == parts[0] && parts[0] in parts;
    assert NUL in name || BACKSLASH in name || COLON in name <==> exists c :: c in name && c in {0, 0x5C, 0x3A};
  }

  lemma {:induction false} SplitClosed(init: Str)
    ensures Split(init + [SLASH]) == Split(init) + [[]]
  {
    if init == [] {
      assert [SLASH][1..] == [];
    } else {
      SplitClosed(init[1..]);
      assert (init + [SLASH])[1..] == init[1..] + [SLASH];
    }
  }

  lemma {:induction false} LastPart(name: Str)
    requires name != [] && name[|name| - 1] != SLASH
    ensures var split := Split(name); split[|split| - 1] != []
  {
    if |name| > 1 {
      LastPart(name[1..]);
    } else {
      SplitPlain(name);
    }
  }

  lemma StartsEmpty(name: Str)
    requires name != [] && name[0] == SLASH
    ensures Split(name)[0] == []
  {
  }

  /** The chain of single-member checks passes exactly the lawful members. */
  lemma EntryFaultMeaning(e: Entry, root: Str)
    ensures EntryFault(e, root).None? <==> Lawful(e, root)
  {
    forall p { NameAcceptance(e.filename, p); }
    if ValidateMemberName(e.filename).Some? {
      NameAcceptance(e.filename, ValidateMemberName(e.filename).value);
    }
  }

  lemma {:induction false} StripSlashes(text: Str, slashes: Str)
    requires text != [] && text[|text| - 1] != SLASH && forall c :: c in slashes ==> c == SLASH
    ensures RStripSlash(text + slashes) == text
    decreases |slashes|
  {
    if slashes == [] {
      assert text + slashes == text;
    } else {
      var init, last := slashes[..|slashes| - 1], slashes[|slashes| - 1];
      assert slashes == init + [last] && last in slashes && forall c :: c in init ==> c in slashes;
      assert (text + slashes)[..|text + slashes| - 1] == text + init;
      StripSlashes(text, init);
    }
  }

  lemma {:induction false} JoinEndsInName(p: Path)
    requires p != [] && GoodPath(p)
    ensures Join(p) != [] && Join(p)[|Join(p)| - 1] != SLASH
  {
    assert p[0] in p;
    if |p| > 1 {
      JoinEndsInName(p[1..]);
    } else {
      assert p[0][|p[0]| - 1] in p[0];
    }
  }

  lemma PrefixOfName(root: Path, p: Path)
    requires root != [] && GoodPath(root) && p != [] && GoodPath(p) && IsPrefix(Join(root) + [SLASH], Join(p))
    ensures ProperPrefix(root, p)
  {
    hide Join, Split;
    var tail := Join(p)[|Join(root)| + 1..];
    JoinSplit(tail);
    assert Join(p) == Join(root) + [SLASH] + Join(Split(tail));
    JoinAppend(root, Split(tail));
    assert forall n :: n in root + Split(tail) ==> NoSlash(n);
    SplitJoin(root + Split(tail));
    SplitJoin(p);
    assert p == root + Split(tail);
  }

  lemma PrefixByName(root: Path, p: Path)
    requires root != [] && GoodPath(root) && p != [] && GoodPath(p)
    ensures IsPrefix(Join(root) + [SLASH], Join(p)) <==> ProperPrefix(root, p)
    ensures Join(p) == Join(root) <==> p == root
  {
    hide Join, Split;
    SplitJoin(root);
    SplitJoin(p);
    if IsPrefix(Join(root) + [SLASH], Join(p)) { PrefixOfName(root, p); }
    if ProperPrefix(root, p) {
      var tail := p[|root|..];
      assert p == root + tail;
      JoinAppend(root, tail);
    }
  }

  /** A name is in the root exactly if the root is an ancestor of it, or the name itself unless it ends in slashes. */
  lemma InRootMeaning(p: Path, root: Path, slashes: Str)
    requires root != [] && GoodPath(root) && p != [] && GoodPath(p) && forall c :: c in slashes ==> c == SLASH
    ensures InRoot(Join(p), Join(root) + slashes) <==> ProperPrefix(root, p) || (p == root && slashes == [])
  {
    hide IsPrefix, ProperPrefix;
    JoinEndsInName(root);
    JoinEndsInName(p);
    StripSlashes(Join(root), slashes);
    PrefixByName(root, p);
    if slashes == [] {
      assert Join(root) + slashes == Join(root);
    } else {
      assert slashes[|slashes| - 1] in slashes;
      assert (Join(root) + slashes)[|Join(root) + slashes| - 1] == SLASH;
    }
  }

  /**
   * What the gate says of one member, by its name and by the two halves of its attributes: only the upper one counts,
   * and its top four bits say what the member is.
   */
  lemma MemberReason(e: Entry, p: Path, root: Str, rest: nat, mode: nat, low: nat)
    requires e.externalAttr == (rest * 0x1_0000 + mode) * 0x1_0000 + low && mode < 0x1_0000 && low < 0x1_0000
    requires Spells(e.filename, p)
    ensures e.filename != []
    ensures var directory := e.filename[|e.filename| - 1] == 0x2F || mode / 0x1000 == 4;
      && (IsDirectory(e) <==> directory)
      && EntryFault(e, root) ==
        if !InRoot(Join(p), root) then Some(SourceRootMismatch)
        else if mode / 0x1000 == 0xA then Some(UnsafeMemberSymlink)
        else if mode / 0x1000 !in {0, 4, 8} then Some(UnsafeMemberSpecialFile)
        else if Join(p) == root && !directory then Some(SourceRootNotDirectory)
        else if e.flagBits % 2 == 1 then Some(EncryptedMember)
        else None
    ensures MemberMode(e) == mode && Parts(e) == p
  {
    UpperHalf(e, rest, mode, low);
    hide InRoot, ValidateMemberName, Spells, Join, MemberMode;
    NameAcceptance(e.filename, p);
    SpellsChars(e.filename, p);
  }

  lemma UpperHalf(e: Entry, rest: nat, mode: nat, low: nat)
    requires e.externalAttr == (rest * 0x1_0000 + mode) * 0x1_0000 + low && mode < 0x1_0000 && low < 0x1_0000
    ensures MemberMode(e) == mode
  {
    assert e.externalAttr / 0x1_0000 == rest * 0x1_0000 + mode;
  }

  /** A name that spells no canonical path is refused as unsafe, whatever else is wrong. */
  lemma UnspelledIsUnsafe(e: Entry, root: Str)
    ensures EntryFault(e, root) == Some(UnsafeMemberPath) <==> forall p :: !Spells(e.filename, p)
  {
    hide ValidateMemberName, Spells;
    forall p { NameAcceptance(e.filename, p); }
  }

  // ---- the two passes --------------------------------------------------------------------------

  ghost predicate SeenName(entries: seq<Entry>, n: nat, name: Str)
    requires n <= |entries|
  {
    exists j :: 0 <= j < n && Name(entries[j]) == name
  }

  ghost predicate SeenFolded(entries: seq<Entry>, fold: Str -> Str, n: nat, folded: Str)
    requires n <= |entries|
  {
    exists j :: 0 <= j < n && fold(Name(entries[j])) == folded
  }

  /** What the first pass says of entry `i` when everything before it was clean. */
  ghost function FirstPassFault(entries: seq<Entry>, root: Str, fold: Str -> Str, i: nat): Option<Reason>
    requires i < |entries|
  {
    if EntryFault(entries[i], root).Some? then EntryFault(entries[i], root)
    else if SeenName(entries, i, Name(entries[i])) then Some(DuplicateMember)
    else if SeenFolded(entries, fold, i, fold(Name(entries[i]))) then Some(AmbiguousMember)
    else None
  }

  ghost predicate CleanUpTo(entries: seq<Entry>, root: Str, fold: Str -> Str, n: nat)
    requires n <= |entries|
  {
    forall i :: 0 <= i < n ==> FirstPassFault(entries, root, fold, i).None?
  }

  /** `reason` is what the gate must report: the first failing entry, or what the clean list still lacks. */
  ghost predicate Explains(entries: seq<Entry>, root: Str, fold: Str -> Str, reason: Reason) {
    || (exists i :: 0 <= i < |entries| && CleanUpTo(entries, root, fold, i)
                    && FirstPassFault(entries, root, fold, i) == Some(reason))
    || (entries == [] && reason == EmptyArchive)
    || (entries != [] && CleanUpTo(entries, root, fold, |entries|) && !NoConflict(entries) && reason == MemberConflict)
  }

  /** A clean first pass is lawfulness of every entry and distinctness of the folded names. */
  lemma CleanMeaning(entries: seq<Entry>, root: Str, fold: Str -> Str)
    ensures CleanUpTo(entries, root, fold, |entries|) <==>
            (forall e :: e in entries ==> Lawful(e, root)) && NoRepeats(Map(FoldedName(fold), entries))
  {
    hide Lawful, EntryFault, Name;
    forall e { EntryFaultMeaning(e, root); }
    var folded := Map(FoldedName(fold), entries);
    assert forall i :: 0 <= i < |entries| ==> folded[i] == fold(Name(entries[i]));
    if CleanUpTo(entries, root, fold, |entries|) {
      forall i | 0 <= i < |entries| ensures Lawful(entries[i], root) {
        assert FirstPassFault(entries, root, fold, i).None?;
      }
      forall i, j | 0 <= i < j < |entries| ensures folded[i] != folded[j] {
        assert FirstPassFault(entries, root, fold, j).None?;
      }
    } else {
      var i :| 0 <= i < |entries| && FirstPassFault(entries, root, fold, i).Some?;
      assert entries[i] in entries;
    }
  }

  function ParentName(p: Path, k: nat): Str
    requires k < |p|
  {
    if k == 0 then [DOT] else Join(p[..k])
  }

  /** Looking an ancestor's joined name up is looking for that component sequence. */
  lemma ParentLookup(a: Path, b: Path, k: nat)
    requires k < |b| && a != []
    requires (forall n :: n in a ==> GoodName(n)) && (forall n :: n in b ==> GoodName(n))
    ensures Join(a) == ParentName(b, k) <==> a == b[..k]
  {
    SplitJoin(a);
    if k == 0 {
      SplitPlain([DOT]);
      assert a[0] in a;
    } else {
      assert forall n :: n in b[..k] ==> n in b;
      SplitJoin(b[..k]);
    }
  }

  /** The names and kinds recorded for the first `n` entries. */
  ghost predicate Recorded(entries: seq<Entry>, n: nat, names: set<Str>, kinds: map<Str, bool>)
    requires n <= |entries|
  {
    && (forall name :: name in names <==> SeenName(entries, n, name))
    && kinds.Keys == names
    && (forall k :: 0 <= k < n ==> Name(entries[k]) in kinds && kinds[Name(entries[k])] == IsDirectory(entries[k]))
  }

  lemma NothingSeen(entries: seq<Entry>, fold: Str -> Str)
    ensures forall name :: !SeenName(entries, 0, name)
    ensures forall f :: !SeenFolded(entries, fold, 0, f)
  {
  }

  lemma SeenStep(entries: seq<Entry>, fold: Str -> Str, n: nat)
    requires n < |entries|
    ensures forall name :: SeenName(entries, n + 1, name) <==> SeenName(entries, n, name) || name == Name(entries[n])
    ensures forall f :: SeenFolded(entries, fold, n + 1, f) <==>
      SeenFolded(entries, fold, n, f) || f == fold(Name(entries[n]))
  {
    hide Name;
    var last := Name(entries[n]);
    assert SeenName(entries, n + 1, last) && SeenFolded(entries, fold, n + 1, fold(last));
    forall name | SeenName(entries, n, name) ensures SeenName(entries, n + 1, name) {}
    forall f | SeenFolded(entries, fold, n, f) ensures SeenFolded(entries, fold, n + 1, f) {
      var j :| 0 <= j < n && fold(Name(entries[j])) == f;
    }
    forall f | SeenFolded(entries, fold, n + 1, f) && f != fold(last) ensures SeenFolded(entries, fold, n, f) {
      var j :| 0 <= j < n + 1 && fold(Name(entries[j])) == f;
    }
  }

  /** The loop of `validate_members` over the archive's entries. */
  method FirstPass(entries: seq<Entry>, root: Str, fold: Str -> Str)
    returns (fault: Option<Reason>, members: seq<Member>, names: set<Str>, kinds: map<Str, bool>)
    ensures fault.None? ==> CleanUpTo(entries, root, fold, |entries|)
    ensures fault.None? ==> members == Map(MemberOf, entries) && Recorded(entries, |entries|, names, kinds)
    ensures fault.Some? ==> exists i :: 0 <= i < |entries| && CleanUpTo(entries, root, fold, i)
                                        && FirstPassFault(entries, root, fold, i) == fault
  {
    hide Name, Parts, EntryFault, IsDirectory, MemberOf, SeenName, SeenFolded;
    members, names, kinds := [], {}, map[];
    NothingSeen(entries, fold);
    var foldedNames: map<Str, Str> := map[];
    var i := 0;
    while i < |entries|
      invariant 0 <= i <= |entries|
      invariant CleanUpTo(entries, root, fold, i)
      invariant |members| == i && forall k :: 0 <= k < i ==> members[k] == MemberOf(entries[k])
      invariant Recorded(entries, i, names, kinds)
      invariant forall f :: f in foldedNames <==> SeenFolded(entries, fold, i, f)
    {
      var e := entries[i];
      fault := EntryFault(e, root);
      if fault.Some? {
        assert FirstPassFault(entries, root, fold, i) == fault;
        return;
      }
      var normalized := Name(e);
      if normalized in names {
        fault := Some(DuplicateMember);
        assert FirstPassFault(entries, root, fold, i) == fault;
        return;
      }
      var folded := fold(normalized);
      if folded in foldedNames {
        fault := Some(AmbiguousMember);
        assert FirstPassFault(entries, root, fold, i) == fault;
        return;
      }
      SeenStep(entries, fold, i);
      names := names + {normalized};
      foldedNames := foldedNames[folded := normalized];
      kinds := kinds[normalized := IsDirectory(e)];
      members := members + [MemberOf(e)];
      i := i + 1;
    }
    fault := None;
  }

  predicate FileAt(kinds: map<Str, bool>, name: Str) {
    name in kinds && !kinds[name]
  }

  /** The loop over `path.parents`. */
  method HasFileParent(p: Path, kinds: map<Str, bool>) returns (found: bool)
    ensures found <==> exists k :: 0 <= k < |p| && FileAt(kinds, ParentName(p, k))
  {
    var k := |p|;
    while k > 0
      invariant 0 <= k <= |p|
      invariant forall c :: k <= c < |p| ==> !FileAt(kinds, ParentName(p, c))
    {
      k := k - 1;
      if FileAt(kinds, ParentName(p, k)) {
        return true;
      }
    }
    found := false;
  }

  /** Entry `b` lies below a file member. */
  ghost predicate BelowFile(entries: seq<Entry>, b: Entry) {
    exists a :: a in entries && !IsDirectory(a) && ProperPrefix(Parts(a), Parts(b))
  }

  lemma AncestorLookup(entries: seq<Entry>, root: Str, b: Entry)
    requires forall e :: e in entries ==> Lawful(e, root)
    requires b in entries
    ensures forall k, a :: 0 <= k < |Parts(b)| && a in entries ==>
      (Name(a) == ParentName(Parts(b), k) <==> Parts(a) == Parts(b)[..k])
  {
    hide Parts, Lawful, ParentName, ValidateMemberName;
    LawfulParts(b, root);
    forall k, a | 0 <= k < |Parts(b)| && a in entries
      ensures Name(a) == ParentName(Parts(b), k) <==> Parts(a) == Parts(b)[..k]
    {
      LawfulParts(a, root);
      ParentLookup(Parts(a), Parts(b), k);
    }
  }

  lemma FileParentMeaning(entries: seq<Entry>, root: Str, names: set<Str>, kinds: map<Str, bool>, b: Entry)
    requires forall e :: e in entries ==> Lawful(e, root)
    requires Recorded(entries, |entries|, names, kinds) && b in entries
    ensures (exists k :: 0 <= k < |Parts(b)| && FileAt(kinds, ParentName(Parts(b), k))) <==> BelowFile(entries, b)
  {
    hide ParentName, Parts, Name, IsDirectory, Lawful;
    var p := Parts(b);
    AncestorLookup(entries, root, b);
    if k :| 0 <= k < |p| && FileAt(kinds, ParentName(p, k)) {
      var i :| 0 <= i < |entries| && Name(entries[i]) == ParentName(p, k);
      assert ProperPrefix(Parts(entries[i]), p);
    }
    if BelowFile(entries, b) {
      var a :| a in entries && !IsDirectory(a) && ProperPrefix(Parts(a), p);
      var i :| 0 <= i < |entries| && entries[i] == a;
      assert Name(entries[i]) == ParentName(p, |Parts(a)|);
      assert FileAt(kinds, ParentName(p, |Parts(a)|));
    }
  }

  /** The second loop of `validate_members`. */
  method SecondPass(ghost entries: seq<Entry>, ghost root: Str, members: seq<Member>, ghost names: set<Str>,
      kinds: map<Str, bool>)
    returns (conflict: bool)
    requires forall e :: e in entries ==> Lawful(e, root)
    requires members == Map(MemberOf, entries) && Recorded(entries, |entries|, names, kinds)
    ensures conflict <==> !NoConflict(entries)
  {
    hide Parts, IsDirectory, Lawful, Recorded, ParentName;
    var m := 0;
    while m < |members|
      invariant 0 <= m <= |members|
      invariant forall b :: 0 <= b < m ==> !BelowFile(entries, entries[b])
    {
      conflict := HasFileParent(members[m].relative, kinds);
      FileParentMeaning(entries, root, names, kinds, entries[m]);
      if conflict {
        return;
      }
      m := m + 1;
    }
    conflict := false;
  }

  /** `validate_members` */
  method ValidateMembers(entries: seq<Entry>, root: Str, fold: Str -> Str) returns (r: Result<seq<Member>>)
    ensures r.Ok? <==> Acceptable(entries, root, fold)
    ensures r.Ok? ==> r.value == Accepted(entries)
    ensures r.Err? ==> Explains(entries, root, fold, r.reason)
  {
    CleanMeaning(entries, root, fold);
    var fault, members, names, kinds := FirstPass(entries, root, fold);
    if fault.Some? {
      return Err(fault.value);
    }
    if members == [] {
      return Err(EmptyArchive);
    }
    var conflict := SecondPass(entries, root, members, names, kinds);
    if conflict {
      return Err(MemberConflict);
    }
    r := Ok(Sort(MemberLess, members));
  }

  lemma LawfulParts(e: Entry, root: Str)
    requires Lawful(e, root)
    ensures Spells(e.filename, Parts(e))
  {
    var p :| Spells(e.filename, p);
    NameAcceptance(e.filename, p);
  }

  /** After a clean first pass the root is always there, so SourceRootMissing is never reported. */
  lemma RootAlwaysSeen(entries: seq<Entry>, root: Str, fold: Str -> Str)
    requires entries != [] && CleanUpTo(entries, root, fold, |entries|)
    ensures exists e :: e in entries && InRoot(Name(e), root)
  {
    hide Name, InRoot;
    CleanMeaning(entries, root, fold);
    assert entries[0] in entries;
  }

  // ---- the order of the archive does not matter ------------------------------------------------

  lemma MemberOrder()
    ensures StrictPartial(MemberLess)
  {
    hide StrLess, Join;
    StrOrder();
  }

  lemma AcceptedElements(entries: seq<Entry>)
    ensures |Accepted(entries)| == |entries|
    ensures forall m :: m in Accepted(entries) <==> exists e :: e in entries && MemberOf(e) == m
  {
    hide MemberOf, MemberLess;
    var ms := Map(MemberOf, entries);
    SortElements(MemberLess, ms);
    forall m ensures m in ms <==> exists e :: e in entries && MemberOf(e) == m {
      if m in ms {
        var i :| 0 <= i < |ms| && ms[i] == m;
        assert entries[i] in entries && MemberOf(entries[i]) == m;
      }
      if e :| e in entries && MemberOf(e) == m {
        var i :| 0 <= i < |entries| && entries[i] == e;
        assert ms[i] == m;
      }
    }
  }

  lemma AcceptedNamesDistinct(entries: seq<Entry>, root: Str, fold: Str -> Str)
    requires Acceptable(entries, root, fold)
    ensures forall i, j :: 0 <= i < j < |entries| ==> Name(entries[i]) != Name(entries[j])
  {
  }

  lemma MemberName(e: Entry)
    ensures Join(MemberOf(e).relative) == Name(e)
  {
  }

  /** The accepted list is strictly sorted by name. */
  lemma AcceptedIncreasing(entries: seq<Entry>, root: Str, fold: Str -> Str)
    requires Acceptable(entries, root, fold)
    ensures Increasing(MemberLess, Accepted(entries))
    ensures forall i, j :: 0 <= i < j < |Accepted(entries)| ==>
      StrLess(Join(Accepted(entries)[i].relative), Join(Accepted(entries)[j].relative))
  {
    hide Name, Parts, Lawful, StrLess, Join;
    MemberOrder();
    StrOrder();
    AcceptedNamesDistinct(entries, root, fold);
    var ms := Map(MemberOf, entries);
    forall i, j | 0 <= i < j < |ms| ensures ms[i] != ms[j] && (MemberLess(ms[i], ms[j]) || MemberLess(ms[j], ms[i])) {
      MemberName(entries[i]);
      MemberName(entries[j]);
    }
    SortIncreasing(MemberLess, ms);
    NamesApart(entries, root, fold);
  }

  lemma NamesApart(entries: seq<Entry>, root: Str, fold: Str -> Str)
    requires Acceptable(entries, root, fold)
    ensures forall a, b :: a in Accepted(entries) && b in Accepted(entries) && a != b ==>
      Join(a.relative) != Join(b.relative)
  {
    hide Name, Parts, Lawful, Join, Accepted, Acceptable, IsDirectory;
    AcceptedElements(entries);
    AcceptedNamesDistinct(entries, root, fold);
    forall a, b | a in Accepted(entries) && b in Accepted(entries) && a != b
      ensures Join(a.relative) != Join(b.relative)
    {
      var x :| x in entries && MemberOf(x) == a;
      var y :| y in entries && MemberOf(y) == b;
      MemberName(x);
      MemberName(y);
      var i :| 0 <= i < |entries| && entries[i] == x;
      var j :| 0 <= j < |entries| && entries[j] == y;
    }
  }

  lemma AcceptablePermutation(entries: seq<Entry>, shuffled: seq<Entry>, root: Str, fold: Str -> Str)
    requires multiset(entries) == multiset(shuffled) && Acceptable(entries, root, fold)
    ensures Acceptable(shuffled, root, fold)
  {
    hide Name, Parts, Lawful, IsDirectory;
    SameElements(entries, shuffled);
    MapPermutation(FoldedName(fold), entries, shuffled);
    PermutationDistinct(Map(FoldedName(fold), entries), Map(FoldedName(fold), shuffled));
  }

  /** The order of the entries in the archive decides neither the verdict nor the accepted list. */
  lemma ArchiveOrderIrrelevant(entries: seq<Entry>, shuffled: seq<Entry>, root: Str, fold: Str -> Str)
    requires multiset(entries) == multiset(shuffled)
    ensures Acceptable(entries, root, fold) <==> Acceptable(shuffled, root, fold)
    ensures Acceptable(entries, root, fold) ==> Accepted(entries) == Accepted(shuffled)
  {
    hide Acceptable, MemberLess, MemberOf;
    if Acceptable(entries, root, fold) {
      AcceptablePermutation(entries, shuffled, root, fold);
      AcceptedIncreasing(entries, root, fold);
      AcceptedIncreasing(shuffled, root, fold);
      AcceptedElements(entries);
      AcceptedElements(shuffled);
      SameElements(entries, shuffled);
      MemberOrder();
      IncreasingUnique(MemberLess, Accepted(entries), Accepted(shuffled));
    } else if Acceptable(shuffled, root, fold) {
      AcceptablePermutation(shuffled, entries, root, fold);
    }
  }
}
