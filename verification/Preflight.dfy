/** Staging a verified archive, and the consumer of the record that reports it. */
module Preflight {
  import opened Ordering
  import opened Text
  import opened FileTree
  import opened Archive
  import opened Extraction

  const EXPECTED_ARCHIVE_FILENAME: Str := U("ephi_v0.19.1_production_hardened(1).zip")
  const EXPECTED_ARCHIVE_SHA256: Str := U("5e9ad8f63b3158adc530af69fc650aec606cbfa64896ba73840cdcf994a2b6e3")
  const EXPECTED_SOURCE_ROOT: Str := U("ephi_v0.19.1_production_hardened_release")
  const EVIDENCE: Str := U("evidence")

  datatype Status = SourceStaged | SourceRequired | SourceRejected

  datatype Source = Source(
    requiredFilename: Str, requiredSha256: Str, requiredSourceRoot: Str, archivePath: Str,
    archivePresent: bool, archiveBytes: Option<nat>, archiveSha256: Option<Str>, verified: bool)

  datatype Staging = Staging(staged: bool, requestedPath: Str, sourceRoot: Option<Str>, memberCount: Option<nat>)

  datatype Baseline = NotRun | Discovered(sourceRoot: Str)

  datatype Record = Record(status: Status, reason: Reason, source: Source, staging: Staging, baseline: Baseline)

  // ---- paths as text ---------------------------------------------------------------------------

  /** `str(path)` of an absolute path. */
  function PathText(p: Path): Str {
    [SLASH] + Join(p)
  }

  /** `Path(text)`, taken from the working directory when it is relative. */
  function ParsePath(text: Str, cwd: Path): Path {
    if text != [] && text[0] == SLASH then DropEmpty(Split(text)) else cwd + DropEmpty(Split(text))
  }

  /** Reading a written path back gives the path. */
  lemma PathRoundTrip(p: Path, cwd: Path)
    requires GoodPath(p)
    ensures ParsePath(PathText(p), cwd) == p
    ensures p != [] ==> Split(PathText(p)) == [[]] + p
  {
    SplitAtSlash([], Join(p));
    assert [] + [SLASH] + Join(p) == PathText(p);
    if p == [] {
      assert Split(Join(p)) == [[]];
      var two: seq<Str> := [[], []];
      assert two[1..] == [[]];
      assert Split(PathText(p)) == two;
    } else {
      SplitJoin(p);
      DropEmptyGood(p);
      assert ([[]] + p)[1..] == p;
    }
  }

  lemma PathTextNonEmpty(p: Path)
    ensures PathText(p) != []
  {
  }

  /** `path.name` */
  function BaseName(p: Path): Str {
    if p == [] then [] else p[|p| - 1]
  }

  // ---- the consumer ----------------------------------------------------------------------------

  datatype Refusal =
    | PreflightNotSourceStaged | SourceIdentityMismatch | SourceNotVerified | StagingNotStaged
    | SourceRootIdentityMismatch | SourceRootMissing | ProtectedSourceRoot

  datatype Verdict = Trusted(root: Path) | Refused(why: Refusal)

  /** `validate_preflight_record` */
  function ValidatePreflightRecord(r: Record, t: Tree, cwd: Path, evidence: Path): Verdict {
    if r.status != SourceStaged then Refused(PreflightNotSourceStaged)
    else if r.source.requiredFilename != EXPECTED_ARCHIVE_FILENAME || r.source.requiredSha256 != EXPECTED_ARCHIVE_SHA256
         || r.source.requiredSourceRoot != EXPECTED_SOURCE_ROOT
           || r.source.archiveSha256 != Some(EXPECTED_ARCHIVE_SHA256)
    then Refused(SourceIdentityMismatch)
    else if r.source.archivePath == [] || BaseName(ParsePath(r.source.archivePath, cwd)) != EXPECTED_ARCHIVE_FILENAME
    then Refused(SourceIdentityMismatch)
    else if !r.source.archivePresent || !r.source.verified then Refused(SourceNotVerified)
    else if !r.staging.staged then Refused(StagingNotStaged)
    else if r.staging.sourceRoot.None? || r.staging.sourceRoot.value == [] || r.staging.requestedPath == []
    then Refused(SourceIdentityMismatch)
    else
      var reported := ParsePath(r.staging.sourceRoot.value, cwd);
      var expected := ParsePath(r.staging.requestedPath, cwd) + [EXPECTED_SOURCE_ROOT];
      if Resolve(reported) != Resolve(expected) then Refused(SourceRootIdentityMismatch)
      else if r.baseline.NotRun? || r.baseline.sourceRoot == [] then Refused(SourceIdentityMismatch)
      else if Resolve(ParsePath(r.baseline.sourceRoot, cwd)) != Resolve(reported)
        then Refused(SourceRootIdentityMismatch)
      else if BaseName(reported) != EXPECTED_SOURCE_ROOT then Refused(SourceRootIdentityMismatch)
      else if Resolve(reported) !in t || !t[Resolve(reported)].Dir? then Refused(Refusal.SourceRootMissing)
      else if IsPrefix(evidence, Resolve(reported)) then Refused(ProtectedSourceRoot)
      else Trusted(Resolve(reported))
  }

  /** The consumer trusts a record exactly if all it claims holds, and then its resolved source root. */
  lemma TrustedMeaning(r: Record, t: Tree, cwd: Path, evidence: Path)
    ensures var verdict := ValidatePreflightRecord(r, t, cwd, evidence);
      var root := if r.staging.sourceRoot.Some? then ParsePath(r.staging.sourceRoot.value, cwd) else [];
      && (verdict.Trusted? ==> verdict.root == Resolve(root))
      && (verdict.Trusted? <==>
        && r.status == SourceStaged && r.source.archivePresent && r.source.verified && r.staging.staged
        && r.source.requiredFilename == U("ephi_v0.19.1_production_hardened(1).zip")
        && r.source.requiredSha256 == U("5e9ad8f63b3158adc530af69fc650aec606cbfa64896ba73840cdcf994a2b6e3")
        && r.source.archiveSha256 == Some(U("5e9ad8f63b3158adc530af69fc650aec606cbfa64896ba73840cdcf994a2b6e3"))
        && r.source.requiredSourceRoot == U("ephi_v0.19.1_production_hardened_release")
        && r.source.archivePath != []
        && BaseName(ParsePath(r.source.archivePath, cwd)) == U("ephi_v0.19.1_production_hardened(1).zip")
        && r.staging.sourceRoot.Some? && r.staging.sourceRoot.value != [] && r.staging.requestedPath != []
        && Resolve(root) == Resolve(ParsePath(r.staging.requestedPath, cwd) + [BaseName(root)])
        && BaseName(root) == U("ephi_v0.19.1_production_hardened_release")
        && r.baseline.Discovered? && r.baseline.sourceRoot != []
        && Resolve(ParsePath(r.baseline.sourceRoot, cwd)) == Resolve(root)
        && Resolve(root) in t && t[Resolve(root)].Dir? && !IsPrefix(evidence, Resolve(root)))
  {
    hide ParsePath, Resolve, BaseName, U;
  }

  // ---- the record of a staged source -----------------------------------------------------------

  /** What the operator asks for. */
  datatype Request = Request(
    archivePath: Path, stageDir: Path, filename: Str, sha256: Str, sourceRoot: Str, protectedRoots: seq<Path>)

  ghost predicate ValidRequest(q: Request) {
    && GoodPath(q.archivePath) && q.stageDir != [] && GoodPath(q.stageDir)
    && forall p :: p in q.protectedRoots ==> GoodPath(p)
  }

  /** `_result` with the expectations filled in. */
  function InitialRecord(q: Request): Record {
    Record(SourceRejected, PreflightIoError,
      Source(q.filename, q.sha256, q.sourceRoot, PathText(q.archivePath), false, None, None, false),
      Staging(false, PathText(q.stageDir), None, None), NotRun)
  }

  function StagedRecord(q: Request, size: nat, memberCount: nat): Record {
    var root := PathText(q.stageDir + [q.sourceRoot]);
    Record(SourceStaged, VerifiedAndStaged,
      Source(q.filename, q.sha256, q.sourceRoot, PathText(q.archivePath), true, Some(size), Some(q.sha256), true),
      Staging(true, PathText(q.stageDir), Some(root), Some(memberCount)), Discovered(root))
  }

  /** The stage holds exactly the accepted members, and nothing else on the disk but its parents changed. */
  ghost predicate Staged(before: Tree, after: Tree, stageDir: Path, ms: seq<Member>) {
    CanMake(before, stageDir) && Unpacked(after, WithDirs(before, stageDir), stageDir, ms, |ms|)
  }

  /** Every member starts with the root, and the root itself is a directory. */
  ghost predicate Rooted(ms: seq<Member>, root: Str) {
    ms != [] && forall k :: 0 <= k < |ms| ==> StartsAt(ms[k], root)
  }

  predicate StartsAt(m: Member, root: Str) {
    m.relative != [] && m.relative[0] == root && (m.relative == [root] ==> m.isDirectory)
  }

  lemma MemberShape(e: Entry, root: Str)
    requires Lawful(e, root) && GoodName(root)
    ensures StartsAt(MemberOf(e), root)
  {
    LawfulParts(e, root);
    InRootMeaning(Parts(e), [root], []);
    assert root + [] == root;
  }

  /** What the gate accepts is rooted. */
  lemma AcceptedIsRooted(entries: seq<Entry>, root: Str, fold: Str -> Str)
    requires Acceptable(entries, root, fold) && GoodName(root)
    ensures Rooted(Accepted(entries), root)
  {
    hide Accepted, MemberOf, Lawful, StartsAt;
    var ms := Accepted(entries);
    AcceptedElements(entries);
    forall k | 0 <= k < |ms| ensures StartsAt(ms[k], root) {
      assert ms[k] in ms;
      var e :| e in entries && MemberOf(e) == ms[k];
      MemberShape(e, root);
    }
  }

  /** A staged source has its root directory. */
  lemma RootIsDirectory(ms: seq<Member>, root: Str, before: Tree, after: Tree, stageDir: Path)
    requires Rooted(ms, root) && stageDir !in before && WellFormed(before) && Staged(before, after, stageDir, ms)
    ensures stageDir + [root] in after && after[stageDir + [root]].Dir?
  {
    var p := stageDir + [root];
    assert StartsAt(ms[0], root);
    assert IsPrefix(stageDir, p) && IsPrefix(p, stageDir + ms[0].relative);
    assert Spanned(p, stageDir, ms, |ms|);
    assert p !in WithDirs(before, stageDir) by {
      assert !IsPrefix(p, stageDir);
      FreeBelow(before, stageDir, p);
    }
    forall j | 0 <= j < |ms| && p == stageDir + ms[j].relative ensures ms[j].isDirectory {
      PrefixBelow(stageDir, [root], ms[j].relative);
    }
  }

  // ---- the stage and the archive -----------------------------------------------------------------

  /** The entry is a directory by its name or by its attributes. */
  predicate ListedAsDirectory(e: Entry) {
    (e.filename != [] && e.filename[|e.filename| - 1] == 0x2F) || e.externalAttr / 0x1000_0000 % 0x10 == 4
  }

  /** The node holds what the archive holds under the entry: a directory, or its bytes under its permission bits. */
  predicate HoldsEntry(n: Node, e: Entry) {
    if ListedAsDirectory(e) then n.Dir?
    else
      var bits := e.externalAttr / 0x1_0000 % 0x200;
      n.File? && n.content == e.content && n.mode == if bits == 0 then 0x180 else bits
  }

  /** Entry `i` spells `p`, and no other entry does. */
  ghost predicate OnlyEntry(entries: seq<Entry>, i: nat, p: Path)
    requires i < |entries|
  {
    Spells(entries[i].filename, p) && forall j :: 0 <= j < |entries| && Spells(entries[j].filename, p) ==> j == i
  }

  /** What stands at `q` below the stage is from the archive: a file from one entry, a directory on the way to one. */
  ghost predicate FromArchive(t: Tree, stageDir: Path, q: Path, entries: seq<Entry>)
    requires q in t && ProperPrefix(stageDir, q)
  {
    var p := q[|stageDir|..];
    && (t[q].File? || t[q].Dir?)
    && (t[q].File? ==> exists i :: 0 <= i < |entries| && OnlyEntry(entries, i, p))
    && (t[q].Dir? ==> exists e, way :: e in entries && Spells(e.filename, way) && IsPrefix(p, way))
  }

  /** The stage holds exactly the archive: every entry is in its place, and there is nothing else. */
  ghost predicate HoldsArchive(t: Tree, stageDir: Path, entries: seq<Entry>) {
    && (forall e, p :: e in entries && Spells(e.filename, p) ==> stageDir + p in t && HoldsEntry(t[stageDir + p], e))
    && (forall q :: q in t && ProperPrefix(stageDir, q) ==> FromArchive(t, stageDir, q, entries))
  }

  lemma UpperBits(x: nat)
    ensures x / 0x1_0000 / 0x1000 == x / 0x1000_0000
  {
    var upper, low := x / 0x1_0000, x % 0x1_0000;
    var kind, bits := upper / 0x1000, upper % 0x1000;
    assert x == kind * 0x1000_0000 + (bits * 0x1_0000 + low);
  }

  lemma KindBits(upper: nat)
    ensures upper % 0x1_0000 / 0x1000 == upper / 0x1000 % 0x10
  {
    var rest, mode := upper / 0x1_0000, upper % 0x1_0000;
    var kind, bits := mode / 0x1000, mode % 0x1000;
    assert upper == (rest * 0x10 + kind) * 0x1000 + bits;
    assert upper / 0x1000 == rest * 0x10 + kind;
  }

  lemma PermissionBits(upper: nat)
    ensures upper % 0x1_0000 % 0x200 == upper % 0x200
  {
    var rest, mode := upper / 0x1_0000, upper % 0x1_0000;
    var q, bits := mode / 0x200, mode % 0x200;
    assert upper == (rest * 0x80 + q) * 0x200 + bits;
  }

  lemma EntryNode(e: Entry)
    ensures HoldsEntry(NodeOf(MemberOf(e)), e)
  {
    UpperBits(e.externalAttr);
    KindBits(e.externalAttr / 0x1_0000);
    PermissionBits(e.externalAttr / 0x1_0000);
  }

  lemma EntryIsPlaced(after: Tree, base: Tree, stageDir: Path, entries: seq<Entry>, e: Entry, p: Path)
    requires Unpacked(after, base, stageDir, Accepted(entries), |Accepted(entries)|)
    requires e in entries && Spells(e.filename, p)
    ensures stageDir + p in after && HoldsEntry(after[stageDir + p], e)
  {
    hide Accepted, MemberLess, NodeOf, HoldsEntry, Spells, ValidateMemberName;
    var ms := Accepted(entries);
    AcceptedElements(entries);
    NameAcceptance(e.filename, p);
    EntryNode(e);
    assert MemberOf(e) in ms;
    var k :| 0 <= k < |ms| && ms[k] == MemberOf(e);
    assert after[stageDir + ms[k].relative] == NodeOf(ms[k]);
  }

  lemma EntriesAreApart(entries: seq<Entry>, root: Str, fold: Str -> Str, i: nat, p: Path)
    requires Acceptable(entries, root, fold) && i < |entries| && Spells(entries[i].filename, p)
    ensures OnlyEntry(entries, i, p)
  {
    hide Acceptable, Spells, ValidateMemberName;
    AcceptedNamesDistinct(entries, root, fold);
    forall j | 0 <= j < |entries| && Spells(entries[j].filename, p) ensures j == i {
      NameAcceptance(entries[i].filename, p);
      NameAcceptance(entries[j].filename, p);
    }
  }

  lemma BelowStage(after: Tree, before: Tree, stageDir: Path, ms: seq<Member>, q: Path)
    requires WellFormed(before) && stageDir !in before && Staged(before, after, stageDir, ms)
    requires q in after && ProperPrefix(stageDir, q)
    ensures exists k :: 0 <= k < |ms| && IsPrefix(q, stageDir + ms[k].relative)
    ensures after[q].Dir? || (after[q].File? && IsFileMember(q, stageDir, ms, |ms|))
  {
    hide WellFormed;
    FreeBelow(before, stageDir, q);
    assert q !in WithDirs(before, stageDir);
    assert Spanned(q, stageDir, ms, |ms|);
    if IsFileMember(q, stageDir, ms, |ms|) {
      var k :| 0 <= k < |ms| && !ms[k].isDirectory && q == stageDir + ms[k].relative;
      assert after[q] == NodeOf(ms[k]);
    }
  }

  lemma MemberIsEntry(entries: seq<Entry>, root: Str, fold: Str -> Str, m: Member) returns (i: nat)
    requires Acceptable(entries, root, fold) && m in Accepted(entries)
    ensures i < |entries| && OnlyEntry(entries, i, m.relative)
  {
    hide Acceptable, Accepted, OnlyEntry, Spells, Lawful;
    AcceptedElements(entries);
    LawfulEntries(entries, root, fold);
    var e :| e in entries && MemberOf(e) == m;
    i :| 0 <= i < |entries| && entries[i] == e;
    LawfulParts(e, root);
    EntriesAreApart(entries, root, fold, i, m.relative);
  }

  lemma PlacedIsEntry(after: Tree, before: Tree, stageDir: Path, entries: seq<Entry>, root: Str, fold: Str -> Str,
      q: Path)
    requires Acceptable(entries, root, fold) && WellFormed(before) && stageDir !in before
    requires Staged(before, after, stageDir, Accepted(entries)) && q in after && ProperPrefix(stageDir, q)
    ensures FromArchive(after, stageDir, q, entries)
  {
    hide Acceptable, Accepted, Spells, WellFormed, Staged;
    var ms, p := Accepted(entries), q[|stageDir|..];
    assert q == stageDir + p;
    BelowStage(after, before, stageDir, ms, q);
    var k :| 0 <= k < |ms| && IsPrefix(q, stageDir + ms[k].relative);
    PrefixBelow(stageDir, p, ms[k].relative);
    assert ms[k] in ms;
    var way := MemberIsEntry(entries, root, fold, ms[k]);
    assert entries[way] in entries;
    if after[q].File? {
      var f :| 0 <= f < |ms| && !ms[f].isDirectory && q == stageDir + ms[f].relative;
      PrefixBelow(stageDir, p, ms[f].relative);
      assert ms[f] in ms;
      var i := MemberIsEntry(entries, root, fold, ms[f]);
    }
  }

  lemma LawfulEntries(entries: seq<Entry>, root: Str, fold: Str -> Str)
    requires Acceptable(entries, root, fold)
    ensures forall e :: e in entries ==> Lawful(e, root)
  {
  }

  /** The staged tree is the archive, entry by entry. */
  lemma StageHoldsArchive(before: Tree, after: Tree, stageDir: Path, entries: seq<Entry>, root: Str, fold: Str -> Str)
    requires Acceptable(entries, root, fold) && WellFormed(before) && stageDir !in before
    requires Staged(before, after, stageDir, Accepted(entries))
    ensures HoldsArchive(after, stageDir, entries)
  {
    hide Acceptable, Accepted, HoldsEntry, FromArchive, WellFormed, Unpacked, Spells;
    forall e, p | e in entries && Spells(e.filename, p)
      ensures stageDir + p in after && HoldsEntry(after[stageDir + p], e)
    {
      EntryIsPlaced(after, WithDirs(before, stageDir), stageDir, entries, e, p);
    }
    forall q | q in after && ProperPrefix(stageDir, q) ensures FromArchive(after, stageDir, q, entries) {
      PlacedIsEntry(after, before, stageDir, entries, root, fold, q);
    }
  }

  // ---- staging -----------------------------------------------------------------------------------

  /** The hidden sibling directory `mkdtemp` makes for a stage. */
  function TemporaryDir(stageDir: Path, suffix: Str): Path
    requires stageDir != []
  {
    Parent(stageDir) + [[DOT] + BaseName(stageDir) + [DOT] + suffix]
  }

  /** It stands beside the stage and is named after it. */
  lemma TemporaryName(parent: Path, name: Str, suffix: Str)
    ensures TemporaryDir(parent + [name], suffix) == parent + [U(".") + name + U(".") + suffix]
  {
    assert U(".") == [DOT] && Parent(parent + [name]) == parent;
  }

  lemma TemporaryIsApart(stageDir: Path, suffix: Str, p: Path)
    requires stageDir != []
    ensures IsPrefix(TemporaryDir(stageDir, suffix), p) ==> !IsPrefix(stageDir, p)
    ensures !IsPrefix(TemporaryDir(stageDir, suffix), stageDir)
      && !IsPrefix(TemporaryDir(stageDir, suffix), Parent(stageDir))
    ensures TemporaryDir(stageDir, suffix) != []
  {
  }

  lemma SpannedMoved(from: Path, to: Path, x: Path, ms: seq<Member>)
    ensures Spanned(from + x, from, ms, |ms|) <==> Spanned(to + x, to, ms, |ms|)
    ensures IsFileMember(from + x, from, ms, |ms|) <==> IsFileMember(to + x, to, ms, |ms|)
  {
    assert IsPrefix(from, from + x) && IsPrefix(to, to + x);
    forall k | 0 <= k < |ms|
      ensures IsPrefix(from + x, from + ms[k].relative) <==> IsPrefix(to + x, to + ms[k].relative)
      ensures from + x == from + ms[k].relative <==> to + x == to + ms[k].relative
    {
      PrefixBelow(from, x, ms[k].relative);
      PrefixBelow(to, x, ms[k].relative);
    }
  }

  /** Unpacking beside the stage and renaming is unpacking into the stage. */
  lemma RenameStages(parents: Tree, unpacked: Tree, temporary: Path, stageDir: Path, ms: seq<Member>, q: Path)
    requires stageDir != [] && temporary != []
    requires forall p :: p in parents ==> !IsPrefix(stageDir, p) && !IsPrefix(temporary, p)
    requires forall p :: IsPrefix(temporary, p) ==> !IsPrefix(stageDir, p)
    requires Unpacked(unpacked, parents[temporary := Dir], temporary, ms, |ms|)
    ensures var after, base := Moved(unpacked, temporary, stageDir), parents[stageDir := Dir];
      && (q in after <==> q in base || Spanned(q, stageDir, ms, |ms|))
      && (q in base ==> q in after && after[q] == base[q])
      && (q in after && q !in base ==> after[q].Dir? || IsFileMember(q, stageDir, ms, |ms|))
  {
    hide Moved, IsFileMember;
    forall p | p in unpacked ensures !IsPrefix(stageDir, p) {}
    MovedLookup(unpacked, temporary, stageDir, q);
    if IsPrefix(stageDir, q) {
      var x := q[|stageDir|..];
      assert q == stageDir + x;
      SpannedMoved(temporary, stageDir, x, ms);
      assert IsPrefix(temporary, temporary + x);
      assert temporary + x == temporary <==> q == stageDir;
    }
  }

  /** The renamed tree is the staged tree. */
  lemma RenamedIsStaged(before: Tree, unpacked: Tree, stageDir: Path, suffix: Str, ms: seq<Member>)
    requires WellFormed(before) && stageDir != [] && stageDir !in before && CanMake(before, Parent(stageDir))
    requires var temporary := TemporaryDir(stageDir, suffix);
      temporary !in before
        && Unpacked(unpacked, WithDirs(before, Parent(stageDir))[temporary := Dir], temporary, ms, |ms|)
    ensures Staged(before, Moved(unpacked, TemporaryDir(stageDir, suffix), stageDir), stageDir, ms)
  {
    hide Unpacked, Moved, Spanned, IsFileMember, WellFormed, WithDirs, TemporaryDir;
    var temporary := TemporaryDir(stageDir, suffix);
    var parents := WithDirs(before, Parent(stageDir));
    var after := Moved(unpacked, temporary, stageDir);
    ParentsAreApart(before, stageDir, suffix);
    WithDirsStep(before, stageDir);
    assert WithDirs(before, stageDir) == parents[stageDir := Dir];
    TemporaryIsApart(stageDir, suffix, stageDir);
    forall p { TemporaryIsApart(stageDir, suffix, p); }
    forall q { RenameStages(parents, unpacked, temporary, stageDir, ms, q); }
    forall k | 0 <= k < |ms|
      ensures stageDir + ms[k].relative in after && after[stageDir + ms[k].relative] == NodeOf(ms[k])
    {
      MemberMoved(parents, unpacked, temporary, stageDir, ms, k);
    }
    StagedFromParts(before, after, stageDir, ms);
  }

  lemma StagedFromParts(before: Tree, after: Tree, stageDir: Path, ms: seq<Member>)
    requires CanMake(before, stageDir)
    requires var base := WithDirs(before, stageDir);
      && (forall p :: p in after <==> p in base || Spanned(p, stageDir, ms, |ms|))
      && (forall p :: p in base ==> p in after && after[p] == base[p])
      && (forall k :: 0 <= k < |ms| ==>
        stageDir + ms[k].relative in after && after[stageDir + ms[k].relative] == NodeOf(ms[k]))
      && (forall p :: p in after && p !in base ==> after[p].Dir? || IsFileMember(p, stageDir, ms, |ms|))
    ensures Staged(before, after, stageDir, ms)
  {
  }

  lemma MemberMoved(parents: Tree, unpacked: Tree, temporary: Path, stageDir: Path, ms: seq<Member>, k: nat)
    requires k < |ms|
    requires forall p :: p in parents ==> !IsPrefix(stageDir, p)
    requires forall p :: IsPrefix(temporary, p) ==> !IsPrefix(stageDir, p)
    requires Unpacked(unpacked, parents[temporary := Dir], temporary, ms, |ms|)
    ensures var after, p := Moved(unpacked, temporary, stageDir), stageDir + ms[k].relative;
      p in after && after[p] == NodeOf(ms[k])
  {
    hide Moved, IsFileMember;
    assert IsPrefix(temporary, temporary);
    forall p | p in unpacked ensures !IsPrefix(stageDir, p) {}
    var q := stageDir + ms[k].relative;
    assert IsPrefix(stageDir, q) && q[|stageDir|..] == ms[k].relative;
    MovedLookup(unpacked, temporary, stageDir, q);
  }

  lemma ParentsAreApart(before: Tree, stageDir: Path, suffix: Str)
    requires WellFormed(before) && stageDir != [] && stageDir !in before && TemporaryDir(stageDir, suffix) !in before
    ensures forall p :: p in WithDirs(before, Parent(stageDir)) ==>
      !IsPrefix(stageDir, p) && !IsPrefix(TemporaryDir(stageDir, suffix), p)
  {
    hide WellFormed, TemporaryDir;
    var temporary := TemporaryDir(stageDir, suffix);
    TemporaryIsApart(stageDir, suffix, stageDir);
    forall p | p in before ensures !IsPrefix(stageDir, p) && !IsPrefix(temporary, p) {
      if IsPrefix(stageDir, p) { FreeBelow(before, stageDir, p); }
      if IsPrefix(temporary, p) { FreeBelow(before, temporary, p); }
    }
    forall p | IsPrefix(p, Parent(stageDir)) ensures !IsPrefix(stageDir, p) && !IsPrefix(temporary, p) {
    }
  }

  /** What opening a zip directory yields: the fault it fails with, or its entries. */
  datatype ZipRead = Unreadable(fault: Fault) | Entries(entries: seq<Entry>)

  /**
   * What the outside world supplies: the digest, the zip reader, `str.casefold`, and whether the inventory of a
   * source root below a directory of the disk goes through.
   */
  datatype World = World(
    hash: Bytes -> Str, readZip: Bytes -> ZipRead, fold: Str -> Str, discovers: (Tree, Path, Str) -> bool)

  /** The disk before the archive is unpacked: the parents of the stage and the empty temporary directory. */
  ghost function Prepared(t: Tree, stageDir: Path, suffix: Str): Tree
    requires stageDir != []
  {
    WithDirs(t, Parent(stageDir))[TemporaryDir(stageDir, suffix) := Dir]
  }

  /** The members unpack into `temporary`, and the inventory of the source root there goes through. */
  ghost predicate Discoverable(base: Tree, temporary: Path, ms: seq<Member>, root: Str, w: World) {
    match UnpackAll(base, temporary, ms, |ms|)
    case None => false
    case Some(unpacked) => w.discovers(unpacked, temporary, root)
  }

  /** Everything the request asks for is there. */
  ghost predicate Admissible(q: Request, t: Tree, w: World, suffix: Str) {
    && (forall root :: root in q.protectedRoots ==> !IsPrefix(root, q.archivePath) && !IsPrefix(root, q.stageDir))
    && BaseName(q.archivePath) == q.filename
    && q.archivePath in t && t[q.archivePath].File?
    && w.hash(t[q.archivePath].content) == q.sha256
    && q.stageDir != [] && q.stageDir !in t && CanMake(t, Parent(q.stageDir))
    && w.readZip(t[q.archivePath].content).Entries?
    && Stageable(q, t, w, suffix, w.readZip(t[q.archivePath].content).entries)
  }

  /** The gate accepts the entries, their members can be read, and the inventory goes through. */
  ghost predicate Stageable(q: Request, t: Tree, w: World, suffix: Str, entries: seq<Entry>)
    requires q.stageDir != []
  {
    && Acceptable(entries, q.sourceRoot, w.fold)
    && FirstDamage(Accepted(entries)).None?
    && Discoverable(
         Prepared(t, q.stageDir, suffix), TemporaryDir(q.stageDir, suffix), Accepted(entries), q.sourceRoot, w)
  }

  /** The disk after a run that did not stage: at most the parents of the stage are new. */
  ghost predicate NotStaged(before: Tree, after: Tree, stageDir: Path)
    requires stageDir != []
  {
    PartlyMade(before, after, Parent(stageDir))
  }

  /**
   * Why an archive whose bytes are `content` cannot be staged: its parents, its directory, what the gate finds first,
   * the first member that cannot be read, or the inventory.
   */
  ghost predicate StagingReason(q: Request, t: Tree, w: World, content: Bytes, reason: Reason)
    requires q.stageDir != []
  {
    if !CanMake(t, Parent(q.stageDir)) then reason == PreflightIoError
    else if w.readZip(content).Unreadable? then
      reason == if w.readZip(content).fault == BadZip then InvalidZip else PreflightIoError
    else
      var entries := w.readZip(content).entries;
      if !Acceptable(entries, q.sourceRoot, w.fold) then Explains(entries, q.sourceRoot, w.fold, reason)
      else ContentReason(Accepted(entries), reason)
  }

  /** Why accepted members cannot be staged on a sound disk. */
  predicate ContentReason(ms: seq<Member>, reason: Reason) {
    match FirstDamage(ms)
    case Some(damage) => reason == if damage == BadZip then InvalidZip else PreflightIoError
    case None => reason == PreflightIoError
  }

  ghost predicate UnpackedThenMoved(before: Tree, after: Tree, temporary: Path, stageDir: Path, ms: seq<Member>) {
    exists t :: Unpacked(t, before[temporary := Dir], temporary, ms, |ms|) && after == Moved(t, temporary, stageDir)
  }

  /** Unpacks beside the stage, takes the inventory and renames; removes the temporary directory on any fault. */
  method StageMembers(disk: Disk, ms: seq<Member>, stageDir: Path, suffix: Str, root: Str, w: World)
    returns (fault: Option<Reason>, ghost cleaned: bool)
    requires WellFormed(disk.nodes) && stageDir != [] && GoodPath(TemporaryDir(stageDir, suffix))
    requires stageDir !in disk.nodes && CanCreate(disk.nodes, TemporaryDir(stageDir, suffix))
    requires Separable(ms) && forall m :: m in ms ==> m.relative != [] && GoodPath(m.relative)
    modifies disk`nodes, disk`clock, disk`created
    ensures fault.None? ==> UnpackedThenMoved(old(disk.nodes), disk.nodes, TemporaryDir(stageDir, suffix), stageDir, ms)
    ensures fault.Some? && cleaned ==> disk.nodes == old(disk.nodes)
    ensures fault.Some? ==> SameOutside(old(disk.nodes), disk.nodes, TemporaryDir(stageDir, suffix))
    ensures var temporary := TemporaryDir(stageDir, suffix);
      var good := FirstDamage(ms).None? && Discoverable(old(disk.nodes)[temporary := Dir], temporary, ms, root, w);
      (fault.None? ==> good) && (disk.Faultless() ==> cleaned && (fault.None? <==> good))
    ensures disk.Faultless() && fault.Some? ==> ContentReason(ms, fault.value)
  {
    hide WellFormed, GoodPath, Separable, Unpacked, Moved, TemporaryDir, FirstDamage, FaultReason, StopsAt;
    hide UnpackAll, Discoverable, EmptyDir, ContentReason;
    TemporaryIsApart(stageDir, suffix, stageDir);
    var temporary := TemporaryDir(stageDir, suffix);
    ghost var before := disk.nodes;
    cleaned := true;
    var made := disk.MakeTempDir(temporary);
    if made != Fine {
      return Some(FaultReason(made)), true;
    }
    ghost var base := disk.nodes;
    FreshIsEmpty(before, temporary);
    fault := Extract(disk, ms, temporary);
    ghost var unpacked := disk.nodes;
    UnpackingOutcome(base, temporary, ms, root, w);
    if disk.Faultless() && fault.Some? { DamageStops(base, temporary, ms, fault.value); }
    InventoryReason(ms);
    if fault.None? {
      var inventory := disk.Attempt();
      if inventory != Fine {
        fault := Some(FaultReason(inventory));
      } else if !w.discovers(disk.nodes, temporary, root) {
        fault := Some(PreflightIoError);
      } else {
        var renamed := disk.Rename(temporary, stageDir);
        if renamed == Fine {
          return None, true;
        }
        fault := Some(FaultReason(renamed));
      }
    }
    RemovedFresh(before, base, unpacked, temporary);
    var removed := disk.RemoveTree(temporary);
    cleaned := removed == Fine;
    if removed != Fine {
      fault := Some(FaultReason(removed));
    }
  }

  /** On a sound disk the extraction of a separable list stops only at the first member that cannot be read. */
  lemma DamageStops(base: Tree, target: Path, ms: seq<Member>, reason: Reason)
    requires WellFormed(base) && EmptyDir(base, target) && Separable(ms)
    requires exists k :: 0 <= k < |ms| && StopsAt(base, target, ms, k, reason)
    ensures FirstDamage(ms).Some? && reason == FaultReason(FirstDamage(ms).value)
  {
    hide WellFormed, EmptyDir, Separable, Unpacked, Free, Intact, FaultReason, UnpackAll;
    var k :| 0 <= k < |ms| && StopsAt(base, target, ms, k, reason);
    SeparableUnpacks(base, target, ms, k);
    PlaceIsFree(UnpackAll(base, target, ms, k).value, base, target, ms, k);
    FirstDamageAt(ms, k);
  }

  /** A separable list unpacks into an empty directory exactly if it can be read; the inventory sees the result. */
  lemma UnpackingOutcome(base: Tree, target: Path, ms: seq<Member>, root: Str, w: World)
    requires WellFormed(base) && EmptyDir(base, target) && Separable(ms)
    ensures UnpackAll(base, target, ms, |ms|).Some? <==> FirstDamage(ms).None?
    ensures UnpackAll(base, target, ms, |ms|).Some? ==>
      var unpacked := UnpackAll(base, target, ms, |ms|).value;
      && Unpacked(unpacked, base, target, ms, |ms|)
      && (Discoverable(base, target, ms, root, w) <==> w.discovers(unpacked, target, root))
  {
    hide WellFormed, EmptyDir, Separable, Unpacked, UnpackAll, Intact, FirstDamage;
    SeparableUnpacks(base, target, ms, |ms|);
    NoDamage(ms);
  }

  lemma InventoryReason(ms: seq<Member>)
    ensures FirstDamage(ms).None? ==> ContentReason(ms, PreflightIoError)
    ensures forall d :: FirstDamage(ms) == Some(d) ==> ContentReason(ms, FaultReason(d))
  {
  }

  lemma FreshIsEmpty(t: Tree, p: Path)
    requires WellFormed(t) && p != [] && CanCreate(t, p)
    ensures EmptyDir(t[p := Dir], p)
  {
    forall q | IsPrefix(p, q) ensures q !in t { FreeBelow(t, p, q); }
  }

  lemma RemovedFresh(before: Tree, base: Tree, unpacked: Tree, p: Path)
    requires WellFormed(before) && p !in before && base == before[p := Dir] && SameOutside(base, unpacked, p)
    ensures Removed(unpacked, p) == before
    ensures SameOutside(before, unpacked, p)
  {
    forall q | IsPrefix(p, q) ensures q !in before { FreeBelow(before, p, q); }
    assert IsPrefix(p, p);
  }

  /** The parents, the zip directory, the gate and the staging, for an archive whose bytes are `content`. */
  method StageArchive(disk: Disk, q: Request, w: World, suffix: Str, content: Bytes)
    returns (fault: Option<Reason>, ms: seq<Member>, ghost cleaned: bool)
    requires WellFormed(disk.nodes) && ValidRequest(q) && NoSlash(suffix) && NUL !in suffix
    requires q.stageDir !in disk.nodes && TemporaryDir(q.stageDir, suffix) !in disk.nodes
    modifies disk`nodes, disk`clock, disk`created
    ensures fault.None? ==>
      && w.readZip(content).Entries? && Stageable(q, old(disk.nodes), w, suffix, w.readZip(content).entries)
      && ms == Accepted(w.readZip(content).entries) && Staged(old(disk.nodes), disk.nodes, q.stageDir, ms)
    ensures fault.Some? ==> q.stageDir !in disk.nodes
    ensures disk.Faultless() && fault.Some? ==> StagingReason(q, old(disk.nodes), w, content, fault.value)
    ensures fault.Some? && cleaned ==> NotStaged(old(disk.nodes), disk.nodes, q.stageDir)
    ensures disk.Faultless() ==> cleaned && (fault.None? <==>
      && CanMake(old(disk.nodes), Parent(q.stageDir)) && w.readZip(content).Entries?
      && Stageable(q, old(disk.nodes), w, suffix, w.readZip(content).entries))
  {
    hide WellFormed, TemporaryDir, CanMake, PartlyMade, Acceptable, Explains, WithDirs, Accepted, UnpackedThenMoved;
    hide Separable, FirstDamage, Discoverable, ContentReason;
    ghost var before := disk.nodes;
    ms, cleaned := [], true;
    var made := disk.MakeDirs(Parent(q.stageDir));
    if made != Fine {
      PartsStayFree(before, disk.nodes, q.stageDir);
      return Some(FaultReason(made)), ms, true;
    }
    ghost var parents := disk.nodes;
    ParentsAreApart(before, q.stageDir, suffix);
    MadeAll(before, Parent(q.stageDir));
    PartsStayFree(before, parents, q.stageDir);
    var read := disk.Attempt();
    if read != Fine {
      return Some(FaultReason(read)), ms, true;
    }
    var zip := w.readZip(content);
    if zip.Unreadable? {
      return Some(FaultReason(zip.fault)), ms, true;
    }
    var gate := ValidateMembers(zip.entries, q.sourceRoot, w.fold);
    if gate.Err? {
      return Some(gate.reason), ms, true;
    }
    ms := gate.value;
    AcceptedIsSeparable(zip.entries, q.sourceRoot, w.fold);
    ReadyForTemporary(before, q.stageDir, suffix);
    fault, cleaned := StageMembers(disk, ms, q.stageDir, suffix, q.sourceRoot, w);
    if fault.None? {
      MovedIsStaged(before, disk.nodes, q.stageDir, suffix, ms);
    } else {
      TemporaryIsApart(q.stageDir, suffix, q.stageDir);
    }
  }

  lemma PartsStayFree(before: Tree, after: Tree, stageDir: Path)
    requires stageDir != [] && stageDir !in before && PartlyMade(before, after, Parent(stageDir))
    ensures stageDir !in after
  {
  }

  lemma ReadyForTemporary(before: Tree, stageDir: Path, suffix: Str)
    requires WellFormed(before) && stageDir != [] && GoodPath(stageDir) && NoSlash(suffix) && NUL !in suffix
    requires stageDir !in before && TemporaryDir(stageDir, suffix) !in before && CanMake(before, Parent(stageDir))
    ensures var temporary := TemporaryDir(stageDir, suffix);
      && temporary != [] && GoodPath(temporary) && CanCreate(WithDirs(before, Parent(stageDir)), temporary)
  {
    hide CanMake, WellFormed;
    var temporary := TemporaryDir(stageDir, suffix);
    assert BaseName(stageDir) in stageDir;
    TemporaryIsApart(stageDir, suffix, stageDir);
    ParentsAreApart(before, stageDir, suffix);
    assert IsPrefix(Parent(stageDir), Parent(stageDir)) && IsPrefix(temporary, temporary);
    WithDirsWellFormed(before, Parent(stageDir));
    assert GoodName(temporary[|temporary| - 1]);
    forall n | n in temporary ensures GoodName(n) {
      assert n == temporary[|temporary| - 1] || n in stageDir;
    }
  }

  lemma MovedIsStaged(before: Tree, after: Tree, stageDir: Path, suffix: Str, ms: seq<Member>)
    requires WellFormed(before) && stageDir != [] && stageDir !in before && CanMake(before, Parent(stageDir))
    requires TemporaryDir(stageDir, suffix) !in before
    requires UnpackedThenMoved(WithDirs(before, Parent(stageDir)), after, TemporaryDir(stageDir, suffix), stageDir, ms)
    ensures Staged(before, after, stageDir, ms)
  {
    hide WellFormed, Unpacked, Moved, Staged, WithDirs, TemporaryDir, CanMake;
    var temporary := TemporaryDir(stageDir, suffix);
    var t :| Unpacked(t, WithDirs(before, Parent(stageDir))[temporary := Dir], temporary, ms, |ms|)
      && after == Moved(t, temporary, stageDir);
    RenamedIsStaged(before, t, stageDir, suffix, ms);
  }

  // ---- producer and consumer agree -----------------------------------------------------------

  lemma ExpectedRootIsAName()
    ensures GoodName(EXPECTED_SOURCE_ROOT) && EXPECTED_SOURCE_ROOT != EVIDENCE
  {
    hide U;
    LiteralChars("ephi_v0.19.1_production_hardened_release", '/');
    LiteralChars("ephi_v0.19.1_production_hardened_release", '\0');
    assert |EXPECTED_SOURCE_ROOT| == 40 && |EVIDENCE| == 8;
  }

  lemma PrefixOfChild(a: Path, x: Str, b: Path, y: Str)
    requires x != y
    ensures IsPrefix(a + [x], b + [y]) ==> IsPrefix(a + [x], b)
  {
    assert |a| < |b| ==> (b + [y])[..|a| + 1] == b[..|a| + 1];
    assert (b + [y])[..|b| + 1] == b + [y] && (a + [x])[|a|] == x && (b + [y])[|b|] == y;
  }

  /** Of a staged record, the consumer re-checks only the identities and the protected root. */
  lemma ConsumerVerdict(q: Request, ms: seq<Member>, before: Tree, after: Tree, size: nat, cwd: Path, evidence: Path)
    requires ValidRequest(q) && WellFormed(before) && q.stageDir !in before && GoodName(q.sourceRoot)
    requires q.archivePath != [] && BaseName(q.archivePath) == q.filename
    requires Rooted(ms, q.sourceRoot) && Staged(before, after, q.stageDir, ms)
    ensures ValidatePreflightRecord(StagedRecord(q, size, |ms|), after, cwd, evidence)
            == (if q.filename != EXPECTED_ARCHIVE_FILENAME || q.sha256 != EXPECTED_ARCHIVE_SHA256
              || q.sourceRoot != EXPECTED_SOURCE_ROOT
                then Refused(SourceIdentityMismatch)
                else if IsPrefix(evidence, q.stageDir + [q.sourceRoot]) then Refused(ProtectedSourceRoot)
                else Trusted(q.stageDir + [q.sourceRoot]))
  {
    hide Rooted, Staged, WellFormed, PathText, ParsePath, Resolve, U;
    var root := q.stageDir + [q.sourceRoot];
    PathTextNonEmpty(root);
    PathTextNonEmpty(q.stageDir);
    PathTextNonEmpty(q.archivePath);
    RootIsDirectory(ms, q.sourceRoot, before, after, q.stageDir);
    PathRoundTrip(root, cwd);
    PathRoundTrip(q.stageDir, cwd);
    PathRoundTrip(q.archivePath, cwd);
    ResolveGood(root);
  }

  /** With the shipped constants, every staged record is trusted. */
  lemma ProducerConsumerAgree(q: Request, ms: seq<Member>, before: Tree, after: Tree, size: nat, cwd: Path,
      repository: Path)
    requires ValidRequest(q) && WellFormed(before) && q.stageDir !in before && q.archivePath != []
    requires BaseName(q.archivePath) == q.filename == EXPECTED_ARCHIVE_FILENAME
    requires q.sha256 == EXPECTED_ARCHIVE_SHA256 && q.sourceRoot == EXPECTED_SOURCE_ROOT
    requires !IsPrefix(repository + [EVIDENCE], q.stageDir)
    requires Rooted(ms, q.sourceRoot) && Staged(before, after, q.stageDir, ms)
    ensures ValidatePreflightRecord(StagedRecord(q, size, |ms|), after, cwd, repository + [EVIDENCE])
            == Trusted(q.stageDir + [EXPECTED_SOURCE_ROOT])
  {
    hide Rooted, Staged, WellFormed, ValidatePreflightRecord;
    ExpectedRootIsAName();
    ConsumerVerdict(q, ms, before, after, size, cwd, repository + [EVIDENCE]);
    PrefixOfChild(repository, EVIDENCE, q.stageDir, q.sourceRoot);
  }

  // ---- the whole run -------------------------------------------------------------------------

  predicate UnderAny(p: Path, roots: seq<Path>) {
    exists i :: 0 <= i < |roots| && IsPrefix(Resolve(roots[i]), Resolve(p))
  }

  /** The checks on the request itself, in their order. */
  function RequestFault(q: Request, t: Tree): Option<Reason> {
    if UnderAny(q.archivePath, q.protectedRoots) || UnderAny(q.stageDir, q.protectedRoots) then Some(ProtectedPath)
    else if BaseName(q.archivePath) != q.filename then Some(SourceFilenameMismatch)
    else if q.archivePath in t && t[q.archivePath].Link? then Some(ArchiveSymlink)
    else if q.archivePath !in t then Some(ArchiveMissing)
    else if !t[q.archivePath].File? then Some(ArchiveNotRegularFile)
    else None
  }

  /** What is wrong with the request itself, in the order of the checks. */
  ghost function RequestReason(q: Request, t: Tree): Option<Reason> {
    var archive := q.archivePath;
    if exists root :: root in q.protectedRoots && (IsPrefix(root, archive) || IsPrefix(root, q.stageDir))
    then Some(ProtectedPath)
    else if (if archive == [] then [] else archive[|archive| - 1]) != q.filename then Some(SourceFilenameMismatch)
    else if archive !in t then Some(ArchiveMissing)
    else
      match t[archive]
      case Link => Some(ArchiveSymlink)
      case File(_, _) => None
      case _ => Some(ArchiveNotRegularFile)
  }

  lemma RequestReasons(q: Request, t: Tree)
    requires ValidRequest(q)
    ensures RequestFault(q, t) == RequestReason(q, t)
  {
    UnderAnyMeaning(q.archivePath, q.protectedRoots);
    UnderAnyMeaning(q.stageDir, q.protectedRoots);
  }

  /** The first thing wrong with the request. */
  ghost predicate FirstReason(q: Request, t: Tree, w: World, reason: Reason)
    requires q.stageDir != []
  {
    if RequestReason(q, t).Some? then reason == RequestReason(q, t).value
    else if w.hash(t[q.archivePath].content) != q.sha256 then reason == SourceHashMismatch
    else if q.stageDir in t then reason == StageAlreadyExists
    else StagingReason(q, t, w, t[q.archivePath].content, reason)
  }

  /** A rejected record claims nothing beyond the size and digest of an archive that was read. */
  predicate ClaimsNothing(record: Record, q: Request, t: Tree, w: World) {
    var bare := Source(q.filename, q.sha256, q.sourceRoot, PathText(q.archivePath), false, None, None, false);
    && record.staging == Staging(false, PathText(q.stageDir), None, None) && record.baseline == NotRun
    && (|| record.source == bare
        || (q.archivePath in t && t[q.archivePath].File?
            && var content := t[q.archivePath].content;
              record.source == bare.(
                archivePresent := true, archiveBytes := Some(|content|), archiveSha256 := Some(w.hash(content)))))
  }

  lemma UnderAnyMeaning(p: Path, roots: seq<Path>)
    requires GoodPath(p) && forall r :: r in roots ==> GoodPath(r)
    ensures UnderAny(p, roots) <==> exists r :: r in roots && IsPrefix(r, p)
  {
    ResolveGood(p);
    forall i | 0 <= i < |roots| ensures Resolve(roots[i]) == roots[i] { ResolveGood(roots[i]); }
  }

  /** The request the command line makes by default, for a repository at `repository`. */
  ghost predicate ShippedRequest(q: Request, repository: Path) {
    && q.filename == EXPECTED_ARCHIVE_FILENAME && q.sha256 == EXPECTED_ARCHIVE_SHA256
      && q.sourceRoot == EXPECTED_SOURCE_ROOT
    && repository + [EVIDENCE] in q.protectedRoots
  }

  lemma RefusedUnlessStaged(r: Record, t: Tree, cwd: Path, evidence: Path)
    ensures r.status != SourceStaged ==>
      ValidatePreflightRecord(r, t, cwd, evidence) == Refused(PreflightNotSourceStaged)
  {
  }

  lemma ShippedRunTrusted(q: Request, ms: seq<Member>, before: Tree, after: Tree, size: nat, cwd: Path,
      repository: Path)
    requires WellFormed(before) && ValidRequest(q) && q.stageDir !in before && ShippedRequest(q, repository)
    requires BaseName(q.archivePath) == q.filename && !IsPrefix(repository + [EVIDENCE], q.stageDir)
    requires Rooted(ms, q.sourceRoot) && Staged(before, after, q.stageDir, ms)
    ensures ValidatePreflightRecord(StagedRecord(q, size, |ms|), after, cwd, repository + [EVIDENCE]).Trusted?
  {
    hide ValidatePreflightRecord, StagedRecord, Staged, WellFormed, Rooted;
    assert q.archivePath != [] by { assert |EXPECTED_ARCHIVE_FILENAME| > 0; }
    ProducerConsumerAgree(q, ms, before, after, size, cwd, repository);
  }

  lemma ShippedRoot(q: Request, repository: Path)
    requires ShippedRequest(q, repository)
    ensures GoodName(q.sourceRoot) && repository + [EVIDENCE] in q.protectedRoots
  {
    ExpectedRootIsAName();
  }

  /** `preflight` */
  method Preflight(disk: Disk, q: Request, w: World, suffix: Str) returns (record: Record, ghost cleaned: bool)
    requires WellFormed(disk.nodes) && ValidRequest(q) && NoSlash(suffix) && NUL !in suffix
    requires TemporaryDir(q.stageDir, suffix) !in disk.nodes
    modifies disk`nodes, disk`clock, disk`created
    ensures record.status == SourceStaged ==> Admissible(q, old(disk.nodes), w, suffix)
    ensures record.status == SourceStaged ==>
      var bytes := old(disk.nodes)[q.archivePath].content; var ms := Accepted(w.readZip(bytes).entries);
      record == StagedRecord(q, |bytes|, |ms|) && Staged(old(disk.nodes), disk.nodes, q.stageDir, ms)
    ensures record.status == SourceStaged ==>
      HoldsArchive(disk.nodes, q.stageDir, w.readZip(old(disk.nodes)[q.archivePath].content).entries)
    ensures record.status != SourceStaged ==> (q.stageDir in disk.nodes <==> q.stageDir in old(disk.nodes))
    ensures record.status != SourceStaged && cleaned ==> NotStaged(old(disk.nodes), disk.nodes, q.stageDir)
    ensures record.status == SourceRequired <==> RequestReason(q, old(disk.nodes)) == Some(ArchiveMissing)
    ensures RequestReason(q, old(disk.nodes)).Some? ==>
      Some(record.reason) == RequestReason(q, old(disk.nodes)) && disk.nodes == old(disk.nodes)
    ensures disk.Faultless() ==>
      cleaned && (record.status == SourceStaged <==> Admissible(q, old(disk.nodes), w, suffix))
    ensures record.status != SourceStaged ==> ClaimsNothing(record, q, old(disk.nodes), w)
    ensures disk.Faultless() && record.status != SourceStaged ==> FirstReason(q, old(disk.nodes), w, record.reason)
    ensures forall cwd, repository :: ShippedRequest(q, repository) ==>
      (record.status == SourceStaged <==>
        ValidatePreflightRecord(record, disk.nodes, cwd, repository + [EVIDENCE]).Trusted?)
  {
    hide WellFormed, TemporaryDir, CanMake, PartlyMade, Acceptable, Accepted, GoodPath, Staged, UnderAny, BaseName;
    hide PathText, ShippedRequest, ValidatePreflightRecord, HoldsArchive;
    hide FirstDamage, Discoverable;
    forall r, t, cwd, evidence { RefusedUnlessStaged(r, t, cwd, evidence); }
    ghost var before := disk.nodes;
    NothingMade(before, Parent(q.stageDir));
    UnderAnyMeaning(q.archivePath, q.protectedRoots);
    UnderAnyMeaning(q.stageDir, q.protectedRoots);
    RequestReasons(q, before);
    cleaned := true;
    record := InitialRecord(q);
    var wrong := RequestFault(q, disk.nodes);
    if wrong.Some? {
      var status := if wrong.value == ArchiveMissing then SourceRequired else SourceRejected;
      record := record.(status := status, reason := wrong.value);
      return;
    }
    var content := disk.nodes[q.archivePath].content;
    var read := disk.Attempt();
    if read != Fine {
      record := record.(reason := FaultReason(read));
      return;
    }
    var digest := w.hash(content);
    record := record.(source :=
      record.source.(archivePresent := true, archiveBytes := Some(|content|), archiveSha256 := Some(digest)));
    if digest != q.sha256 {
      record := record.(reason := SourceHashMismatch);
      return;
    }
    if q.stageDir in disk.nodes {
      record := record.(reason := StageAlreadyExists);
      return;
    }
    var fault, ms, tidy := StageArchive(disk, q, w, suffix, content);
    cleaned := tidy;
    if fault.Some? {
      record := record.(reason := fault.value);
      return;
    }
    StageHoldsArchive(before, disk.nodes, q.stageDir, w.readZip(content).entries, q.sourceRoot, w.fold);
    StagedIsMade(before, disk.nodes, q.stageDir, ms);
    var root := PathText(q.stageDir + [q.sourceRoot]);
    record := record.(
      status := SourceStaged, reason := VerifiedAndStaged, source := record.source.(verified := true),
      staging := record.staging.(staged := true, sourceRoot := Some(root), memberCount := Some(|ms|)),
      baseline := Discovered(root));
    forall cwd, repository | ShippedRequest(q, repository)
      ensures ValidatePreflightRecord(record, disk.nodes, cwd, repository + [EVIDENCE]).Trusted?
    {
      ShippedRoot(q, repository);
      AcceptedIsRooted(w.readZip(content).entries, q.sourceRoot, w.fold);
      ShippedRunTrusted(q, ms, before, disk.nodes, |content|, cwd, repository);
    }
  }

  lemma StagedIsMade(before: Tree, after: Tree, stageDir: Path, ms: seq<Member>)
    requires stageDir != [] && Staged(before, after, stageDir, ms)
    ensures CanMake(before, Parent(stageDir))
  {
  }
}
