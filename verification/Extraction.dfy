/** Unpacking an accepted member list into a fresh directory. */
module Extraction {
  import opened Ordering
  import opened Text
  import opened FileTree
  import opened Archive

  /** `path.resolve(strict=False)` of an absolute path in a tree without symbolic links. */
  function Resolve(p: Path): Path {
    if p == [] then []
    else
      var init, last := Resolve(p[..|p| - 1]), p[|p| - 1];
      if last == [DOT] then init
      else if last == [DOT, DOT] then (if init == [] then [] else init[..|init| - 1])
      else init + [last]
  }

  lemma {:induction false} ResolveGood(p: Path)
    requires GoodPath(p)
    ensures Resolve(p) == p
  {
    if p != [] {
      assert p[|p| - 1] in p;
      ResolveGood(p[..|p| - 1]);
    }
  }

  /** The destination of a member, unless it escapes `root`. */
  function SafeDestination(root: Path, relative: Path): Option<Path> {
    if IsPrefix(Resolve(root), Resolve(root + relative)) then Some(root + relative) else None
  }

  /** No canonical relative path can escape. */
  lemma DestinationIsSafe(root: Path, relative: Path)
    requires GoodPath(root) && GoodPath(relative)
    ensures SafeDestination(root, relative) == Some(root + relative)
  {
    ResolveGood(root);
    ResolveGood(root + relative);
  }

  /** The permission bits of the member, or the ones it was created with. */
  function FileMode(m: Member): nat {
    var bits := MemberMode(m.info) % 0x200;
    if bits == 0 then OWNER_ONLY else bits
  }

  function NodeOf(m: Member): Node {
    if m.isDirectory then Dir else File(m.info.content, FileMode(m))
  }

  /** What the gate guarantees of its output: real, distinct paths, and no file above another member. */
  ghost predicate Separable(ms: seq<Member>) {
    && (forall k :: 0 <= k < |ms| ==> ms[k].relative != [] && GoodPath(ms[k].relative))
    && (forall j, k :: 0 <= j < k < |ms| ==> ms[j].relative != ms[k].relative)
    && (forall j, k :: 0 <= j < |ms| && 0 <= k < |ms| && !ms[j].isDirectory ==>
      !ProperPrefix(ms[j].relative, ms[k].relative))
  }

  /** `p` is `target`, one of the first `n` members, or a directory on the way to one. */
  ghost predicate Spanned(p: Path, target: Path, ms: seq<Member>, n: nat)
    requires n <= |ms|
  {
    exists k :: 0 <= k < n && IsPrefix(target, p) && IsPrefix(p, target + ms[k].relative)
  }

  ghost predicate IsFileMember(p: Path, target: Path, ms: seq<Member>, n: nat)
    requires n <= |ms|
  {
    exists k :: 0 <= k < n && !ms[k].isDirectory && p == target + ms[k].relative
  }

  /** `t` is `base` with exactly the first `n` members, and the directories above them, unpacked under `target`. */
  ghost predicate Unpacked(t: Tree, base: Tree, target: Path, ms: seq<Member>, n: nat)
    requires n <= |ms|
  {
    && (forall p :: p in t <==> p in base || Spanned(p, target, ms, n))
    && (forall p :: p in base ==> p in t && t[p] == base[p])
    && (forall k {:trigger NodeOf(ms[k])} :: 0 <= k < n ==>
      target + ms[k].relative in t && t[target + ms[k].relative] == NodeOf(ms[k]))
    && (forall p :: p in t && p !in base ==> t[p].Dir? || IsFileMember(p, target, ms, n))
  }

  /** `target` is an empty directory. */
  ghost predicate EmptyDir(t: Tree, target: Path) {
    target in t && t[target].Dir? && forall p :: p in t && IsPrefix(target, p) ==> p == target
  }

  /** The place of the member is free: nothing on the way is a file, and a file member does not exist yet. */
  ghost predicate Free(t: Tree, target: Path, m: Member) {
    var destination := target + m.relative;
    if m.isDirectory then CanMake(t, destination)
    else
      destination != [] && CanMake(t, Parent(destination)) && CanCreate(WithDirs(t, Parent(destination)), destination)
  }

  /** The member is never opened, or reads without a fault. */
  predicate Intact(m: Member) {
    m.isDirectory || m.info.damage == Fine
  }

  /** `t` with the member in its place. */
  ghost function Placed(t: Tree, target: Path, m: Member): Tree
    requires Free(t, target, m)
  {
    var destination := target + m.relative;
    if m.isDirectory then WithDirs(t, destination) else WithDirs(t, Parent(destination))[destination := NodeOf(m)]
  }

  /** One member of `_extract`, when nothing on the disk goes wrong. */
  ghost function Unpack(t: Tree, target: Path, m: Member): Option<Tree> {
    if Free(t, target, m) && Intact(m) then Some(Placed(t, target, m)) else None
  }

  lemma PrefixBelow(target: Path, a: Path, b: Path)
    ensures IsPrefix(target + a, target + b) <==> IsPrefix(a, b)
    ensures ProperPrefix(target + a, target + b) <==> ProperPrefix(a, b)
    ensures target + a == target + b <==> a == b
  {
    assert (target + a)[|target|..] == a && (target + b)[|target|..] == b;
    if |a| <= |b| {
      assert (target + b)[..|target + a|] == target + b[..|a|];
    }
  }

  lemma PrefixesOfOne(a: Path, b: Path, c: Path)
    requires IsPrefix(a, c) && IsPrefix(b, c) && |a| <= |b|
    ensures IsPrefix(a, b)
  {
  }

  ghost predicate Unpacking(t: Tree, base: Tree, target: Path, ms: seq<Member>, n: nat)
    requires n < |ms|
  {
    WellFormed(base) && EmptyDir(base, target) && Separable(ms) && Unpacked(t, base, target, ms, n)
  }

  /** Nothing on the way to the next member is a file. */
  lemma WayIsFree(t: Tree, base: Tree, target: Path, ms: seq<Member>, n: nat, q: Path)
    requires n < |ms| && Unpacking(t, base, target, ms, n)
    requires q in t && IsPrefix(q, target + ms[n].relative)
    ensures t[q].Dir?
  {
    var destination := target + ms[n].relative;
    assert IsPrefix(target, destination);
    if q in base {
      if |q| < |target| {
        PrefixesOfOne(q, target, destination);
        AncestorIsDir(base, target, |q|);
      } else {
        PrefixesOfOne(target, q, destination);
      }
    } else if IsFileMember(q, target, ms, n) {
      var k :| 0 <= k < n && !ms[k].isDirectory && q == target + ms[k].relative;
      PrefixBelow(target, ms[k].relative, ms[n].relative);
    }
  }

  /** The next file member does not exist yet. */
  lemma FileIsFresh(t: Tree, base: Tree, target: Path, ms: seq<Member>, n: nat)
    requires n < |ms| && Unpacking(t, base, target, ms, n)
    requires !ms[n].isDirectory
    ensures target + ms[n].relative !in t
  {
  }

  lemma SpannedStep(p: Path, target: Path, ms: seq<Member>, n: nat)
    requires n < |ms|
    ensures Spanned(p, target, ms, n + 1) <==>
            Spanned(p, target, ms, n) || (IsPrefix(target, p) && IsPrefix(p, target + ms[n].relative))
    ensures IsFileMember(p, target, ms, n + 1) <==>
            IsFileMember(p, target, ms, n) || (!ms[n].isDirectory && p == target + ms[n].relative)
  {
  }

  /** The place of every member of a separable list is free when its turn comes. */
  lemma PlaceIsFree(t: Tree, base: Tree, target: Path, ms: seq<Member>, n: nat)
    requires n < |ms| && Unpacking(t, base, target, ms, n)
    ensures Free(t, target, ms[n])
  {
    var destination := target + ms[n].relative;
    forall q | q in t && IsPrefix(q, destination) ensures t[q].Dir? { WayIsFree(t, base, target, ms, n, q); }
    if !ms[n].isDirectory {
      FileIsFresh(t, base, target, ms, n);
      var parent := Parent(destination);
      forall q | IsPrefix(q, parent) ensures IsPrefix(q, destination) { assert parent[..|q|] == destination[..|q|]; }
      assert IsPrefix(parent, parent) && !IsPrefix(destination, parent);
    }
  }

  lemma UnpackSucceeds(t: Tree, base: Tree, target: Path, ms: seq<Member>, n: nat)
    requires n < |ms| && Unpacking(t, base, target, ms, n) && Intact(ms[n])
    ensures Unpack(t, target, ms[n]).Some?
  {
    PlaceIsFree(t, base, target, ms, n);
  }

  lemma UnpackDomain(t: Tree, base: Tree, target: Path, m: Member)
    requires m.relative != [] && Unpack(t, target, m).Some?
    ensures forall p :: p in Unpack(t, target, m).value <==> p in t || IsPrefix(p, target + m.relative)
  {
    var destination := target + m.relative;
    forall p ensures IsPrefix(p, destination) <==> IsPrefix(p, Parent(destination)) || p == destination {
      if |p| < |destination| { assert Parent(destination)[..|p|] == destination[..|p|]; }
      assert destination[..|destination|] == destination;
    }
  }

  lemma UnpackKeeps(t: Tree, base: Tree, target: Path, ms: seq<Member>, n: nat)
    requires n < |ms| && Unpacking(t, base, target, ms, n) && Intact(ms[n])
    ensures Unpack(t, target, ms[n]).Some?
    ensures forall p :: p in t ==> p in Unpack(t, target, ms[n]).value && Unpack(t, target, ms[n]).value[p] == t[p]
    ensures forall p :: p in Unpack(t, target, ms[n]).value && p !in t && p != target + ms[n].relative
                        ==> Unpack(t, target, ms[n]).value[p].Dir?
    ensures target + ms[n].relative in Unpack(t, target, ms[n]).value
    ensures Unpack(t, target, ms[n]).value[target + ms[n].relative] == NodeOf(ms[n])
  {
    UnpackSucceeds(t, base, target, ms, n);
    var destination := target + ms[n].relative;
    assert IsPrefix(destination, destination);
    if !ms[n].isDirectory { FileIsFresh(t, base, target, ms, n); }
  }

  lemma UnpackedDomainStep(t: Tree, base: Tree, target: Path, ms: seq<Member>, n: nat)
    requires n < |ms| && Unpacking(t, base, target, ms, n) && Intact(ms[n])
    ensures Unpack(t, target, ms[n]).Some?
    ensures forall p :: p in Unpack(t, target, ms[n]).value <==> p in base || Spanned(p, target, ms, n + 1)
  {
    hide Unpack, Free, Intact;
    UnpackSucceeds(t, base, target, ms, n);
    var destination := target + ms[n].relative;
    UnpackDomain(t, base, target, ms[n]);
    forall p ensures p in Unpack(t, target, ms[n]).value <==> p in base || Spanned(p, target, ms, n + 1) {
      SpannedStep(p, target, ms, n);
      if IsPrefix(p, destination) && !IsPrefix(target, p) {
        assert IsPrefix(target, destination);
        PrefixesOfOne(p, target, destination);
        AncestorIsDir(base, target, |p|);
      }
    }
  }

  /** Unpacking the next member is one more member unpacked. */
  lemma UnpackStep(t: Tree, base: Tree, target: Path, ms: seq<Member>, n: nat)
    requires n < |ms| && Unpacking(t, base, target, ms, n) && Intact(ms[n])
    ensures Unpack(t, target, ms[n]).Some?
    ensures Unpacked(Unpack(t, target, ms[n]).value, base, target, ms, n + 1)
  {
    hide Unpack, Separable, WellFormed, Spanned, IsFileMember;
    UnpackSucceeds(t, base, target, ms, n);
    UnpackedDomainStep(t, base, target, ms, n);
    UnpackKeeps(t, base, target, ms, n);
    forall p { SpannedStep(p, target, ms, n); }
    forall k | 0 <= k < n
      ensures target + ms[k].relative in t && t[target + ms[k].relative] == NodeOf(ms[k])
    {
      var node := NodeOf(ms[k]);
      assert target + ms[k].relative in t && t[target + ms[k].relative] == node;
    }
  }

  /** The first `n` members unpacked one after the other. */
  ghost function UnpackAll(t: Tree, target: Path, ms: seq<Member>, n: nat): Option<Tree>
    requires n <= |ms|
  {
    if n == 0 then Some(t)
    else
      match UnpackAll(t, target, ms, n - 1)
      case None => None
      case Some(u) => Unpack(u, target, ms[n - 1])
  }

  lemma NothingUnpacked(base: Tree, target: Path, ms: seq<Member>)
    ensures Unpacked(base, base, target, ms, 0)
  {
  }

  /**
   * Into an empty directory, a separable list of readable members unpacks to exactly its members and the directories
   * above them.
   */
  lemma {:induction false} SeparableUnpacks(base: Tree, target: Path, ms: seq<Member>, n: nat)
    requires WellFormed(base) && EmptyDir(base, target) && Separable(ms) && n <= |ms|
    ensures UnpackAll(base, target, ms, n).Some? <==> forall k :: 0 <= k < n ==> Intact(ms[k])
    ensures UnpackAll(base, target, ms, n).Some? ==> Unpacked(UnpackAll(base, target, ms, n).value, base, target, ms, n)
  {
    hide Separable, Unpacked, Unpack, WellFormed, EmptyDir, Intact;
    if n == 0 {
      NothingUnpacked(base, target, ms);
    } else {
      SeparableUnpacks(base, target, ms, n - 1);
      if UnpackAll(base, target, ms, n - 1).Some? {
        var t := UnpackAll(base, target, ms, n - 1).value;
        if Intact(ms[n - 1]) {
          UnpackStep(t, base, target, ms, n - 1);
        } else {
          DamagedStops(t, target, ms[n - 1]);
        }
      }
    }
  }

  lemma DamagedStops(t: Tree, target: Path, m: Member)
    requires !Intact(m)
    ensures Unpack(t, target, m).None?
  {
  }

  /** How the first member that cannot be read fails. */
  function FirstDamage(ms: seq<Member>): Option<Fault> {
    if ms == [] then None else if Intact(ms[0]) then FirstDamage(ms[1..]) else Some(ms[0].info.damage)
  }

  lemma {:induction false} FirstDamageAt(ms: seq<Member>, k: nat)
    requires k <= |ms| && forall i :: 0 <= i < k ==> Intact(ms[i])
    ensures k == |ms| ==> FirstDamage(ms).None?
    ensures k < |ms| && !Intact(ms[k]) ==> FirstDamage(ms) == Some(ms[k].info.damage)
  {
    if k > 0 {
      assert Intact(ms[0]);
      FirstDamageAt(ms[1..], k - 1);
    }
  }

  lemma {:induction false} NoDamage(ms: seq<Member>)
    ensures FirstDamage(ms).None? <==> forall k :: 0 <= k < |ms| ==> Intact(ms[k])
  {
    if ms != [] {
      NoDamage(ms[1..]);
      assert forall k :: 0 < k < |ms| ==> ms[k] == ms[1..][k - 1];
    }
  }

  lemma AcceptedPathsGood(entries: seq<Entry>, root: Str, fold: Str -> Str)
    requires Acceptable(entries, root, fold)
    ensures forall m :: m in Accepted(entries) ==> m.relative != [] && GoodPath(m.relative)
  {
    hide Accepted, MemberOf;
    AcceptedElements(entries);
    forall m | m in Accepted(entries) ensures m.relative != [] && GoodPath(m.relative) {
      var e :| e in entries && MemberOf(e) == m;
      MemberPathGood(e, root);
    }
  }

  lemma MemberPathGood(e: Entry, root: Str)
    requires Lawful(e, root)
    ensures MemberOf(e).relative != [] && GoodPath(MemberOf(e).relative)
  {
    LawfulParts(e, root);
  }

  lemma AcceptedNoConflict(entries: seq<Entry>, a: Member, b: Member)
    requires NoConflict(entries) && a in Accepted(entries) && b in Accepted(entries) && !a.isDirectory
    ensures !ProperPrefix(a.relative, b.relative)
  {
    hide Accepted, Parts, IsDirectory;
    AcceptedElements(entries);
    var x :| x in entries && MemberOf(x) == a;
    var y :| y in entries && MemberOf(y) == b;
  }

  /** What the gate accepts can be unpacked without a collision. */
  lemma AcceptedIsSeparable(entries: seq<Entry>, root: Str, fold: Str -> Str)
    requires Acceptable(entries, root, fold)
    ensures Separable(Accepted(entries))
    ensures forall m :: m in Accepted(entries) ==> m.relative != [] && GoodPath(m.relative)
  {
    hide Acceptable, MemberLess, MemberOf, Accepted, GoodPath, ProperPrefix, NoConflict;
    var ms := Accepted(entries);
    AcceptedPathsGood(entries, root, fold);
    AcceptedElements(entries);
    AcceptedPathsDistinct(entries, root, fold);
    AcceptedIncreasing(entries, root, fold);
    MemberOrder();
    IncreasingNoRepeats(MemberLess, ms);
    forall j, k | 0 <= j < k < |ms| ensures ms[j].relative != ms[k].relative {
      assert ms[j] in ms && ms[k] in ms && ms[j] != ms[k];
    }
    assert NoConflict(entries) by { AcceptedHasNoConflict(entries, root, fold); }
    forall j, k | 0 <= j < |ms| && 0 <= k < |ms| && !ms[j].isDirectory
      ensures !ProperPrefix(ms[j].relative, ms[k].relative)
    {
      AcceptedNoConflict(entries, ms[j], ms[k]);
    }
  }

  lemma AcceptedHasNoConflict(entries: seq<Entry>, root: Str, fold: Str -> Str)
    requires Acceptable(entries, root, fold)
    ensures NoConflict(entries)
  {
  }

  lemma AcceptedPathsDistinct(entries: seq<Entry>, root: Str, fold: Str -> Str)
    requires Acceptable(entries, root, fold)
    ensures forall e, f :: e in entries && f in entries && MemberOf(e) != MemberOf(f) ==>
      MemberOf(e).relative != MemberOf(f).relative
  {
    hide Parts, Lawful, IsDirectory;
    AcceptedNamesDistinct(entries, root, fold);
    forall e, f | e in entries && f in entries && MemberOf(e) != MemberOf(f)
      ensures MemberOf(e).relative != MemberOf(f).relative
    {
      var i :| 0 <= i < |entries| && entries[i] == e;
      var j :| 0 <= j < |entries| && entries[j] == f;
      assert Name(entries[i]) != Name(entries[j]);
    }
  }

  /** Accepted archives extract exactly if their members can be read, and then to the tree the member list describes. */
  lemma AcceptedArchivesExtract(entries: seq<Entry>, root: Str, fold: Str -> Str, base: Tree, target: Path)
    requires Acceptable(entries, root, fold) && WellFormed(base) && EmptyDir(base, target)
    ensures var ms := Accepted(entries);
      && (UnpackAll(base, target, ms, |ms|).Some? <==> FirstDamage(ms).None?)
      && (FirstDamage(ms).None? ==> Unpacked(UnpackAll(base, target, ms, |ms|).value, base, target, ms, |ms|))
  {
    hide Accepted, Acceptable, Intact;
    AcceptedIsSeparable(entries, root, fold);
    NoDamage(Accepted(entries));
    SeparableUnpacks(base, target, Accepted(entries), |Accepted(entries)|);
  }

  /** The member list determines the unpacked tree. */
  lemma UnpackedUnique(t: Tree, u: Tree, base: Tree, target: Path, ms: seq<Member>)
    requires Unpacked(t, base, target, ms, |ms|) && Unpacked(u, base, target, ms, |ms|)
    ensures t == u
  {
    forall p ensures p in t <==> p in u {}
    forall p | p in t ensures t[p] == u[p] {
      if p !in base && IsFileMember(p, target, ms, |ms|) {
        var k :| 0 <= k < |ms| && !ms[k].isDirectory && p == target + ms[k].relative;
        assert t[target + ms[k].relative] == NodeOf(ms[k]) == u[target + ms[k].relative];
      }
    }
  }

  // ---- the loop over the disk ------------------------------------------------------------------

  function FaultReason(fault: Fault): Reason {
    if fault == BadZip then InvalidZip else PreflightIoError
  }

  lemma MadeBelow(t: Tree, u: Tree, target: Path, p: Path)
    requires WellFormed(t) && target in t && t[target].Dir? && IsPrefix(target, p) && PartlyMade(t, u, p)
    ensures SameOutside(t, u, target)
    ensures target in u && u[target].Dir?
  {
    hide WellFormed;
    var q :| IsPrefix(q, p) && CanMake(t, q) && u == WithDirs(t, q);
    forall r | !IsPrefix(target, r) && IsPrefix(r, q) ensures r in t {
      assert r == p[..|r|];
      if |target| <= |r| {
        PrefixesOfOne(target, r, p);
      } else {
        PrefixesOfOne(r, target, p);
        AncestorIsDir(t, target, |r|);
      }
    }
  }

  lemma MadeAll(t: Tree, p: Path)
    requires CanMake(t, p)
    ensures PartlyMade(t, WithDirs(t, p), p)
  {
  }

  lemma SameOutsideTrans(t: Tree, u: Tree, v: Tree, root: Path)
    requires SameOutside(t, u, root) && SameOutside(u, v, root)
    ensures SameOutside(t, v, root)
  {
  }

  lemma WrittenBelow(t: Tree, u: Tree, target: Path, relative: Path)
    requires relative != [] && target in t && t[target].Dir?
    requires u == t || (target + relative in u && u == t[target + relative := u[target + relative]])
    ensures SameOutside(t, u, target)
    ensures target in u && u[target].Dir?
  {
  }

  /** The loop body of `_extract`. */
  method ExtractMember(disk: Disk, target: Path, m: Member) returns (fault: Option<Reason>)
    requires WellFormed(disk.nodes) && target in disk.nodes && disk.nodes[target].Dir? && GoodPath(target)
    requires m.relative != [] && GoodPath(m.relative)
    modifies disk`nodes, disk`clock, disk`created
    ensures WellFormed(disk.nodes) && target in disk.nodes && disk.nodes[target].Dir?
    ensures SameOutside(old(disk.nodes), disk.nodes, target)
    ensures fault.None? ==> Unpack(old(disk.nodes), target, m) == Some(disk.nodes)
    ensures fault.None? ==> disk.created == old(disk.created) + (if m.isDirectory then [] else [target + m.relative])
    ensures disk.Faultless() ==> (fault.None? <==> Unpack(old(disk.nodes), target, m).Some?)
    ensures disk.Faultless() && Free(old(disk.nodes), target, m) && fault.Some? ==>
      !Intact(m) && fault.value == FaultReason(m.info.damage)
  {
    hide WellFormed, CanMake, PartlyMade, WithDirs, CanCreate, GoodPath, SameOutside, FaultReason;
    DestinationIsSafe(target, m.relative);
    var destination := SafeDestination(target, m.relative).value;
    ghost var before := disk.nodes;
    var directory := if m.isDirectory then destination else Parent(destination);
    assert IsPrefix(target, directory);
    var made := disk.MakeDirs(directory);
    if made == Fine { MadeAll(before, directory); }
    MadeBelow(before, disk.nodes, target, directory);
    if made != Fine {
      return Some(FaultReason(made));
    }
    if m.isDirectory {
      return None;
    }
    ghost var parented := disk.nodes;
    var written := disk.WriteNewFile(destination, m.info.content, MemberMode(m.info) % 0x200, m.info.damage);
    WrittenBelow(parented, disk.nodes, target, m.relative);
    SameOutsideTrans(before, parented, disk.nodes, target);
    match written
    case Written => fault := None;
    case NotCreated => fault := Some(UnsafeExtractionPath);
    case Broken(broken) => fault := Some(FaultReason(broken));
  }

  /** The destinations of the first `n` members that are files, in order. */
  function FilePaths(target: Path, ms: seq<Member>, n: nat): (r: seq<Path>)
    requires n <= |ms|
  {
    if n == 0 then []
    else FilePaths(target, ms, n - 1) + (if ms[n - 1].isDirectory then [] else [target + ms[n - 1].relative])
  }

  lemma {:induction false} UnpackAllStops(t: Tree, target: Path, ms: seq<Member>, n: nat, end: nat)
    requires n <= end <= |ms| && UnpackAll(t, target, ms, n).None?
    ensures UnpackAll(t, target, ms, end).None?
  {
    hide Unpack;
    if n < end { UnpackAllStops(t, target, ms, n, end - 1); }
  }

  /** Where the extraction of `ms` into `t` stops on a sound disk, and why if it is not for a collision. */
  ghost predicate StopsAt(t: Tree, target: Path, ms: seq<Member>, k: nat, reason: Reason)
    requires k < |ms|
  {
    && UnpackAll(t, target, ms, k).Some?
    && (Free(UnpackAll(t, target, ms, k).value, target, ms[k]) ==>
          !Intact(ms[k]) && reason == FaultReason(ms[k].info.damage))
  }

  /** `_extract`: unpacks every member, stops at the first fault, and never writes outside `target`. */
  method Extract(disk: Disk, ms: seq<Member>, target: Path) returns (fault: Option<Reason>)
    requires WellFormed(disk.nodes) && target in disk.nodes && disk.nodes[target].Dir? && GoodPath(target)
    requires forall m :: m in ms ==> m.relative != [] && GoodPath(m.relative)
    modifies disk`nodes, disk`clock, disk`created
    ensures WellFormed(disk.nodes) && target in disk.nodes && disk.nodes[target].Dir?
    ensures SameOutside(old(disk.nodes), disk.nodes, target)
    ensures fault.None? ==> UnpackAll(old(disk.nodes), target, ms, |ms|) == Some(disk.nodes)
    ensures fault.None? ==> disk.created == old(disk.created) + FilePaths(target, ms, |ms|)
    ensures disk.Faultless() ==> (fault.None? <==> UnpackAll(old(disk.nodes), target, ms, |ms|).Some?)
    ensures disk.Faultless() && fault.Some? ==>
      exists k :: 0 <= k < |ms| && StopsAt(old(disk.nodes), target, ms, k, fault.value)
  {
    hide WellFormed, Unpack, GoodPath, SameOutside, Free, Intact;
    ghost var before := disk.nodes;
    assert SameOutside(before, before, target) by { SameOutsideRefl(before, target); }
    var k := 0;
    while k < |ms|
      invariant 0 <= k <= |ms|
      invariant WellFormed(disk.nodes) && target in disk.nodes && disk.nodes[target].Dir?
      invariant SameOutside(before, disk.nodes, target)
      invariant UnpackAll(before, target, ms, k) == Some(disk.nodes)
      invariant disk.created == old(disk.created) + FilePaths(target, ms, k)
    {
      ghost var current := disk.nodes;
      fault := ExtractMember(disk, target, ms[k]);
      SameOutsideTrans(before, current, disk.nodes, target);
      if fault.Some? {
        if disk.Faultless() {
          UnpackAllStops(before, target, ms, k + 1, |ms|);
          assert StopsAt(before, target, ms, k, fault.value);
        }
        return;
      }
      k := k + 1;
    }
    fault := None;
  }

  lemma SameOutsideRefl(t: Tree, root: Path)
    ensures SameOutside(t, t, root)
  {
  }

  /** The files of a separable list are created at different places, each once. */
  lemma {:induction false} FilesCreatedOnce(target: Path, ms: seq<Member>, n: nat)
    requires Separable(ms) && n <= |ms|
    ensures NoRepeats(FilePaths(target, ms, n))
    ensures forall p :: p in FilePaths(target, ms, n) <==> IsFileMember(p, target, ms, n)
  {
    if n > 0 {
      FilesCreatedOnce(target, ms, n - 1);
      forall k | 0 <= k < n - 1 { PrefixBelow(target, ms[k].relative, ms[n - 1].relative); }
      var files, last := FilePaths(target, ms, n - 1), target + ms[n - 1].relative;
      assert last !in files;
      assert NoRepeats(files + [last]);
      assert IsFileMember(last, target, ms, n) || ms[n - 1].isDirectory;
    }
  }
}
