/** The two walks that list the files of the package. */
module Inventory {
  import opened Ordering
  import opened Text
  import opened FileTree

  predicate IgnoredDir(n: Str) {
    n in {U(".git"), U(".venv"), U("__pycache__"), U(".pytest_cache"), U("artifacts")}
  }

  const DS_STORE: Str := U(".DS_Store")
  const DESIGN_PACK: Str := U("EPHI_1.0_Design_Pack.zip")

  predicate EnvName(n: Str) {
    n == U(".env") || (IsPrefix(U(".env."), n) && n != U(".env.example"))
  }

  /** `path.suffix`: from the last dot, when it is neither first nor last. */
  function Suffix(n: Str): Str {
    var i := LastDot(n, |n|);
    if 0 < i < |n| - 1 then n[i..] else []
  }

  /** The last dot among the first `k` code points, or -1. */
  function LastDot(n: Str, k: nat): (i: int)
    requires k <= |n|
    ensures -1 <= i < k
  {
    if k == 0 then -1 else if n[k - 1] == DOT then k - 1 else LastDot(n, k - 1)
  }

  predicate Compiled(n: Str) {
    Suffix(n) in {U(".pyc"), U(".pyo")}
  }

  /** A directory entry the recursive walk does not look at. */
  predicate Skipped(n: Str) {
    IgnoredDir(n) || n == DS_STORE || n == DESIGN_PACK || EnvName(n) || Compiled(n)
  }

  lemma {:induction false} LastDotIs(n: Str, k: nat, i: nat)
    requires i < k <= |n| && n[i] == DOT && forall j :: i < j < k ==> n[j] != DOT
    ensures LastDot(n, k) == i
  {
    if k > i + 1 { LastDotIs(n, k - 1, i); }
  }

  /** A suffix without a dot in it is the suffix of exactly the longer names that end in it. */
  lemma SuffixMeaning(n: Str, s: Str)
    requires |s| > 1 && s[0] == DOT && forall j :: 0 < j < |s| ==> s[j] != DOT
    ensures Suffix(n) == s <==> |n| > |s| && n[|n| - |s|..] == s
  {
    if |n| > |s| && n[|n| - |s|..] == s {
      var i := |n| - |s|;
      forall j | i <= j < |n| ensures n[j] == s[j - i] { assert n[j] == n[i..][j - i]; }
      LastDotIs(n, |n|, i);
    }
  }

  /** The names the recursive walk leaves out. */
  lemma SkippedSpelled(n: Str)
    ensures Skipped(n) <==>
      || n in {U(".git"), U(".venv"), U("__pycache__"), U(".pytest_cache"), U("artifacts"), U(".DS_Store"),
               U("EPHI_1.0_Design_Pack.zip"), U(".env")}
      || (IsPrefix(U(".env."), n) && n != U(".env.example"))
      || (|n| > 4 && n[|n| - 4..] in {U(".pyc"), U(".pyo")})
  {
    CompiledSpelled(n);
    hide U, Compiled;
  }

  lemma CompiledSpelled(n: Str)
    ensures Compiled(n) <==> |n| > 4 && n[|n| - 4..] in {U(".pyc"), U(".pyo")}
  {
    SuffixMeaning(n, U(".pyc"));
    SuffixMeaning(n, U(".pyo"));
    hide U;
  }

  /** The paths the flat walk keeps. */
  lemma KeptSpelled(p: Path)
    ensures Kept(p) <==>
      && p != []
      && (forall i :: 0 <= i < |p| ==>
            p[i] !in {U(".git"), U(".venv"), U("__pycache__"), U(".pytest_cache"), U("artifacts")})
      && var last := p[|p| - 1];
        last != U(".DS_Store") && !(|last| > 4 && last[|last| - 4..] in {U(".pyc"), U(".pyo")})
  {
    if p != [] { CompiledSpelled(p[|p| - 1]); }
    hide U, Compiled;
  }

  ghost predicate NoneSkipped(p: Path, k: nat) {
    forall i :: k <= i < |p| ==> !Skipped(p[i])
  }

  /** A path the flat walk keeps. */
  predicate Kept(p: Path) {
    p != [] && (forall i :: 0 <= i < |p| ==> !IgnoredDir(p[i])) && p[|p| - 1] != DS_STORE && !Compiled(p[|p| - 1])
  }

  // ---- the recursive, pruning walk -------------------------------------------------------------

  function Below(t: Tree, dir: Path): set<Path> {
    set p | p in t && IsPrefix(dir, p)
  }

  /** `listing(dir)` is what the file system lists in `dir`, in any order. */
  ghost predicate Lists(t: Tree, listing: Path -> seq<Path>) {
    forall dir :: dir in t && t[dir].Dir? ==>
      NoRepeats(listing(dir)) && forall p :: p in listing(dir) <==> IsChild(t, dir, p)
  }

  ghost predicate IsChild(t: Tree, dir: Path, p: Path) {
    p in t && p != [] && Parent(p) == dir
  }

  /** `p` is met by the walk below `dir`. */
  ghost predicate Reached(t: Tree, dir: Path, p: Path) {
    p in t && ProperPrefix(dir, p) && NoneSkipped(p, |dir|)
  }

  ghost predicate LinkReached(t: Tree, dir: Path) {
    exists p :: Reached(t, dir, p) && t[p].Link?
  }

  /** The walk below `dir`, restricted to what lies at or below its child `c`. */
  lemma ReachedThroughChild(t: Tree, dir: Path, c: Path, p: Path)
    requires IsChild(t, dir, c) && IsPrefix(c, p)
    ensures Reached(t, dir, p) <==> p in t && !Skipped(c[|c| - 1]) && (p == c || Reached(t, c, p))
  {
  }

  lemma NothingBelowLeaf(t: Tree, c: Path, p: Path)
    requires WellFormed(t) && c in t && !t[c].Dir?
    ensures !Reached(t, c, p)
  {
    if p in t && ProperPrefix(c, p) { AncestorIsDir(t, p, |c|); }
  }

  /** Everything reached below `dir` lies at or below exactly one child. */
  lemma ChildOf(t: Tree, dir: Path, p: Path) returns (c: Path)
    requires WellFormed(t) && p in t && ProperPrefix(dir, p)
    ensures IsChild(t, dir, c) && IsPrefix(c, p)
    ensures forall d :: IsChild(t, dir, d) && IsPrefix(d, p) ==> d == c
  {
    c := p[..|dir| + 1];
    assert Parent(c) == dir;
    if |c| < |p| { AncestorIsDir(t, p, |c|); } else { assert c == p; }
    assert forall d :: IsChild(t, dir, d) ==> |d| == |dir| + 1;
  }

  /** What the walk yields below `dir`: the reached files, each once; nothing if a symbolic link is reached. */
  ghost predicate WalkResult(t: Tree, dir: Path, r: Option<seq<Path>>) {
    match r
    case None => LinkReached(t, dir)
    case Some(files) => Yields(t, dir, dir, files)
  }

  /**
   * `files` are the files the walk from `dir` reaches strictly below `dir` and at or below `c`, each once, and no link
   * is.
   */
  ghost predicate Yields(t: Tree, dir: Path, c: Path, files: seq<Path>) {
    && NoRepeats(files)
    && (forall p :: p in files <==> Reached(t, dir, p) && IsPrefix(c, p) && t[p].File?)
    && (forall p :: Reached(t, dir, p) && IsPrefix(c, p) ==> !t[p].Link?)
  }

  ghost predicate Visited(children: seq<Path>, k: nat, p: Path)
    requires k <= |children|
  {
    exists i :: 0 <= i < k && IsPrefix(children[i], p)
  }

  /** `files` is the yield of the first `k` children. */
  ghost predicate Partial(t: Tree, dir: Path, children: seq<Path>, k: nat, files: seq<Path>)
    requires k <= |children|
  {
    && NoRepeats(files)
    && (forall p :: p in files <==> Reached(t, dir, p) && Visited(children, k, p) && t[p].File?)
    && (forall p :: Reached(t, dir, p) && Visited(children, k, p) ==> !t[p].Link?)
  }

  lemma PartialStep(t: Tree, dir: Path, children: seq<Path>, k: nat, files: seq<Path>, more: seq<Path>)
    requires WellFormed(t) && k < |children| && NoRepeats(children)
    requires forall c :: c in children ==> IsChild(t, dir, c)
    requires Partial(t, dir, children, k, files) && Yields(t, dir, children[k], more)
    ensures Partial(t, dir, children, k + 1, files + more)
  {
    hide WellFormed;
    forall p ensures Visited(children, k + 1, p) <==> Visited(children, k, p) || IsPrefix(children[k], p) {}
    forall p | p in files ensures p !in more {
      var i :| 0 <= i < k && IsPrefix(children[i], p);
      var c := ChildOf(t, dir, p);
      assert children[i] in children && children[k] in children;
      assert children[i] == c;
    }
    ConcatDistinct(files, more);
    assert forall p :: p in files + more <==> p in files || p in more;
  }

  lemma AllVisited(t: Tree, dir: Path, children: seq<Path>, files: seq<Path>)
    requires WellFormed(t) && (forall c :: IsChild(t, dir, c) ==> c in children)
    requires Partial(t, dir, children, |children|, files)
    ensures WalkResult(t, dir, Some(files))
  {
    hide WellFormed;
    forall p | Reached(t, dir, p) ensures Visited(children, |children|, p) && IsPrefix(dir, p) {
      var c := ChildOf(t, dir, p);
      var i :| 0 <= i < |children| && children[i] == c;
    }
  }

  /** What one child contributes when it is skipped, a leaf, or a directory already walked. */
  lemma ChildYields(t: Tree, dir: Path, c: Path, sub: seq<Path>)
    requires WellFormed(t) && IsChild(t, dir, c)
    ensures Skipped(c[|c| - 1]) ==> Yields(t, dir, c, [])
    ensures !Skipped(c[|c| - 1]) && t[c].File? ==> Yields(t, dir, c, [c])
    ensures !Skipped(c[|c| - 1]) && t[c].Special? ==> Yields(t, dir, c, [])
    ensures !Skipped(c[|c| - 1]) && t[c].Dir? && WalkResult(t, c, Some(sub)) ==> Yields(t, dir, c, sub)
    ensures !Skipped(c[|c| - 1]) && (t[c].Link? || LinkReached(t, c)) ==> LinkReached(t, dir)
  {
    hide WellFormed, Reached, Skipped;
    forall p | IsPrefix(c, p) { ReachedThroughChild(t, dir, c, p); }
    assert IsPrefix(c, c);
    if !t[c].Dir? { forall p { NothingBelowLeaf(t, c, p); } }
    forall p | Reached(t, c, p) ensures IsPrefix(c, p) && p in t { ReachedIsBelow(t, c, p); }
  }

  lemma ReachedIsBelow(t: Tree, c: Path, p: Path)
    requires Reached(t, c, p)
    ensures IsPrefix(c, p) && p in t
  {
  }

  lemma SortedListing(t: Tree, dir: Path, listing: Path -> seq<Path>)
    requires Lists(t, listing) && dir in t && t[dir].Dir?
    ensures NoRepeats(Sort(PathLess, listing(dir)))
    ensures forall c :: c in Sort(PathLess, listing(dir)) <==> IsChild(t, dir, c)
  {
    SortKeepsElements(PathLess, listing(dir));
    SortElements(PathLess, listing(dir));
    PermutationDistinct(listing(dir), Sort(PathLess, listing(dir)));
  }

  lemma StartWalk(t: Tree, dir: Path, children: seq<Path>)
    ensures Partial(t, dir, children, 0, [])
  {
  }

  lemma SmallerBelow(t: Tree, dir: Path, c: Path)
    requires IsChild(t, dir, c) && dir in t
    ensures Below(t, c) < Below(t, dir)
  {
    assert dir == c[..|dir|];
    forall p | p in Below(t, c) ensures p in Below(t, dir) { assert p[..|dir|] == c[..|dir|]; }
    assert IsPrefix(dir, dir) && dir in Below(t, dir) && dir !in Below(t, c);
  }

  lemma LinkChild(t: Tree, dir: Path, c: Path)
    requires WellFormed(t) && IsChild(t, dir, c) && t[c].Link? && !Skipped(c[|c| - 1])
    ensures WalkResult(t, dir, None)
  {
  }

  lemma LinkBelow(t: Tree, dir: Path, c: Path)
    requires WellFormed(t) && IsChild(t, dir, c) && t[c].Dir? && !Skipped(c[|c| - 1]) && WalkResult(t, c, None)
    ensures WalkResult(t, dir, None)
  {
  }

  /** The nested generator `walk`; `None` stands for the ValueError a symbolic link raises. */
  method Walk(t: Tree, dir: Path, listing: Path -> seq<Path>) returns (r: Option<seq<Path>>)
    requires WellFormed(t) && Lists(t, listing) && dir in t && t[dir].Dir?
    ensures WalkResult(t, dir, r)
    decreases Below(t, dir)
  {
    hide WellFormed, WalkResult, Partial, Skipped, LinkReached, Yields;
    var children := Sort(PathLess, listing(dir));
    SortedListing(t, dir, listing);
    var files: seq<Path> := [];
    StartWalk(t, dir, children);
    var k := 0;
    while k < |children|
      invariant 0 <= k <= |children|
      invariant Partial(t, dir, children, k, files)
    {
      var c := children[k];
      assert c in children;
      var more: seq<Path> := [];
      if !Skipped(c[|c| - 1]) {
        if t[c].Link? {
          LinkChild(t, dir, c);
          return None;
        }
        if t[c].Dir? {
          SmallerBelow(t, dir, c);
          var sub := Walk(t, c, listing);
          if sub.None? {
            LinkBelow(t, dir, c);
            return None;
          }
          more := sub.value;
        } else if t[c].File? {
          more := [c];
        }
      }
      ChildYields(t, dir, c, more);
      PartialStep(t, dir, children, k, files, more);
      files := files + more;
      k := k + 1;
    }
    AllVisited(t, dir, children, files);
    r := Some(files);
  }

  // ---- the flat walk ---------------------------------------------------------------------------

  /** `all` is what `root.rglob("*")` yields, in any order. */
  ghost predicate ListsAll(t: Tree, all: seq<Path>) {
    NoRepeats(all) && forall p :: p in all <==> p in t && p != []
  }

  /** The file list either walk must return, or `None` when it meets a symbolic link. */
  ghost predicate IsInventory(t: Tree, met: Path -> bool, r: Option<seq<Path>>) {
    match r
    case None => exists p :: p in t && met(p) && t[p].Link?
    case Some(files) =>
      && (forall p :: p in t && met(p) ==> !t[p].Link?)
      && Increasing(PathLess, files)
      && (forall p :: p in files <==> p in t && met(p) && t[p].File?)
  }

  /** The one list, or refusal, a walk that meets `met` must return. */
  ghost function InventoryOf(t: Tree, met: Path -> bool): (r: Option<seq<Path>>)
    ensures IsInventory(t, met, r)
  {
    if exists p :: p in t && met(p) && t[p].Link? then None
    else
      PathOrder();
      Some(Ascending(PathLess, set p | p in t && met(p) && t[p].File?))
  }

  lemma InventoryUnique(t: Tree, met: Path -> bool, r: Option<seq<Path>>)
    requires IsInventory(t, met, r)
    ensures r == InventoryOf(t, met)
  {
    hide PathLess;
    PathOrder();
    if r.Some? { IncreasingUnique(PathLess, r.value, InventoryOf(t, met).value); }
  }

  predicate NotSkipped(p: Path) {
    p != [] && forall i :: 0 <= i < |p| ==> !Skipped(p[i])
  }

  /** `package_files` of tools/check_package.py */
  method PackageFiles(t: Tree, listing: Path -> seq<Path>) returns (r: Option<seq<Path>>)
    requires WellFormed(t) && Lists(t, listing)
    ensures r == InventoryOf(t, NotSkipped)
  {
    hide WellFormed, Skipped, InventoryOf;
    RootIsDir(t);
    var walked := Walk(t, [], listing);
    forall p ensures Reached(t, [], p) <==> p in t && NotSkipped(p) {}
    if walked.None? {
      InventoryUnique(t, NotSkipped, None);
      return None;
    }
    PathOrder();
    forall a: Path, b: Path ensures a == b || PathLess(a, b) || PathLess(b, a) {}
    SortIncreasing(PathLess, walked.value);
    SortElements(PathLess, walked.value);
    r := Some(Sort(PathLess, walked.value));
    InventoryUnique(t, NotSkipped, r);
  }

  lemma RootIsDir(t: Tree)
    requires WellFormed(t)
    ensures [] in t && t[[]].Dir?
  {
  }

  /** `_package_files` of tools/w0_repo_baseline.py */
  method FlatPackageFiles(t: Tree, all: seq<Path>) returns (r: Option<seq<Path>>)
    requires WellFormed(t) && ListsAll(t, all)
    ensures r == InventoryOf(t, Kept)
  {
    hide WellFormed, Kept, PathLess, InventoryOf;
    var values: seq<Path> := [];
    SortedAll(t, all);
    var paths := Sort(PathLess, all);
    var k := 0;
    while k < |paths|
      invariant 0 <= k <= |paths|
      invariant Increasing(PathLess, values)
      invariant forall p :: p in values <==> p in paths[..k] && Kept(p) && t[p].File?
      invariant forall p :: p in paths[..k] && Kept(p) ==> !t[p].Link?
    {
      var p := paths[k];
      assert paths[..k + 1] == paths[..k] + [p] && p in paths;
      if Kept(p) {
        if t[p].Link? {
          InventoryUnique(t, Kept, None);
          return None;
        }
        if t[p].File? {
          forall q | q in values ensures PathLess(q, p) {
            var i :| 0 <= i < |paths[..k]| && paths[..k][i] == q;
            assert paths[i] == q;
          }
          values := values + [p];
        }
      }
      k := k + 1;
    }
    assert paths[..k] == paths;
    forall p | p in t && Kept(p) ensures p in paths { KeptIsBelowRoot(p); }
    r := Some(values);
    InventoryUnique(t, Kept, r);
  }

  lemma KeptIsBelowRoot(p: Path)
    requires Kept(p)
    ensures p != []
  {
  }

  lemma SortedAll(t: Tree, all: seq<Path>)
    requires ListsAll(t, all)
    ensures Increasing(PathLess, Sort(PathLess, all))
    ensures forall p :: p in Sort(PathLess, all) <==> p in t && p != []
  {
    PathOrder();
    forall a: Path, b: Path ensures a == b || PathLess(a, b) || PathLess(b, a) {}
    SortIncreasing(PathLess, all);
    SortElements(PathLess, all);
  }

  // ---- when the two walks agree ----------------------------------------------------------------

  /**
   * A path only the recursive walk leaves out: an environment file, the design pack, or something in a directory it
   * prunes.
   */
  predicate Exceptional(p: Path) {
    exists i :: 0 <= i < |p| &&
      (EnvName(p[i]) || p[i] == DESIGN_PACK || (i < |p| - 1 && (p[i] == DS_STORE || Compiled(p[i]))))
  }

  lemma NotSkippedMeaning(p: Path)
    ensures NotSkipped(p) <==> Kept(p) && !Exceptional(p)
  {
  }

  /** No kept file is exceptional; or, if a symbolic link is kept, some kept link is not. */
  ghost predicate WalksMatch(t: Tree) {
    if exists p :: p in t && t[p].Link? && Kept(p)
    then exists p :: p in t && t[p].Link? && Kept(p) && !Exceptional(p)
    else forall p :: p in t && t[p].File? && Kept(p) ==> !Exceptional(p)
  }

  /** The two walks return the same result exactly when no exceptional path gets in the way. */
  lemma WalksAgree(t: Tree)
    ensures InventoryOf(t, NotSkipped) == InventoryOf(t, Kept) <==> WalksMatch(t)
  {
    hide Kept, Exceptional, NotSkipped, PathLess, InventoryOf;
    PathOrder();
    forall p { NotSkippedMeaning(p); }
    var r, f := InventoryOf(t, NotSkipped), InventoryOf(t, Kept);
    if r.Some? && f.Some? && WalksMatch(t) {
      IncreasingUnique(PathLess, r.value, f.value);
    }
  }
}
