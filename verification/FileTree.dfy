/** A file system without symbolic-link resolution: a finite map from component sequences to nodes. */
module FileTree {
  import opened Ordering
  import opened Text

  type Path = seq<Str>

  type Bytes = seq<int>

  datatype Node = File(content: Bytes, mode: nat) | Dir | Link | Special

  type Tree = map<Path, Node>

  /** A name a directory entry can have. */
  predicate GoodName(n: Str) {
    n != [] && NoSlash(n) && NUL !in n && n != [DOT] && n != [DOT, DOT]
  }

  predicate GoodPath(p: Path) {
    forall n :: n in p ==> GoodName(n)
  }

  /** The parts a path keeps of what stands between its slashes. */
  function DropEmpty(parts: seq<Str>): Path {
    if parts == [] then []
    else (if parts[0] == [] || parts[0] == [DOT] then [] else [parts[0]]) + DropEmpty(parts[1..])
  }

  lemma {:induction false} DropEmptyGood(parts: seq<Str>)
    requires GoodPath(parts)
    ensures DropEmpty(parts) == parts
  {
    if parts != [] {
      assert parts[0] in parts;
      DropEmptyGood(parts[1..]);
    }
  }

  function Parent(p: Path): Path
    requires p != []
  {
    p[..|p| - 1]
  }

  /** The root is a directory and everything else lies in one. */
  ghost predicate WellFormed(t: Tree) {
    && [] in t && t[[]].Dir?
    && (forall p {:trigger Parent(p)} :: p in t && p != [] ==> Parent(p) in t && t[Parent(p)].Dir?)
  }

  lemma {:induction false} AncestorIsDir(t: Tree, p: Path, i: nat)
    requires WellFormed(t) && p in t && i < |p|
    ensures p[..i] in t && t[p[..i]].Dir?
  {
    if i < |p| - 1 {
      AncestorIsDir(t, Parent(p), i);
      assert Parent(p)[..i] == p[..i];
    } else {
      assert p[..i] == Parent(p);
    }
  }

  function Prefixes(p: Path): (r: set<Path>)
    ensures forall q :: q in r <==> IsPrefix(q, p)
  {
    var r := set i | 0 <= i <= |p| :: p[..i];
    assert forall q :: IsPrefix(q, p) ==> q == p[..|q|];
    r
  }

  /** No prefix of `p` is taken by something that is not a directory. */
  ghost predicate CanMake(t: Tree, p: Path) {
    forall q :: IsPrefix(q, p) && q in t ==> t[q].Dir?
  }

  /** `t` with `p` and all its ancestors as directories. */
  function WithDirs(t: Tree, p: Path): Tree {
    t + map q | q in Prefixes(p) :: Dir
  }

  /** `u` is `t` with some of the directories leading to `p` added. */
  ghost predicate PartlyMade(t: Tree, u: Tree, p: Path) {
    exists q :: IsPrefix(q, p) && CanMake(t, q) && u == WithDirs(t, q)
  }

  /** `t` and `u` agree away from `root`. */
  ghost predicate SameOutside(t: Tree, u: Tree, root: Path) {
    forall p :: !IsPrefix(root, p) ==> (p in t <==> p in u) && (p in t ==> t[p] == u[p])
  }

  lemma WithDirsWellFormed(t: Tree, p: Path)
    requires WellFormed(t) && CanMake(t, p)
    ensures WellFormed(WithDirs(t, p))
    ensures forall q :: q in t ==> WithDirs(t, p)[q] == t[q]
  {
  }

  lemma WithDirsStep(t: Tree, p: Path)
    requires WellFormed(t) && p != []
    ensures CanMake(t, p) <==> CanMake(t, Parent(p)) && (p in t ==> t[p].Dir?)
    ensures CanMake(t, p) ==> WithDirs(t, p) == WithDirs(t, Parent(p))[p := Dir]
  {
    forall q ensures IsPrefix(q, p) <==> IsPrefix(q, Parent(p)) || q == p {
      assert |q| < |p| ==> Parent(p)[..|q|] == p[..|q|];
    }
  }

  lemma AlreadyMade(t: Tree, p: Path)
    requires WellFormed(t) && p in t && t[p].Dir?
    ensures CanMake(t, p) && WithDirs(t, p) == t
  {
    forall q | IsPrefix(q, p) ensures q in t && t[q].Dir? {
      assert q == p[..|q|] && p == p[..|p|];
      if |q| < |p| { AncestorIsDir(t, p, |q|); }
    }
  }

  lemma NothingMade(t: Tree, p: Path)
    requires WellFormed(t)
    ensures CanMake(t, []) && WithDirs(t, []) == t
    ensures PartlyMade(t, t, p)
  {
  }

  lemma PartlyMadeParent(t: Tree, u: Tree, p: Path)
    requires p != []
    ensures PartlyMade(t, u, Parent(p)) ==> PartlyMade(t, u, p)
    ensures CanMake(t, Parent(p)) && u == WithDirs(t, Parent(p)) ==> PartlyMade(t, u, p)
  {
  }

  /** Making the parent first does not change what making `p` does. */
  lemma MakeThroughParent(t: Tree, p: Path)
    requires WellFormed(t) && p != [] && CanMake(t, Parent(p))
    ensures var u := WithDirs(t, Parent(p));
      && PartlyMade(t, u, p) && Parent(p) in u
      && (CanMake(u, p) <==> CanMake(t, p))
      && (CanMake(t, p) ==> WithDirs(u, p) == WithDirs(t, p))
  {
    var u := WithDirs(t, Parent(p));
    WithDirsStep(t, p);
    WithDirsWellFormed(t, Parent(p));
    WithDirsStep(u, p);
    assert IsPrefix(Parent(p), Parent(p));
    AlreadyMade(u, Parent(p));
    PartlyMadeParent(t, u, p);
    assert p in t <==> p in u by { assert !IsPrefix(p, Parent(p)); }
  }

  const OWNER_ONLY: nat := 0x180

  ghost predicate CanCreate(t: Tree, p: Path)
    requires p != []
  {
    p !in t && Parent(p) in t && t[Parent(p)].Dir?
  }

  lemma FreshLeaf(t: Tree, p: Path, node: Node)
    requires WellFormed(t) && p != [] && CanCreate(t, p)
    ensures WellFormed(t[p := node])
  {
  }

  lemma ReplacedFile(t: Tree, p: Path, node: Node)
    requires WellFormed(t) && p in t && t[p].File?
    ensures WellFormed(t[p := node])
  {
  }

  /** `t` without `p` and everything below it. */
  function Removed(t: Tree, p: Path): Tree {
    map q | q in t && !IsPrefix(p, q) :: t[q]
  }

  /** `t` with the subtree at `from` standing at `to` instead. */
  function Moved(t: Tree, from: Path, to: Path): Tree {
    Removed(t, from) + Grafted(t, from, to)
  }

  function Grafted(t: Tree, from: Path, to: Path): Tree {
    var below := set q | q in t && IsPrefix(from, q) :: q[|from|..];
    map q | q in (set r | r in below :: to + r) :: if from + q[|to|..] in t then t[from + q[|to|..]] else Dir
  }

  /** Where everything is after a move onto a free name. */
  lemma MovedLookup(t: Tree, from: Path, to: Path, q: Path)
    requires forall p :: p in t ==> !IsPrefix(to, p)
    ensures IsPrefix(to, q) ==>
      (q in Moved(t, from, to) <==> from + q[|to|..] in t) &&
      (q in Moved(t, from, to) ==> Moved(t, from, to)[q] == t[from + q[|to|..]])
    ensures !IsPrefix(to, q) ==>
      (q in Moved(t, from, to) <==> q in t && !IsPrefix(from, q)) &&
      (q in Moved(t, from, to) ==> Moved(t, from, to)[q] == t[q])
  {
    var below := set p | p in t && IsPrefix(from, p) :: p[|from|..];
    if IsPrefix(to, q) {
      var r := q[|to|..];
      assert q == to + r;
      assert from + r in t ==> IsPrefix(from, from + r) && (from + r)[|from|..] == r;
      assert r in below <==> from + r in t by {
        if r in below {
          var p :| p in t && IsPrefix(from, p) && r == p[|from|..];
          assert p == from + r;
        }
      }
      assert q in Grafted(t, from, to) <==> r in below by {
        if q in Grafted(t, from, to) {
          var s :| s in below && q == to + s;
          assert s == (to + s)[|to|..];
        }
      }
    } else {
      forall s | s in below ensures q != to + s {
        assert IsPrefix(to, to + s);
      }
    }
  }

  lemma {:induction false} FreeBelow(t: Tree, p: Path, q: Path)
    requires WellFormed(t) && p !in t && IsPrefix(p, q)
    ensures q !in t
  {
    if q in t {
      assert q[..|q|] == q;
      if |p| < |q| { AncestorIsDir(t, q, |p|); }
    }
  }

  datatype Fault = Fine | IoError | BadZip

  datatype WriteResult = Written | NotCreated | Broken(fault: Fault)

  /** The disk the tools write to; `faults(n)` says how the n-th operation on it goes wrong. */
  class Disk {
    var nodes: Tree
    var clock: nat
    const faults: nat -> Fault
    /** The paths created exclusively, in order. */
    ghost var created: seq<Path>

    constructor (nodes: Tree, faults: nat -> Fault)
      ensures this.nodes == nodes && this.faults == faults && clock == 0 && created == []
    {
      this.nodes := nodes;
      this.clock := 0;
      this.faults := faults;
      this.created := [];
    }

    ghost predicate Faultless() {
      forall n :: faults(n) == Fine
    }

    method Attempt() returns (fault: Fault)
      modifies this`clock
      ensures fault == faults(old(clock))
    {
      fault := faults(clock);
      clock := clock + 1;
    }

    /** One `os.mkdir`, with an existing directory accepted. */
    method MakeDir(p: Path) returns (fault: Fault)
      requires WellFormed(nodes)
      modifies this`nodes, this`clock
      ensures fault == Fine ==> CanMake(old(nodes), p) && nodes == WithDirs(old(nodes), p)
      ensures fault != Fine ==> nodes == old(nodes)
      ensures Faultless() && (p == [] || Parent(p) in nodes) ==> (fault == Fine <==> CanMake(old(nodes), p))
      ensures Faultless() ==> fault != BadZip
      ensures WellFormed(nodes)
    {
      fault := Attempt();
      NothingMade(nodes, p);
      if p != [] { WithDirsStep(nodes, p); }
      if p in nodes && nodes[p].Dir? {
        // whatever `os.mkdir` reports about an existing directory is ignored
        AlreadyMade(nodes, p);
        fault := Fine;
      } else if fault == Fine {
        if p in nodes {
          fault := IoError;
        } else if Parent(p) in nodes && nodes[Parent(p)].Dir? {
          AlreadyMade(nodes, Parent(p));
          nodes := nodes[p := Dir];
        } else {
          fault := IoError;
        }
      }
    }

    /** `path.mkdir(parents=True, exist_ok=True)` */
    method MakeDirs(p: Path) returns (fault: Fault)
      requires WellFormed(nodes)
      modifies this`nodes, this`clock
      ensures fault == Fine ==> CanMake(old(nodes), p) && nodes == WithDirs(old(nodes), p)
      ensures fault != Fine ==> PartlyMade(old(nodes), nodes, p)
      ensures Faultless() ==> (fault == Fine <==> CanMake(old(nodes), p)) && fault != BadZip
      ensures WellFormed(nodes)
      decreases |p|
    {
      NothingMade(nodes, p);
      if p !in nodes && Parent(p) !in nodes {
        // `os.mkdir` reports the missing parent
        fault := Attempt();
        if fault != Fine {
          return;
        }
        WithDirsStep(nodes, p);
        fault := MakeDirs(Parent(p));
        PartlyMadeParent(old(nodes), nodes, p);
        if fault != Fine {
          return;
        }
        MakeThroughParent(old(nodes), p);
      }
      fault := MakeDir(p);
    }

    /** `os.open(path, O_WRONLY | O_CREAT | O_EXCL, 0o600)` */
    method OpenExclusive(p: Path) returns (fault: Fault)
      requires WellFormed(nodes) && p != []
      modifies this`nodes, this`clock, this`created
      ensures fault == Fine ==>
        CanCreate(old(nodes), p) && nodes == old(nodes)[p := File([], OWNER_ONLY)] && created == old(created) + [p]
      ensures fault != Fine ==> nodes == old(nodes) && created == old(created)
      ensures Faultless() ==> (fault == Fine <==> CanCreate(old(nodes), p))
      ensures WellFormed(nodes)
    {
      fault := Attempt();
      if fault == Fine {
        if p !in nodes && Parent(p) in nodes && nodes[Parent(p)].Dir? {
          FreshLeaf(nodes, p, File([], OWNER_ONLY));
          nodes := nodes[p := File([], OWNER_ONLY)];
          created := created + [p];
        } else {
          fault := IoError;
        }
      }
    }

    /** Copies the bytes into an open file; a fault of the disk or of their source may leave any part of them there. */
    method WriteAll(p: Path, content: Bytes, damage: Fault) returns (fault: Fault)
      requires WellFormed(nodes) && p in nodes && nodes[p].File?
      modifies this`nodes, this`clock
      ensures exists written :: nodes == old(nodes)[p := old(nodes)[p].(content := written)]
      ensures fault == Fine ==> damage == Fine && nodes == old(nodes)[p := old(nodes)[p].(content := content)]
      ensures Faultless() ==> fault == damage
      ensures WellFormed(nodes)
    {
      fault := Attempt();
      if fault == Fine {
        fault := damage;
      }
      var written := if fault == Fine then content else content[..|content| / 2];
      ReplacedFile(nodes, p, nodes[p].(content := written));
      nodes := nodes[p := nodes[p].(content := written)];
    }

    method ChangeMode(p: Path, mode: nat) returns (fault: Fault)
      requires WellFormed(nodes) && p in nodes && nodes[p].File?
      modifies this`nodes, this`clock
      ensures fault == Fine ==> nodes == old(nodes)[p := old(nodes)[p].(mode := mode)]
      ensures fault != Fine ==> nodes == old(nodes)
      ensures Faultless() ==> fault == Fine
      ensures WellFormed(nodes)
    {
      fault := Attempt();
      if fault == Fine {
        ReplacedFile(nodes, p, nodes[p].(mode := mode));
        nodes := nodes[p := nodes[p].(mode := mode)];
      }
    }

    /** The exclusive create, copy and chmod that write one new file from a source that may be damaged. */
    method WriteNewFile(p: Path, content: Bytes, mode: nat, damage: Fault) returns (r: WriteResult)
      requires WellFormed(nodes) && p != []
      modifies this`nodes, this`clock, this`created
      ensures WellFormed(nodes)
      ensures r == Written ==> damage == Fine && CanCreate(old(nodes), p) && created == old(created) + [p]
      ensures r == Written ==> nodes == old(nodes)[p := File(content, if mode == 0 then OWNER_ONLY else mode)]
      ensures r == NotCreated ==> nodes == old(nodes) && created == old(created)
      ensures r.Broken? ==> p in nodes && nodes == old(nodes)[p := nodes[p]]
      ensures Faultless() ==> (r == NotCreated <==> !CanCreate(old(nodes), p))
      ensures Faultless() && r != NotCreated ==> r == if damage == Fine then Written else Broken(damage)
    {
      var fault := OpenExclusive(p);
      if fault != Fine {
        return NotCreated;
      }
      fault := WriteAll(p, content, damage);
      if fault == Fine && mode != 0 {
        fault := ChangeMode(p, mode);
      }
      assert nodes == old(nodes)[p := nodes[p]];
      r := if fault == Fine then Written else Broken(fault);
    }

    /** `tempfile.mkdtemp` settling on the free name `p`. */
    method MakeTempDir(p: Path) returns (fault: Fault)
      requires WellFormed(nodes) && p != [] && CanCreate(nodes, p)
      modifies this`nodes, this`clock
      ensures fault == Fine ==> nodes == old(nodes)[p := Dir]
      ensures fault != Fine ==> nodes == old(nodes)
      ensures Faultless() ==> fault == Fine
      ensures WellFormed(nodes)
    {
      fault := Attempt();
      if fault == Fine {
        FreshLeaf(nodes, p, Dir);
        nodes := nodes[p := Dir];
      }
    }

    /** `os.replace` of a directory onto a free name. */
    method Rename(from: Path, to: Path) returns (fault: Fault)
      modifies this`nodes, this`clock
      ensures fault == Fine ==> nodes == Moved(old(nodes), from, to)
      ensures fault != Fine ==> nodes == old(nodes)
      ensures Faultless() ==> fault == Fine
    {
      fault := Attempt();
      if fault == Fine {
        nodes := Moved(nodes, from, to);
      }
    }

    /** `shutil.rmtree`; a fault may leave part of the tree behind. */
    method RemoveTree(p: Path) returns (fault: Fault)
      modifies this`nodes, this`clock
      ensures SameOutside(old(nodes), nodes, p)
      ensures fault == Fine ==> nodes == Removed(old(nodes), p)
      ensures Faultless() ==> fault == Fine
    {
      fault := Attempt();
      if fault == Fine {
        nodes := Removed(nodes, p);
      }
    }
  }
}
