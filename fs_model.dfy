// An abstract file system: absolute paths mapped to nodes, with the
// semantics of the few java.io / java.nio operations the core calls.

module FsModel {
  import opened Wrappers

  /** An absolute path as its list of names; the root "/" is []. */
  type Path = seq<string>

  /** What the current OS user may do with a node; `others` says whether
      group and other users have any access as well. */
  datatype Perm = Perm(read: bool, write: bool, exec: bool, others: bool)

  /** Node types. Two paths holding the same `Regular` inode are hard links
      of one file. A symbolic link is a leaf: its target is not modelled. */
  datatype Kind = Directory | Regular(inode: nat) | SymbolicLink | OtherKind

  datatype Node = Node(kind: Kind, perm: Perm)

  type Tree = map<Path, Node>

  /** A directory made by createDirectory under umask 022 (rwxr-xr-x). */
  const DefaultDir := Node(Directory, Perm(true, true, true, true))

  /** rwx for the owner and nothing for anyone else (rwx------). */
  const OwnerOnly := Perm(true, true, true, false)

  function Parent(p: Path): Option<Path> {
    if p == [] then None else Some(p[..|p| - 1])
  }

  function Dirname(p: Path): (r: Path)
    requires p != []
    ensures r < p && |r| == |p| - 1
  {
    p[..|p| - 1]
  }

  predicate IsDir(t: Tree, p: Path) {
    p in t && t[p].kind.Directory?
  }

  predicate IsRegular(t: Tree, p: Path) {
    p in t && t[p].kind.Regular?
  }

  predicate IsSymlink(t: Tree, p: Path) {
    p in t && t[p].kind.SymbolicLink?
  }

  /** exists(), canRead(), canWrite() and canExecute() all hold. */
  predicate Accessible(t: Tree, p: Path) {
    p in t && t[p].perm.read && t[p].perm.write && t[p].perm.exec
  }

  /** A directory in which entries can be created and removed. */
  predicate Writable(t: Tree, p: Path) {
    IsDir(t, p) && t[p].perm.write && t[p].perm.exec
  }

  /** Every entry other than the root lies in a directory. (The trigger
      keeps the solver from climbing from a path to all its ancestors.) */
  ghost predicate WellFormed(t: Tree) {
    forall p {:trigger Dirname(p)} :: p in t && p != [] ==> IsDir(t, Dirname(p))
  }

  predicate HasChildren(t: Tree, d: Path) {
    exists q :: q in t && q != [] && Dirname(q) == d
  }

  function Children(t: Tree, d: Path): set<Path> {
    set q | q in t && q != [] && Dirname(q) == d
  }

  /** The entries at or below `d`. */
  function Subtree(t: Tree, d: Path): set<Path> {
    set q | q in t && d <= q
  }

  /** No path of `t` lies at or below `d`. */
  predicate Gone(t: Tree, d: Path) {
    forall q :: q in t ==> !(d <= q)
  }

  /** `t` is `t0` with some entries removed and none changed. */
  ghost predicate OnlyRemoved(t0: Tree, t: Tree) {
    t.Keys <= t0.Keys && forall p :: p in t ==> t[p] == t0[p]
  }

  /** `t` is `t0` with some entries added and none changed or removed. */
  ghost predicate OnlyAdded(t0: Tree, t: Tree) {
    forall p :: p in t0 ==> p in t && t[p] == t0[p]
  }

  /** Two rounds of tracked additions compose into one. */
  lemma TrackedAdded(tr0: set<Path>, tr1: set<Path>, tr2: set<Path>, t0: Tree, t1: Tree, t2: Tree)
    requires OnlyAdded(t0, t1) && OnlyAdded(t1, t2)
    requires tr1 == tr0 + (t1.Keys - t0.Keys) && tr2 == tr1 + (t2.Keys - t1.Keys)
    ensures OnlyAdded(t0, t2)
    ensures tr2 == tr0 + (t2.Keys - t0.Keys)
  {
  }

  // ---------------------------------------------------------------------
  // The operating system's primitives

  /** Files.createDirectory. */
  function MkDir(t: Tree, d: Path): (r: Result<Tree>)
    ensures r.Ok? <==> d !in t && d != [] && Writable(t, Dirname(d))
    ensures r.Ok? ==> r.value == t[d := DefaultDir]
    ensures d in t ==> r == Err(FileAlreadyExists)
  {
    if d in t then Err(FileAlreadyExists)
    else if d == [] then Err(FileSystem)
    else if Dirname(d) !in t then Err(NoSuchFile)
    else if !t[Dirname(d)].kind.Directory? then Err(NotDirectory)
    else if !(t[Dirname(d)].perm.write && t[Dirname(d)].perm.exec) then Err(AccessDenied)
    else Ok(t[d := DefaultDir])
  }

  /** File.delete: the tree without `p`, or None when delete() returns false
      (absent, a non-empty directory, or a parent that forbids it). */
  function Unlink(t: Tree, p: Path): (r: Option<Tree>)
    ensures r.Some? <==> p in t && p != [] && !(t[p].kind.Directory? && HasChildren(t, p))
                         && Writable(t, Dirname(p))
    ensures r.Some? ==> r.value == t - {p}
  {
    if p !in t || p == [] then None
    else if t[p].kind.Directory? && HasChildren(t, p) then None
    else if !Writable(t, Dirname(p)) then None
    else Some(t - {p})
  }

  /** Files.createLink(link, existing): a new directory entry for the same
      node. `supported` is false on a file system without hard links. */
  function Link(t: Tree, link: Path, existing: Path, supported: bool): (r: Result<Tree>)
    ensures r.Ok? <==> supported && link !in t && existing in t && !t[existing].kind.Directory?
                       && link != [] && Writable(t, Dirname(link))
    ensures r.Ok? ==> r.value == t[link := t[existing]]
  {
    if !supported then Err(UnsupportedOperation)
    else if link in t then Err(FileAlreadyExists)
    else if existing !in t then Err(NoSuchFile)
    else if t[existing].kind.Directory? then Err(Io)
    else if link == [] then Err(FileSystem)
    else if Dirname(link) !in t then Err(NoSuchFile)
    else if !t[Dirname(link)].kind.Directory? then Err(NotDirectory)
    else if !(t[Dirname(link)].perm.write && t[Dirname(link)].perm.exec) then Err(AccessDenied)
    else Ok(t[link := t[existing]])
  }

  // ---------------------------------------------------------------------
  // Lemmas

  lemma MkDirWellFormed(t: Tree, d: Path)
    requires WellFormed(t) && MkDir(t, d).Ok?
    ensures WellFormed(MkDir(t, d).value)
  {
  }

  lemma UnlinkWellFormed(t: Tree, p: Path)
    requires WellFormed(t) && Unlink(t, p).Some?
    ensures WellFormed(Unlink(t, p).value)
  {
    var t' := t - {p};
    forall q | q in t' && q != []
      ensures IsDir(t', Dirname(q))
    {
      assert IsDir(t, Dirname(q));
    }
  }

  lemma LinkWellFormed(t: Tree, link: Path, existing: Path, supported: bool)
    requires WellFormed(t) && Link(t, link, existing, supported).Ok?
    ensures WellFormed(Link(t, link, existing, supported).value)
  {
  }

  /** In a well-formed tree every proper prefix of an entry is a directory. */
  lemma {:induction false} AncestorsAreDirs(t: Tree, p: Path, k: nat)
    requires WellFormed(t) && p in t && k < |p|
    ensures IsDir(t, p[..k])
    decreases |p|
  {
    assert IsDir(t, Dirname(p));
    if k < |p| - 1 {
      AncestorsAreDirs(t, Dirname(p), k);
      assert Dirname(p)[..k] == p[..k];
    }
  }

  /** A well-formed tree has nothing below a path it does not contain. */
  lemma AbsentHasNoSubtree(t: Tree, d: Path)
    requires WellFormed(t) && d !in t
    ensures Gone(t, d)
  {
    forall q | q in t
      ensures !(d <= q)
    {
      if d <= q {
        assert d != q && q[..|d|] == d;
        AncestorsAreDirs(t, q, |d|);
        assert false;
      }
    }
  }

  /** Below a directory, every entry lies under one of its children. */
  lemma UnderSomeChild(t: Tree, d: Path, q: Path)
    requires WellFormed(t) && q in t && d < q
    ensures q[..|d| + 1] in Children(t, d) && q[..|d| + 1] <= q
  {
    var c := q[..|d| + 1];
    if |c| < |q| {
      AncestorsAreDirs(t, q, |d| + 1);
    } else {
      assert c == q;
    }
    assert c != [] && Dirname(c) == d;
  }

  lemma {:induction false} SubsetCard<T>(a: set<T>, b: set<T>)
    requires a <= b
    ensures |a| <= |b|
    decreases |b|
  {
    if a != {} {
      var x :| x in a;
      SubsetCard(a - {x}, b - {x});
    }
  }

  /** After entries have been removed, the subtree of a child is smaller
      than the subtree of its parent was. */
  lemma ChildSubtreeSmaller(t0: Tree, t: Tree, d: Path, c: Path)
    requires OnlyRemoved(t0, t) && d in t0 && d < c
    ensures |Subtree(t, c)| < |Subtree(t0, d)|
  {
    assert Subtree(t, c) <= Subtree(t0, d) - {d};
    SubsetCard(Subtree(t, c), Subtree(t0, d) - {d});
  }

  /** A non-directory has nothing below it in a well-formed tree. */
  lemma LeafHasNoSubtree(t: Tree, p: Path)
    requires WellFormed(t) && p in t && !t[p].kind.Directory?
    ensures forall q :: q in t ==> !(p < q)
  {
    forall q | q in t && p < q
      ensures false
    {
      UnderSomeChild(t, p, q);
    }
  }

  lemma PermChangeWellFormed(t: Tree, p: Path, perm: Perm)
    requires WellFormed(t) && p in t
    ensures WellFormed(t[p := Node(t[p].kind, perm)])
  {
  }

  // ---------------------------------------------------------------------
  // The file system itself, which the core changes through the primitives

  class FileSystem {
    var nodes: Tree
    /** Whether the file system supports hard links. */
    const hardLinks: bool
    /** Whether the default file system has the "posix" attribute view. */
    const posix: bool

    ghost predicate Valid()
      reads this
    {
      WellFormed(nodes)
    }

    constructor (init: Tree, hardLinks: bool, posix: bool)
      requires WellFormed(init)
      ensures Valid() && nodes == init
      ensures this.hardLinks == hardLinks && this.posix == posix
    {
      nodes := init;
      this.hardLinks := hardLinks;
      this.posix := posix;
    }

    /** Files.createDirectory */
    method CreateDirectory(d: Path) returns (r: Outcome)
      requires Valid()
      modifies this
      ensures Valid()
      ensures MkDir(old(nodes), d).Ok? ==> r == Done && nodes == MkDir(old(nodes), d).value
      ensures MkDir(old(nodes), d).Err? ==> r == Failed(MkDir(old(nodes), d).error) && nodes == old(nodes)
    {
      var m := MkDir(nodes, d);
      if m.Ok? {
        MkDirWellFormed(nodes, d);
        nodes := m.value;
        r := Done;
      } else {
        r := Failed(m.error);
      }
    }

    /** File.delete */
    method Delete(p: Path) returns (ok: bool)
      requires Valid()
      modifies this
      ensures Valid()
      ensures ok == Unlink(old(nodes), p).Some?
      ensures nodes == if ok then old(nodes) - {p} else old(nodes)
    {
      var u := Unlink(nodes, p);
      ok := u.Some?;
      if ok {
        UnlinkWellFormed(nodes, p);
        nodes := u.value;
      }
    }

    /** Files.createLink(link, existing) */
    method CreateLink(link: Path, existing: Path) returns (r: Outcome)
      requires Valid()
      modifies this
      ensures Valid()
      ensures Link(old(nodes), link, existing, hardLinks).Ok? ==>
                r == Done && nodes == old(nodes)[link := old(nodes)[existing]]
      ensures Link(old(nodes), link, existing, hardLinks).Err? ==>
                r == Failed(Link(old(nodes), link, existing, hardLinks).error) && nodes == old(nodes)
    {
      var l := Link(nodes, link, existing, hardLinks);
      if l.Ok? {
        LinkWellFormed(nodes, link, existing, hardLinks);
        nodes := l.value;
        r := Done;
      } else {
        r := Failed(l.error);
      }
    }

    /** Files.setPosixFilePermissions, or File.setReadable/Writable/Executable */
    method SetPermissions(p: Path, perm: Perm) returns (r: Outcome)
      requires Valid()
      modifies this
      ensures Valid()
      ensures p in old(nodes) ==> r == Done && nodes == old(nodes)[p := Node(old(nodes)[p].kind, perm)]
      ensures p !in old(nodes) ==> r == Failed(NoSuchFile) && nodes == old(nodes)
    {
      if p in nodes {
        PermChangeWellFormed(nodes, p, perm);
        nodes := nodes[p := Node(nodes[p].kind, perm)];
        r := Done;
      } else {
        r := Failed(NoSuchFile);
      }
    }
  }
}
