// NotebookRepoObjUtils and its tree visitor WalkTreeAndCreateLinks: private
// directories, hard links, and the replication of a directory tree as a tree
// of new directories holding hard links to the source's regular files.

module RepoObjUtils {
  import opened Wrappers
  import opened FsModel
  import opened Tracking

  datatype FileVisitResult = Continue | Terminate | SkipSubtree | SkipSiblings

  /** srcPath.relativize(q) resolved against destPath: where the walk puts
      the replica of the source entry `q`. */
  function Rebase(src: Path, dest: Path, q: Path): Path {
    if |src| <= |q| then dest + q[|src|..] else dest
  }

  predicate Comparable(a: Path, b: Path) {
    a <= b || b <= a
  }

  /** A new entry `x` of `t` is a replica of the source tree `s0` under
      `dest`: a directory on the way to `dest` or mirroring a source
      directory, or a hard link to the source's regular file. */
  ghost predicate Replica(s0: Tree, src: Path, dest: Path, t: Tree, x: Path)
    requires x in t
  {
    (t[x].kind.Directory? && (x <= dest || (dest <= x && IsDir(s0, src + x[|dest|..]))))
    || (dest <= x && IsRegular(s0, src + x[|dest|..]) && t[x] == s0[src + x[|dest|..]])
  }

  /** Every entry of `t` that is not in `t0` is a replica. */
  ghost predicate OnlyReplicas(s0: Tree, src: Path, dest: Path, t0: Tree, t: Tree) {
    forall x :: x in t && x !in t0 ==> Replica(s0, src, dest, t, x)
  }

  /** What createPrivateDirectory leaves at `m`: a directory the owner may
      read, write and enter, and on a POSIX file system nobody else may. */
  predicate PrivateDir(t: Tree, m: Path, posix: bool) {
    IsDir(t, m) && Accessible(t, m) && (posix ==> t[m].perm == OwnerOnly)
  }

  /** The replica of the source entry `q` is in place: a private directory
      for a directory, the same inode for a regular file, and nothing for a
      symbolic link or another node type. */
  ghost predicate MirroredEntry(s0: Tree, src: Path, dest: Path, posix: bool, t: Tree, q: Path)
    requires q in s0
  {
    var m := Rebase(src, dest, q);
    (s0[q].kind.Directory? ==> PrivateDir(t, m, posix))
    && (s0[q].kind.Regular? ==> m in t && t[m] == s0[q])
    && (s0[q].kind.SymbolicLink? || s0[q].kind.OtherKind? ==> m !in t)
  }

  /** Every source entry at or below `p` is mirrored. */
  ghost predicate Mirrored(s0: Tree, src: Path, dest: Path, posix: bool, t: Tree, p: Path) {
    forall q :: q in s0 && p <= q ==> MirroredEntry(s0, src, dest, posix, t, q)
  }

  /** Every directory of the source tree can be listed. */
  ghost predicate ReadableDirs(s0: Tree, src: Path) {
    forall q :: q in s0 && src <= q && s0[q].kind.Directory? ==> s0[q].perm.read
  }

  /** The case in which replication has nothing in its way: a listable
      source directory, hard links supported, nothing at or below the
      destination, and the destination's nearest existing ancestor a
      directory in which entries can be made. */
  ghost predicate CleanCase(s0: Tree, src: Path, dest: Path, hardLinks: bool) {
    IsDir(s0, src) && ReadableDirs(s0, src) && hardLinks && Gone(s0, dest) && CanCreateDirectories(s0, dest)
  }

  /** What visiting `p` needs in order to mirror everything at or below it. */
  ghost predicate Ready(s0: Tree, src: Path, dest: Path, hardLinks: bool, t: Tree, p: Path) {
    IsDir(s0, src) && ReadableDirs(s0, src) && hardLinks && Gone(t, Rebase(src, dest, p))
    && (p == src ==> CanCreateDirectories(t, dest))
    && (p != src ==> Rebase(src, dest, p) != [] && Writable(t, Dirname(Rebase(src, dest, p))))
  }

  class NotebookRepoObjUtils {
    const tracking: TrackingUtils

    ghost predicate Valid()
      reads tracking, tracking.disk
    {
      tracking.Valid()
    }

    function Nodes(): Tree
      reads tracking.disk
    {
      tracking.disk.nodes
    }

    constructor (tracking: TrackingUtils)
      requires tracking.Valid()
      ensures Valid() && this.tracking == tracking
    {
      this.tracking := tracking;
    }

    /** createPrivateDirectory: the directory and any missing ancestors are
        created; the owner may then read, write and enter it, and on a POSIX
        file system nobody else may. */
    method CreatePrivateDirectory(directory: Path) returns (r: Result<Path>)
      requires Valid()
      modifies tracking, tracking.disk
      ensures Valid()
      ensures r.Ok? <==> CanCreateDirectories(old(Nodes()), directory)
      ensures r.Err? ==> r.error == NotebookIo && Nodes() == old(Nodes()) && tracking.tracked == old(tracking.tracked)
      ensures r.Ok? ==> r.value == directory && Accessible(Nodes(), directory)
                        && Nodes()[directory] == Node(Directory, if tracking.disk.posix then OwnerOnly
                             else Perm(true, true, true, directory !in old(Nodes()) || old(Nodes())[directory].perm.others))
      ensures forall p :: p in old(Nodes()) && p != directory ==> p in Nodes() && Nodes()[p] == old(Nodes())[p]
      ensures old(Nodes()).Keys <= Nodes().Keys
      ensures forall p :: p in Nodes() && p !in old(Nodes()) ==>
                p <= directory && Nodes()[p].kind.Directory? && (p != directory ==> Nodes()[p] == DefaultDir)
      ensures tracking.tracked == old(tracking.tracked) + (Nodes().Keys - old(Nodes()).Keys)
    {
      var created := tracking.CreateDirectories(directory);
      if created.Err? {
        return created;
      }
      var disk := tracking.disk;
      // setReadable, setWritable and setExecutable(true, true): owner bits only
      var _ := disk.SetPermissions(directory, Perm(true, true, true, disk.nodes[directory].perm.others));
      if disk.posix {
        var posixSet := disk.SetPermissions(directory, OwnerOnly);
        if posixSet.Failed? {
          // setPosixFilePermissions on an existing entry does not fail here
          assert false;
          return Err(NotebookIo);
        }
      }
      return Ok(directory);
    }

    /** createLink: delegates to the tracking version, so the link is tracked. */
    method CreateLink(destFsObj: Path, srcFsObj: Path) returns (r: Outcome)
      requires Valid()
      modifies tracking, tracking.disk
      ensures Valid()
      ensures Link(old(Nodes()), destFsObj, srcFsObj, tracking.disk.hardLinks).Ok? ==>
                r == Done && Nodes() == old(Nodes())[destFsObj := old(Nodes())[srcFsObj]]
                && tracking.tracked == old(tracking.tracked) + {destFsObj}
      ensures Link(old(Nodes()), destFsObj, srcFsObj, tracking.disk.hardLinks).Err? ==>
                r == Failed(Link(old(Nodes()), destFsObj, srcFsObj, tracking.disk.hardLinks).error)
                && Nodes() == old(Nodes()) && tracking.tracked == old(tracking.tracked)
    {
      r := tracking.CreateLink(destFsObj, srcFsObj);
    }

    /** ensurePath: an existing path must be a directory the owner may read,
        write and enter, and is then returned as it is; a missing path is
        created as a private directory. */
    method EnsurePath(path: Path) returns (r: Result<Path>)
      requires Valid()
      modifies tracking, tracking.disk
      ensures Valid()
      ensures path in old(Nodes()) ==>
                Nodes() == old(Nodes()) && tracking.tracked == old(tracking.tracked)
                && r == (if IsDir(old(Nodes()), path) && Accessible(old(Nodes()), path) then Ok(path) else Err(Runtime))
      ensures path !in old(Nodes()) ==>
                (r.Ok? <==> CanCreateDirectories(old(Nodes()), path))
                && (r.Ok? ==> r.value == path && IsDir(Nodes(), path) && Accessible(Nodes(), path)
                              && (tracking.disk.posix ==> Nodes()[path].perm == OwnerOnly))
                && (r.Err? ==> r.error == NotebookIo)
                && OnlyAdded(old(Nodes()), Nodes())
                && (forall p :: p in Nodes() && p !in old(Nodes()) ==> p <= path && Nodes()[p].kind.Directory?)
                && tracking.tracked == old(tracking.tracked) + (Nodes().Keys - old(Nodes()).Keys)
    {
      var t := tracking.disk.nodes;
      if path in t {
        if !(t[path].kind.Directory? && t[path].perm.read && t[path].perm.write && t[path].perm.exec) {
          return Err(Runtime);
        }
        return Ok(path);
      }
      r := CreatePrivateDirectory(path);
    }

    /** replicateFileTreeWithHardLinks: walks `source` (the failOnCollisions
        argument is not used) and gives every directory a private replica and
        every regular file a hard link under `destination`. */
    method ReplicateFileTreeWithHardLinks(source: Path, destination: Path, failOnCollisions: bool)
      returns (r: Outcome)
      requires Valid()
      modifies tracking, tracking.disk
      ensures Valid()
      ensures OnlyAdded(old(Nodes()), Nodes())
      ensures tracking.tracked == old(tracking.tracked) + (Nodes().Keys - old(Nodes()).Keys)
      ensures OnlyReplicas(old(Nodes()), source, destination, old(Nodes()), Nodes())
      ensures r.Failed? ==> r.error == NotebookIo
      ensures CleanCase(old(Nodes()), source, destination, tracking.disk.hardLinks) ==>
                r == Done && Mirrored(old(Nodes()), source, destination, tracking.disk.posix, Nodes(), source)
    {
      var visitor := new WalkTreeAndCreateLinks(this, source, destination);
      var snapshot := tracking.disk.nodes;
      r := WalkFileTree(visitor, source, snapshot);
    }

    /** linkOrReplicate: a directory is replicated, a regular file gets one
        hard link (an I/O failure is swallowed), anything else is left. */
    method LinkOrReplicate(source: Path, dest: Path) returns (r: Outcome)
      requires Valid()
      modifies tracking, tracking.disk
      ensures Valid()
      ensures OnlyAdded(old(Nodes()), Nodes())
      ensures tracking.tracked == old(tracking.tracked) + (Nodes().Keys - old(Nodes()).Keys)
      ensures IsDir(old(Nodes()), source) ==>
                OnlyReplicas(old(Nodes()), source, dest, old(Nodes()), Nodes())
                && (r.Failed? ==> r.error == NotebookIo)
                && (CleanCase(old(Nodes()), source, dest, tracking.disk.hardLinks) ==>
                      r == Done && Mirrored(old(Nodes()), source, dest, tracking.disk.posix, Nodes(), source))
      ensures IsRegular(old(Nodes()), source) ==>
                (Link(old(Nodes()), dest, source, tracking.disk.hardLinks).Ok? ==>
                   r == Done && Nodes() == old(Nodes())[dest := old(Nodes())[source]])
                && (Link(old(Nodes()), dest, source, tracking.disk.hardLinks).Err? ==> Nodes() == old(Nodes()))
                && (r == Done <==> tracking.disk.hardLinks)
                && (r.Failed? ==> r.error == UnsupportedOperation)
      ensures !IsDir(old(Nodes()), source) && !IsRegular(old(Nodes()), source) ==>
                r == Done && Nodes() == old(Nodes()) && tracking.tracked == old(tracking.tracked)
    {
      var t := tracking.disk.nodes;
      if source in t && t[source].kind.Directory? {
        r := ReplicateFileTreeWithHardLinks(source, dest, false);
      } else if source in t && t[source].kind.Regular? {
        r := CreateLink(dest, source);
        if r.Failed? && IsIOException(r.error) {
          r := Done;
        }
      } else {
        r := Done;
      }
    }
  }

  /** The visitor replicateFileTreeWithHardLinks hands to the walk. */
  class WalkTreeAndCreateLinks {
    const utils: NotebookRepoObjUtils
    const srcPath: Path
    const destPath: Path
    /** Set by the constructor and never read. */
    const failOnCollisions: bool

    ghost predicate Valid()
      reads utils.tracking, utils.tracking.disk
    {
      utils.Valid()
    }

    function Nodes(): Tree
      reads utils.tracking.disk
    {
      utils.tracking.disk.nodes
    }

    function Tracked(): set<Path>
      reads utils.tracking
    {
      utils.tracking.tracked
    }

    function HardLinks(): bool {
      utils.tracking.disk.hardLinks
    }

    function Posix(): bool {
      utils.tracking.disk.posix
    }

    constructor (utils: NotebookRepoObjUtils, srcPath: Path, destPath: Path)
      ensures this.utils == utils && this.srcPath == srcPath && this.destPath == destPath
      ensures failOnCollisions
    {
      this.utils := utils;
      this.srcPath := srcPath;
      this.destPath := destPath;
      failOnCollisions := true;
    }

    /** preVisitDirectory: the replica of `dir` is created as a private
        directory unless something already exists there. */
    method PreVisitDirectory(dir: Path) returns (r: Result<FileVisitResult>)
      requires Valid()
      modifies utils.tracking, utils.tracking.disk
      ensures Valid()
      ensures Rebase(srcPath, destPath, dir) in old(Nodes()) ==>
                r == Ok(Continue) && Nodes() == old(Nodes()) && Tracked() == old(Tracked())
      ensures r.Ok? ==> r.value == Continue
      ensures r.Err? ==> r.error == NotebookIo && Nodes() == old(Nodes()) && Tracked() == old(Tracked())
      ensures Rebase(srcPath, destPath, dir) !in old(Nodes()) ==>
                (r.Ok? <==> CanCreateDirectories(old(Nodes()), Rebase(srcPath, destPath, dir)))
                && (r.Ok? ==> PrivateDir(Nodes(), Rebase(srcPath, destPath, dir), Posix()))
      ensures OnlyAdded(old(Nodes()), Nodes())
      ensures forall p :: p in Nodes() && p !in old(Nodes()) ==>
                p <= Rebase(srcPath, destPath, dir) && Nodes()[p].kind.Directory?
      ensures Tracked() == old(Tracked()) + (Nodes().Keys - old(Nodes()).Keys)
    {
      var destSubdir := Rebase(srcPath, destPath, dir);
      if destSubdir !in utils.tracking.disk.nodes {
        var created := utils.CreatePrivateDirectory(destSubdir);
        if created.Err? {
          return Err(created.error);
        }
      }
      return Ok(Continue);
    }

    /** visitFile: a regular file gets a hard link at its replica; a failed
        or unsupported link, a symbolic link and any other node type leave
        the tree as it is. */
    method VisitFile(file: Path, attr: Kind) returns (r: FileVisitResult)
      requires Valid()
      modifies utils.tracking, utils.tracking.disk
      ensures Valid()
      ensures r == Continue
      ensures attr.Regular? && Link(old(Nodes()), Rebase(srcPath, destPath, file), file, HardLinks()).Ok? ==>
                Nodes() == old(Nodes())[Rebase(srcPath, destPath, file) := old(Nodes())[file]]
                && Tracked() == old(Tracked()) + {Rebase(srcPath, destPath, file)}
      ensures !(attr.Regular? && Link(old(Nodes()), Rebase(srcPath, destPath, file), file, HardLinks()).Ok?) ==>
                Nodes() == old(Nodes()) && Tracked() == old(Tracked())
    {
      var destFile := Rebase(srcPath, destPath, file);
      if attr.SymbolicLink? {
        // logged and skipped
      } else if attr.Regular? {
        var linked := utils.CreateLink(destFile, file);
        // an IOException or UnsupportedOperationException is logged
      } else {
        // another node type: logged and skipped
      }
      return Continue;
    }

    /** postVisitDirectory: an error while listing is logged. */
    method PostVisitDirectory(dir: Path, exc: Option<Error>) returns (r: FileVisitResult)
      ensures r == Continue
    {
      return Continue;
    }

    /** visitFileFailed: logged. */
    method VisitFileFailed(file: Path, exc: Error) returns (r: FileVisitResult)
      ensures r == Continue
    {
      return Continue;
    }
  }

  /** Files.walkFileTree(source, FOLLOW_LINKS, MAX_VALUE, visitor), as a
      depth-first walk of `snapshot`, the tree as it was when the walk began. */
  method WalkFileTree(v: WalkTreeAndCreateLinks, source: Path, snapshot: Tree) returns (r: Outcome)
    requires v.Valid() && snapshot == v.Nodes() && source == v.srcPath
    modifies v.utils.tracking, v.utils.tracking.disk
    ensures v.Valid()
    ensures OnlyAdded(old(v.Nodes()), v.Nodes())
    ensures v.Tracked() == old(v.Tracked()) + (v.Nodes().Keys - old(v.Nodes()).Keys)
    ensures OnlyReplicas(snapshot, v.srcPath, v.destPath, old(v.Nodes()), v.Nodes())
    ensures r.Failed? ==> r.error == NotebookIo
    ensures CleanCase(snapshot, v.srcPath, v.destPath, v.HardLinks()) ==>
              r == Done && Mirrored(snapshot, v.srcPath, v.destPath, v.Posix(), v.Nodes(), source)
  {
    assert Rebase(v.srcPath, v.destPath, source) == v.destPath;
    r := WalkFrom(v, source, snapshot);
  }

  // ---------------------------------------------------------------------
  // Facts about replica paths

  lemma RebaseChild(src: Path, dest: Path, p: Path, c: Path)
    requires src <= p && c != [] && Dirname(c) == p
    ensures src <= c && c != src && src < c
    ensures Rebase(src, dest, c) != [] && Dirname(Rebase(src, dest, c)) == Rebase(src, dest, p)
  {
    assert c[..|p|] == p;
    assert c[..|src|] == p[..|src|];
    var rc := Rebase(src, dest, c);
    assert rc == dest + c[|src|..];
    assert Dirname(rc) == dest + c[|src|..|c| - 1];
    assert c[|src|..|c| - 1] == p[|src|..];
  }

  lemma RebaseMonotone(src: Path, dest: Path, p: Path, q: Path)
    requires src <= p && p <= q
    ensures Rebase(src, dest, p) <= Rebase(src, dest, q)
  {
    assert q[|src|..][..|p| - |src|] == p[|src|..];
  }

  /** The replicas of two entries of one directory are unrelated by prefix. */
  lemma RebaseSiblings(src: Path, dest: Path, p: Path, c1: Path, c2: Path, x: Path)
    requires src <= p && c1 != [] && Dirname(c1) == p && c2 != [] && Dirname(c2) == p && c1 != c2
    requires Rebase(src, dest, c1) <= x
    ensures !(Rebase(src, dest, c2) <= x)
  {
    RebaseChild(src, dest, p, c1);
    RebaseChild(src, dest, p, c2);
    var r1, r2 := Rebase(src, dest, c1), Rebase(src, dest, c2);
    assert |r1| == |r2|;
    assert r1[|r1| - 1] == c1[|c1| - 1] && r2[|r2| - 1] == c2[|c2| - 1];
    assert c1[|c1| - 1] != c2[|c2| - 1] by {
      assert c1 == p + [c1[|c1| - 1]];
      assert c2 == p + [c2[|c2| - 1]];
    }
    assert r1 == x[..|r1|];
  }

  /** Following a replica path back gives its source entry. */
  lemma RebaseBack(src: Path, dest: Path, f: Path)
    requires src <= f
    ensures dest <= Rebase(src, dest, f)
    ensures src + Rebase(src, dest, f)[|dest|..] == f
  {
    assert Rebase(src, dest, f)[|dest|..] == f[|src|..];
  }

  /** A prefix of the replica of a source directory is on the way to `dest`
      or the replica of one of that directory's ancestors. */
  lemma RebasePrefixDir(s0: Tree, src: Path, dest: Path, p: Path, x: Path)
    requires WellFormed(s0) && IsDir(s0, p) && src <= p && x <= Rebase(src, dest, p)
    ensures x <= dest || (dest <= x && IsDir(s0, src + x[|dest|..]))
  {
    var rp := Rebase(src, dest, p);
    if !(x <= dest) {
      assert |x| > |dest| && dest == rp[..|dest|] && x == rp[..|x|];
      assert dest <= x;
      var k := |src| + |x| - |dest|;
      assert x[|dest|..] == p[|src|..k];
      assert src + x[|dest|..] == p[..k];
      if k < |p| {
        AncestorsAreDirs(s0, p, k);
      } else {
        assert p[..k] == p;
      }
    }
  }

  lemma PrefixPresent(t: Tree, y: Path, x: Path)
    requires WellFormed(t) && y in t && x <= y
    ensures x in t
  {
    if |x| < |y| {
      assert x == y[..|x|];
      AncestorsAreDirs(t, y, |x|);
    } else {
      assert x == y;
    }
  }

  /** A missing path whose parent is a directory one may write in can be created. */
  lemma CreatableUnderParent(t: Tree, d: Path)
    requires d != [] && d !in t && Writable(t, Dirname(d))
    ensures NearestAncestor(t, d) == Some(Dirname(d))
    ensures CanCreateDirectories(t, d)
  {
    assert d[..|d| - 1] == Dirname(d);
  }

  lemma ComparableParent(x: Path, rc: Path, rp: Path)
    requires Comparable(x, rc) && rc != [] && Dirname(rc) == rp
    ensures Comparable(x, rp)
  {
    if x <= rc {
      if |x| <= |rp| {
        assert x == rc[..|x|] && rp == rc[..|rp|];
        assert x == rp[..|x|];
      } else {
        assert x == rc;
      }
    } else {
      assert rp == rc[..|rp|] && rc == x[..|rc|];
      assert rp == x[..|rp|];
    }
  }

  /** Below an existing directory `rp`, everything new that is comparable
      with its entry `rc` lies at or below `rc`. */
  lemma NewBelowChild(tb: Tree, ta: Tree, rp: Path, rc: Path)
    requires WellFormed(tb) && rp in tb && rc != [] && Dirname(rc) == rp
    requires forall x :: x in ta && x !in tb ==> Comparable(x, rc)
    ensures forall x :: x in ta && x !in tb ==> rc <= x
  {
    forall x | x in ta && x !in tb
      ensures rc <= x
    {
      if !(rc <= x) {
        assert x < rc;
        assert x == rc[..|x|] && rp == rc[..|rp|] && |x| <= |rp|;
        assert x <= rp;
        PrefixPresent(tb, rp, x);
      }
    }
  }

  lemma ReplicasCompose(s0: Tree, src: Path, dest: Path, t0: Tree, t1: Tree, t2: Tree)
    requires OnlyReplicas(s0, src, dest, t0, t1) && OnlyReplicas(s0, src, dest, t1, t2)
    requires OnlyAdded(t1, t2)
    ensures OnlyReplicas(s0, src, dest, t0, t2)
  {
    forall x | x in t2 && x !in t0
      ensures Replica(s0, src, dest, t2, x)
    {
      if x in t1 {
        assert Replica(s0, src, dest, t1, x);
        assert t2[x] == t1[x];
      }
    }
  }

  /** Entries added below a sibling's replica leave a mirrored subtree mirrored. */
  lemma MirroredPreserved(s0: Tree, src: Path, dest: Path, posix: bool, tb: Tree, ta: Tree, c: Path)
    requires src <= c && Mirrored(s0, src, dest, posix, tb, c) && OnlyAdded(tb, ta)
    requires forall x :: x in ta && x !in tb ==> !(Rebase(src, dest, c) <= x)
    ensures Mirrored(s0, src, dest, posix, ta, c)
  {
    forall q | q in s0 && c <= q
      ensures MirroredEntry(s0, src, dest, posix, ta, q)
    {
      assert MirroredEntry(s0, src, dest, posix, tb, q);
      RebaseMonotone(src, dest, c, q);
    }
  }

  /** The loop's facts carry over one entry `c` of the directory `p`. */
  lemma AfterChild(s0: Tree, src: Path, dest: Path, posix: bool, p: Path, c: Path, pending: set<Path>,
                   t0: Tree, tb: Tree, ta: Tree, ready: bool)
    requires WellFormed(tb) && src <= p && c in pending && pending <= Children(s0, p)
    requires OnlyAdded(tb, ta)
    requires OnlyReplicas(s0, src, dest, t0, tb) && OnlyReplicas(s0, src, dest, tb, ta)
    requires forall x :: x in tb && x !in t0 ==> Comparable(x, Rebase(src, dest, p))
    requires forall x :: x in ta && x !in tb ==> Comparable(x, Rebase(src, dest, c))
    requires ready ==> PrivateDir(tb, Rebase(src, dest, p), posix)
    requires ready ==> forall c' :: c' in Children(s0, p) && c' !in pending ==> Mirrored(s0, src, dest, posix, tb, c')
    requires ready ==> forall c' :: c' in pending ==> Gone(tb, Rebase(src, dest, c'))
    requires ready ==> Mirrored(s0, src, dest, posix, ta, c)
    ensures OnlyReplicas(s0, src, dest, t0, ta)
    ensures forall x :: x in ta && x !in t0 ==> Comparable(x, Rebase(src, dest, p))
    ensures ready ==> PrivateDir(ta, Rebase(src, dest, p), posix)
    ensures ready ==> forall c' :: c' in Children(s0, p) && c' !in pending - {c} ==> Mirrored(s0, src, dest, posix, ta, c')
    ensures ready ==> forall c' :: c' in pending - {c} ==> Gone(ta, Rebase(src, dest, c'))
  {
    var rp, rc := Rebase(src, dest, p), Rebase(src, dest, c);
    RebaseChild(src, dest, p, c);
    forall x | x in ta && x !in tb
      ensures Comparable(x, rp)
    {
      ComparableParent(x, rc, rp);
    }
    ReplicasCompose(s0, src, dest, t0, tb, ta);
    if ready {
      NewBelowChild(tb, ta, rp, rc);
      forall c2 | c2 in Children(s0, p) && c2 != c
        ensures forall x :: x in ta && x !in tb ==> !(Rebase(src, dest, c2) <= x)
      {
        forall x | x in ta && x !in tb
          ensures !(Rebase(src, dest, c2) <= x)
        {
          RebaseSiblings(src, dest, p, c, c2, x);
        }
      }
      forall c2 | c2 in Children(s0, p) && c2 !in pending
        ensures Mirrored(s0, src, dest, posix, ta, c2)
      {
        RebaseChild(src, dest, p, c2);
        MirroredPreserved(s0, src, dest, posix, tb, ta, c2);
      }
      forall c2 | c2 in pending - {c}
        ensures Gone(ta, Rebase(src, dest, c2))
      {
        forall x | x in ta
          ensures !(Rebase(src, dest, c2) <= x)
        {
          if x !in tb {
            RebaseSiblings(src, dest, p, c, c2, x);
          }
        }
      }
    }
  }

  /** A directory whose replica is in place and whose entries are all
      mirrored is mirrored. */
  lemma MirroredFromChildren(s0: Tree, src: Path, dest: Path, posix: bool, t: Tree, p: Path)
    requires WellFormed(s0) && IsDir(s0, p)
    requires PrivateDir(t, Rebase(src, dest, p), posix)
    requires forall c :: c in Children(s0, p) ==> Mirrored(s0, src, dest, posix, t, c)
    ensures Mirrored(s0, src, dest, posix, t, p)
  {
    forall q | q in s0 && p <= q
      ensures MirroredEntry(s0, src, dest, posix, t, q)
    {
      if q != p {
        UnderSomeChild(s0, p, q);
        assert Mirrored(s0, src, dest, posix, t, q[..|p| + 1]);
      }
    }
  }

  /** Visits the entry `p` of `s0`: a missing entry or a directory that
      cannot be listed is a failed visit, a directory is walked, anything
      else is a file visit. */
  method WalkFrom(v: WalkTreeAndCreateLinks, p: Path, s0: Tree) returns (r: Outcome)
    requires v.Valid() && WellFormed(s0)
    requires v.srcPath <= p && (p != v.srcPath ==> p in s0)
    requires OnlyAdded(s0, v.Nodes())
    modifies v.utils.tracking, v.utils.tracking.disk
    ensures v.Valid()
    ensures OnlyAdded(old(v.Nodes()), v.Nodes())
    ensures v.Tracked() == old(v.Tracked()) + (v.Nodes().Keys - old(v.Nodes()).Keys)
    ensures OnlyReplicas(s0, v.srcPath, v.destPath, old(v.Nodes()), v.Nodes())
    ensures forall x :: x in v.Nodes() && x !in old(v.Nodes()) ==> Comparable(x, Rebase(v.srcPath, v.destPath, p))
    ensures r.Failed? ==> r.error == NotebookIo
    ensures Ready(s0, v.srcPath, v.destPath, v.HardLinks(), old(v.Nodes()), p) ==>
              r == Done && Mirrored(s0, v.srcPath, v.destPath, v.Posix(), v.Nodes(), p)
    decreases |Subtree(s0, p)|, 2
  {
    if p !in s0 {
      var _ := v.VisitFileFailed(p, NoSuchFile);
      return Done;
    }
    var node := s0[p];
    if !node.kind.Directory? {
      ghost var t0 := v.Nodes();
      ghost var ready := Ready(s0, v.srcPath, v.destPath, v.HardLinks(), t0, p);
      var _ := v.VisitFile(p, node.kind);
      RebaseBack(v.srcPath, v.destPath, p);
      if ready {
        var rp := Rebase(v.srcPath, v.destPath, p);
        LeafHasNoSubtree(s0, p);
        assert rp !in t0;
        assert p != v.srcPath;
        if node.kind.Regular? {
          assert Writable(t0, Dirname(rp));
          assert Link(t0, rp, p, v.HardLinks()).Ok?;
        }
        assert MirroredEntry(s0, v.srcPath, v.destPath, v.Posix(), v.Nodes(), p);
        forall q | q in s0 && p <= q
          ensures MirroredEntry(s0, v.srcPath, v.destPath, v.Posix(), v.Nodes(), q)
        {
          assert q == p;
        }
      }
      return Done;
    }
    if !node.perm.read {
      var _ := v.VisitFileFailed(p, AccessDenied);
      return Done;
    }
    r := WalkDirectory(v, p, s0);
  }

  /** preVisitDirectory, each entry of the directory in the order the
      listing gives them, then postVisitDirectory. */
  method WalkDirectory(v: WalkTreeAndCreateLinks, p: Path, s0: Tree) returns (r: Outcome)
    requires v.Valid() && WellFormed(s0)
    requires v.srcPath <= p && IsDir(s0, p) && s0[p].perm.read
    requires OnlyAdded(s0, v.Nodes())
    modifies v.utils.tracking, v.utils.tracking.disk
    ensures v.Valid()
    ensures OnlyAdded(old(v.Nodes()), v.Nodes())
    ensures v.Tracked() == old(v.Tracked()) + (v.Nodes().Keys - old(v.Nodes()).Keys)
    ensures OnlyReplicas(s0, v.srcPath, v.destPath, old(v.Nodes()), v.Nodes())
    ensures forall x :: x in v.Nodes() && x !in old(v.Nodes()) ==> Comparable(x, Rebase(v.srcPath, v.destPath, p))
    ensures r.Failed? ==> r.error == NotebookIo
    ensures Ready(s0, v.srcPath, v.destPath, v.HardLinks(), old(v.Nodes()), p) ==>
              r == Done && Mirrored(s0, v.srcPath, v.destPath, v.Posix(), v.Nodes(), p)
    decreases |Subtree(s0, p)|, 1
  {
    ghost var t0, tr0 := v.Nodes(), v.Tracked();
    ghost var src, dest := v.srcPath, v.destPath;
    ghost var ready := Ready(s0, src, dest, v.HardLinks(), t0, p);
    if ready {
      ReadyCreatable(s0, src, dest, v.HardLinks(), t0, p);
    }
    var pre := v.PreVisitDirectory(p);
    if pre.Err? {
      return Failed(pre.error);
    }
    ReplicaPrefixes(s0, src, dest, p, t0, v.Nodes());
    if ready {
      ChildReplicasGone(s0, src, dest, p, t0, v.Nodes());
    }
    r := WalkEntries(v, p, s0, Children(s0, p), ready);
    if r.Failed? {
      return;
    }
    var _ := v.PostVisitDirectory(p, None);
    if ready {
      MirroredFromChildren(s0, src, dest, v.Posix(), v.Nodes(), p);
    }
    return Done;
  }

  /** A directory ready to be walked can have its replica created. */
  lemma ReadyCreatable(s0: Tree, src: Path, dest: Path, hardLinks: bool, t: Tree, p: Path)
    requires src <= p && Ready(s0, src, dest, hardLinks, t, p)
    ensures Rebase(src, dest, p) !in t && CanCreateDirectories(t, Rebase(src, dest, p))
  {
    var rp := Rebase(src, dest, p);
    assert rp !in t;
    if p != src {
      CreatableUnderParent(t, rp);
    } else {
      assert rp == dest;
    }
  }

  /** The directories preVisitDirectory adds, prefixes of the replica of a
      source directory, are replicas. */
  lemma ReplicaPrefixes(s0: Tree, src: Path, dest: Path, p: Path, t0: Tree, t: Tree)
    requires WellFormed(s0) && IsDir(s0, p) && src <= p
    requires forall x :: x in t && x !in t0 ==> x <= Rebase(src, dest, p) && t[x].kind.Directory?
    ensures forall x :: x in t && x !in t0 ==> Replica(s0, src, dest, t, x)
  {
    forall x | x in t && x !in t0
      ensures Replica(s0, src, dest, t, x)
    {
      RebasePrefixDir(s0, src, dest, p, x);
    }
  }

  /** Once the replica of `p` is created where nothing was, the replicas of
      its children are still free. */
  lemma ChildReplicasGone(s0: Tree, src: Path, dest: Path, p: Path, t0: Tree, t: Tree)
    requires src <= p && Gone(t0, Rebase(src, dest, p))
    requires forall x :: x in t && x !in t0 ==> x <= Rebase(src, dest, p)
    ensures forall c :: c in Children(s0, p) ==> Gone(t, Rebase(src, dest, c))
  {
    forall c | c in Children(s0, p)
      ensures Gone(t, Rebase(src, dest, c))
    {
      RebaseChild(src, dest, p, c);
      RebaseMonotone(src, dest, p, c);
    }
  }

  /** The entries `pending` of the directory `p`, visited one by one in the
      order the listing gives them; the first exception ends the walk. */
  method WalkEntries(v: WalkTreeAndCreateLinks, p: Path, s0: Tree, pending0: set<Path>, ghost ready: bool)
    returns (r: Outcome)
    requires v.Valid() && WellFormed(s0)
    requires v.srcPath <= p && p in s0 && pending0 == Children(s0, p)
    requires OnlyAdded(s0, v.Nodes())
    requires ready ==> IsDir(s0, v.srcPath) && ReadableDirs(s0, v.srcPath) && v.HardLinks()
    requires ready ==> PrivateDir(v.Nodes(), Rebase(v.srcPath, v.destPath, p), v.Posix())
    requires ready ==> forall c :: c in pending0 ==> Gone(v.Nodes(), Rebase(v.srcPath, v.destPath, c))
    modifies v.utils.tracking, v.utils.tracking.disk
    ensures v.Valid()
    ensures OnlyAdded(old(v.Nodes()), v.Nodes())
    ensures v.Tracked() == old(v.Tracked()) + (v.Nodes().Keys - old(v.Nodes()).Keys)
    ensures OnlyReplicas(s0, v.srcPath, v.destPath, old(v.Nodes()), v.Nodes())
    ensures forall x :: x in v.Nodes() && x !in old(v.Nodes()) ==> Comparable(x, Rebase(v.srcPath, v.destPath, p))
    ensures r.Failed? ==> r.error == NotebookIo
    ensures ready ==> r == Done && PrivateDir(v.Nodes(), Rebase(v.srcPath, v.destPath, p), v.Posix())
                      && forall c :: c in Children(s0, p) ==> Mirrored(s0, v.srcPath, v.destPath, v.Posix(), v.Nodes(), c)
    decreases |Subtree(s0, p)|, 0
  {
    ghost var t0, tr0 := v.Nodes(), v.Tracked();
    ghost var src, dest := v.srcPath, v.destPath;
    ghost var rp := Rebase(src, dest, p);
    r := Done;
    var pending := pending0;
    while pending != {}
      invariant v.Valid()
      invariant pending <= Children(s0, p)
      invariant OnlyAdded(t0, v.Nodes()) && OnlyAdded(s0, v.Nodes())
      invariant v.Tracked() == tr0 + (v.Nodes().Keys - t0.Keys)
      invariant OnlyReplicas(s0, src, dest, t0, v.Nodes())
      invariant forall x :: x in v.Nodes() && x !in t0 ==> Comparable(x, rp)
      invariant ready ==> PrivateDir(v.Nodes(), rp, v.Posix())
      invariant ready ==> forall c :: c in Children(s0, p) && c !in pending ==> Mirrored(s0, src, dest, v.Posix(), v.Nodes(), c)
      invariant ready ==> forall c :: c in pending ==> Gone(v.Nodes(), Rebase(src, dest, c))
      invariant r == Done
      decreases |pending|
    {
      var c :| c in pending;
      ghost var tb, trb := v.Nodes(), v.Tracked();
      RebaseChild(src, dest, p, c);
      ChildSubtreeSmaller(s0, s0, p, c);
      assert ready ==> Gone(tb, Rebase(src, dest, c)) && Writable(tb, Dirname(Rebase(src, dest, c)));
      r := WalkFrom(v, c, s0);
      TrackedAdded(tr0, trb, v.Tracked(), t0, tb, v.Nodes());
      if r.Failed? {
        return;
      }
      AfterChild(s0, src, dest, v.Posix(), p, c, pending, t0, tb, v.Nodes(), ready);
      pending := pending - {c};
    }
  }
}
