// TrackingUtils: directory creation, recursive deletion and hard links that
// record every path they create or remove in the tracked-path cache.

module Tracking {
  import opened Wrappers
  import opened FsModel

  /** The first existing path met when climbing from `start` towards the
      root, which is what the `while (parent != null)` loop finds. */
  function Climb(t: Tree, start: Option<Path>): (r: Option<Path>)
    ensures r.Some? ==> r.value in t && start.Some? && r.value <= start.value
    ensures r.Some? ==> forall k :: |r.value| < k <= |start.value| ==> start.value[..k] !in t
    ensures r.None? && start.Some? ==> forall k :: 0 <= k <= |start.value| ==> start.value[..k] !in t
    decreases if start.Some? then |start.value| + 1 else 0
  {
    match start
    case None => None
    case Some(p) =>
      if p in t then Some(p)
      else
        var r := Climb(t, Parent(p));
        assert p[..|p|] == p;
        assert p != [] ==> forall k :: 0 <= k <= |p| - 1 ==> Dirname(p)[..k] == p[..k];
        r
  }

  /** The nearest existing proper ancestor of `d`. */
  function NearestAncestor(t: Tree, d: Path): (r: Option<Path>)
    ensures r.Some? ==> r.value in t && r.value < d
    ensures r.Some? ==> forall k :: |r.value| < k < |d| ==> d[..k] !in t
    ensures r.None? ==> forall k :: 0 <= k < |d| ==> d[..k] !in t
  {
    if d == [] then None
    else
      var r := Climb(t, Parent(d));
      assert forall k :: 0 <= k < |d| ==> Dirname(d)[..k] == d[..k];
      r
  }

  /** When createTrackedDirectories succeeds: the path is already a
      directory, or it is missing and its nearest existing ancestor is a
      directory in which entries can be made. */
  predicate CanCreateDirectories(t: Tree, d: Path) {
    IsDir(t, d) || (d !in t && NearestAncestor(t, d).Some? && Writable(t, NearestAncestor(t, d).value))
  }

  /** `t` with the prefixes of `d` longer than `lo` and at most `hi` long
      added as new directories, shortest first. */
  function AddDirs(t: Tree, d: Path, lo: nat, hi: nat): Tree
    requires lo <= hi <= |d|
    decreases hi - lo
  {
    if hi == lo then t else AddDirs(t, d, lo, hi - 1)[d[..hi] := DefaultDir]
  }

  lemma {:induction false} AddDirsFacts(t: Tree, d: Path, lo: nat, hi: nat)
    requires lo <= hi <= |d|
    requires forall k :: lo < k <= |d| ==> d[..k] !in t
    ensures OnlyAdded(t, AddDirs(t, d, lo, hi))
    ensures forall p :: p in AddDirs(t, d, lo, hi) && p !in t ==>
              p <= d && lo < |p| <= hi && AddDirs(t, d, lo, hi)[p] == DefaultDir
    ensures hi > lo ==> d[..hi] in AddDirs(t, d, lo, hi) && AddDirs(t, d, lo, hi)[d[..hi]] == DefaultDir
    decreases hi - lo
  {
    if hi > lo {
      AddDirsFacts(t, d, lo, hi - 1);
    }
  }

  /** Only entries at or below `d` were removed, and each removed path was
      added to the tracked set. */
  ghost predicate RemovedUnder(t0: Tree, t: Tree, d: Path, tr0: set<Path>, tr: set<Path>) {
    OnlyRemoved(t0, t) && (forall p :: p in t0 && !(d <= p) ==> p in t)
    && tr == tr0 + (t0.Keys - t.Keys)
  }

  /** Removals strictly below `d` are removals at or below it. */
  lemma RemovedStrictlyUnder(t0: Tree, t: Tree, d: Path, tr0: set<Path>, tr: set<Path>)
    requires OnlyRemoved(t0, t) && tr == tr0 + (t0.Keys - t.Keys)
    requires forall p :: p in t0 && !(d < p) ==> p in t
    ensures RemovedUnder(t0, t, d, tr0, tr)
  {
  }

  /** Two rounds of removals at or below `d` make one. */
  lemma RemovedUnderSteps(t0: Tree, t1: Tree, t2: Tree, d: Path, tr0: set<Path>, tr1: set<Path>, tr2: set<Path>)
    requires RemovedUnder(t0, t1, d, tr0, tr1) && RemovedUnder(t1, t2, d, tr1, tr2)
    ensures RemovedUnder(t0, t2, d, tr0, tr2)
  {
    assert t0.Keys - t2.Keys == (t0.Keys - t1.Keys) + (t1.Keys - t2.Keys);
  }

  /** Every directory at or below `d` may be listed and emptied. */
  ghost predicate Cleanable(t: Tree, d: Path) {
    forall q :: q in t && d <= q && t[q].kind.Directory? ==> Accessible(t, q)
  }

  /** What forceDelete needs in order to remove `d` and everything below. */
  ghost predicate Removable(t: Tree, d: Path) {
    d in t && d != [] && Writable(t, Dirname(d)) && Cleanable(t, d)
  }

  /** No entry of `files[..i]` is a prefix of `p`. */
  predicate NotBelow(files: seq<Path>, i: nat, p: Path)
    requires i <= |files|
  {
    forall j :: 0 <= j < i ==> !(files[j] <= p)
  }

  /** Each of `files[..i]` that was removable in `t0` is gone from `t`. */
  ghost predicate RemovableGone(t0: Tree, t: Tree, files: seq<Path>, i: nat)
    requires i <= |files|
  {
    forall j :: 0 <= j < i && Removable(t0, files[j]) ==> Gone(t, files[j])
  }

  /** Some entry of `files[..i]` was not removable in `t0`. */
  ghost predicate SomeStuck(t0: Tree, files: seq<Path>, i: nat)
    requires i <= |files|
  {
    exists j :: 0 <= j < i && !Removable(t0, files[j])
  }

  predicate Distinct(s: seq<Path>) {
    forall i, j :: 0 <= i < j < |s| ==> s[i] != s[j]
  }

  class TrackingUtils {
    /** The file system the utilities act on. */
    const disk: FileSystem
    /** The keys of the tracked-path cache. */
    var tracked: set<Path>

    ghost predicate Valid()
      reads this, disk
    {
      disk.Valid()
    }

    constructor (disk: FileSystem)
      requires disk.Valid()
      ensures Valid() && this.disk == disk && tracked == {}
    {
      this.disk := disk;
      tracked := {};
    }

    /** createAndCheckIsDirectory: a new directory is tracked, an existing
        directory is left alone, any other existing entry is an error. */
    method CreateAndCheckIsDirectory(dir: Path) returns (r: Outcome)
      requires Valid()
      modifies this, disk
      ensures Valid()
      ensures dir in old(disk.nodes) ==>
                disk.nodes == old(disk.nodes) && tracked == old(tracked)
                && r == (if IsDir(old(disk.nodes), dir) then Done else Failed(FileAlreadyExists))
      ensures dir !in old(disk.nodes) && MkDir(old(disk.nodes), dir).Ok? ==>
                r == Done && disk.nodes == old(disk.nodes)[dir := DefaultDir]
                && tracked == old(tracked) + {dir}
      ensures dir !in old(disk.nodes) && MkDir(old(disk.nodes), dir).Err? ==>
                r == Failed(MkDir(old(disk.nodes), dir).error)
                && disk.nodes == old(disk.nodes) && tracked == old(tracked)
    {
      r := disk.CreateDirectory(dir);
      if r.Done? {
        tracked := tracked + {dir};
      } else if r.error == FileAlreadyExists && disk.nodes[dir].kind.Directory? {
        r := Done;
      }
    }

    /** createTrackedDirectories: creates `dir` and every missing ancestor,
        top-down from the nearest existing one, tracking each it creates. */
    method CreateTrackedDirectories(dir: Path) returns (r: Result<Path>)
      requires Valid()
      modifies this, disk
      ensures Valid()
      ensures r.Ok? <==> CanCreateDirectories(old(disk.nodes), dir)
      ensures r.Ok? ==> r.value == dir && IsDir(disk.nodes, dir)
      ensures r.Err? ==> disk.nodes == old(disk.nodes) && tracked == old(tracked)
      ensures dir in old(disk.nodes) && !IsDir(old(disk.nodes), dir) ==> r == Err(FileAlreadyExists)
      ensures dir !in old(disk.nodes) && NearestAncestor(old(disk.nodes), dir).None? ==>
                r == Err(FileSystem)
      ensures OnlyAdded(old(disk.nodes), disk.nodes)
      ensures forall p :: p in disk.nodes && p !in old(disk.nodes) ==> p <= dir && disk.nodes[p] == DefaultDir
      ensures tracked == old(tracked) + (disk.nodes.Keys - old(disk.nodes).Keys)
    {
      ghost var t0, tr0 := disk.nodes, tracked;
      var first := CreateAndCheckIsDirectory(dir);
      if first.Done? {
        return Ok(dir);
      }
      if first.error == FileAlreadyExists {
        return Err(FileAlreadyExists);
      }
      // climb to the nearest existing ancestor
      var parent := Parent(dir);
      while parent.Some? && parent.value !in disk.nodes
        invariant Climb(t0, parent) == NearestAncestor(t0, dir)
        decreases if parent.Some? then |parent.value| + 1 else 0
      {
        parent := Parent(parent.value);
      }
      if parent.None? {
        return Err(FileSystem);
      }
      var a := parent.value;
      assert disk.nodes == t0 && tracked == tr0 && dir !in t0;
      forall k | |a| < k <= |dir|
        ensures dir[..k] !in t0
      {
        if k == |dir| {
          assert dir[..k] == dir;
        }
      }
      r := CreateMissing(dir, a);
    }

    /** The `for (Path name : parent.relativize(dir))` loop of
        createTrackedDirectories: creates each component of `dir` below its
        nearest existing ancestor `a`, top-down. */
    method CreateMissing(dir: Path, a: Path) returns (r: Result<Path>)
      requires Valid()
      requires a < dir && a in disk.nodes && NearestAncestor(disk.nodes, dir) == Some(a)
      requires forall k :: |a| < k <= |dir| ==> dir[..k] !in disk.nodes
      modifies this, disk
      ensures Valid()
      ensures r.Ok? <==> Writable(old(disk.nodes), a)
      ensures r.Ok? ==> r.value == dir && IsDir(disk.nodes, dir)
      ensures r.Err? ==> disk.nodes == old(disk.nodes) && tracked == old(tracked)
      ensures OnlyAdded(old(disk.nodes), disk.nodes)
      ensures forall p :: p in disk.nodes && p !in old(disk.nodes) ==> p <= dir && disk.nodes[p] == DefaultDir
      ensures tracked == old(tracked) + (disk.nodes.Keys - old(disk.nodes).Keys)
    {
      ghost var t0, tr0 := disk.nodes, tracked;
      assert a == dir[..|a|];
      var i := |a|;
      while i < |dir|
        invariant |a| <= i <= |dir|
        invariant Valid()
        invariant disk.nodes == AddDirs(t0, dir, |a|, i)
        invariant tracked == tr0 + (disk.nodes.Keys - t0.Keys)
        invariant i > |a| ==> Writable(t0, a)
      {
        AddDirsFacts(t0, dir, |a|, i);
        assert Dirname(dir[..i + 1]) == dir[..i];
        assert dir[..i + 1] !in disk.nodes;
        ghost var prev, prevTracked := disk.nodes, tracked;
        var c := CreateAndCheckIsDirectory(dir[..i + 1]);
        if c.Failed? {
          assert i == |a|;
          return Err(c.error);
        }
        assert disk.nodes == prev[dir[..i + 1] := DefaultDir];
        assert AddDirs(t0, dir, |a|, i + 1) == prev[dir[..i + 1] := DefaultDir];
        assert tracked == prevTracked + {dir[..i + 1]};
        assert disk.nodes.Keys == prev.Keys + {dir[..i + 1]};
        assert dir[..i + 1] !in t0;
        i := i + 1;
      }
      AddDirsFacts(t0, dir, |a|, i);
      assert dir[..i] == dir;
      return Ok(dir);
    }

    /** createDirectories: createTrackedDirectories with any I/O failure
        turned into a NotebookIoException. */
    method CreateDirectories(dir: Path) returns (r: Result<Path>)
      requires Valid()
      modifies this, disk
      ensures Valid()
      ensures r.Ok? <==> CanCreateDirectories(old(disk.nodes), dir)
      ensures r.Ok? ==> r.value == dir && IsDir(disk.nodes, dir)
      ensures r.Err? ==> r.error == NotebookIo && disk.nodes == old(disk.nodes) && tracked == old(tracked)
      ensures OnlyAdded(old(disk.nodes), disk.nodes)
      ensures forall p :: p in disk.nodes && p !in old(disk.nodes) ==> p <= dir && disk.nodes[p] == DefaultDir
      ensures tracked == old(tracked) + (disk.nodes.Keys - old(disk.nodes).Keys)
    {
      r := CreateTrackedDirectories(dir);
      if r.Err? {
        r := Err(NotebookIo);
      }
    }

    /** verifiedListFiles: the entries of a readable directory, in the
        order the operating system lists them. */
    method VerifiedListFiles(directory: Path) returns (r: Result<seq<Path>>)
      requires Valid()
      ensures !IsDir(disk.nodes, directory) ==> r == Err(IllegalArgument)
      ensures IsDir(disk.nodes, directory) && !disk.nodes[directory].perm.read ==> r == Err(Io)
      ensures r.Ok? <==> IsDir(disk.nodes, directory) && disk.nodes[directory].perm.read
      ensures r.Ok? ==> Distinct(r.value) && forall q :: q in r.value <==> q in Children(disk.nodes, directory)
    {
      if directory !in disk.nodes || !disk.nodes[directory].kind.Directory? {
        return Err(IllegalArgument);
      }
      if !disk.nodes[directory].perm.read {
        return Err(Io);
      }
      var rest := Children(disk.nodes, directory);
      var files: seq<Path> := [];
      while rest != {}
        invariant Distinct(files)
        invariant forall q :: q in files ==> q !in rest
        invariant forall q :: q in Children(disk.nodes, directory) <==> q in files || q in rest
        decreases |rest|
      {
        var f :| f in rest;
        files := files + [f];
        rest := rest - {f};
      }
      return Ok(files);
    }

    /** cleanDirectory: force-deletes every entry of the directory, carrying
        on after a failure and reporting the last one. */
    method CleanDirectory(directory: Path) returns (r: Outcome)
      requires Valid()
      modifies this, disk
      ensures Valid()
      ensures OnlyRemoved(old(disk.nodes), disk.nodes)
      ensures forall p :: p in old(disk.nodes) && !(directory < p) ==> p in disk.nodes
      ensures tracked == old(tracked) + (old(disk.nodes).Keys - disk.nodes.Keys)
      ensures r.Done? ==> forall q :: q in disk.nodes ==> !(directory < q)
      ensures !IsDir(old(disk.nodes), directory) ==> r == Failed(IllegalArgument)
      ensures r.Failed? ==> IsIOException(r.error) || (r.error == IllegalArgument && !IsDir(old(disk.nodes), directory))
      ensures IsDir(old(disk.nodes), directory) && Cleanable(old(disk.nodes), directory) ==> r == Done
      ensures IsDir(old(disk.nodes), directory) && old(disk.nodes)[directory].perm.read ==>
                forall c :: c in Children(old(disk.nodes), directory) && Removable(old(disk.nodes), c) ==> Gone(disk.nodes, c)
      ensures r.Failed? && IsDir(old(disk.nodes), directory) && old(disk.nodes)[directory].perm.read ==>
                exists c :: c in Children(old(disk.nodes), directory) && !Removable(old(disk.nodes), c)
      decreases |Subtree(disk.nodes, directory)|, 1
    {
      ghost var t0 := disk.nodes;
      var listing := VerifiedListFiles(directory);
      if listing.Err? {
        return Failed(listing.error);
      }
      var files := listing.value;
      var exception := DeleteEntries(directory, files);
      KeptAboveChildren(t0, disk.nodes, directory, files);
      forall c | c in Children(t0, directory) && Removable(t0, c)
        ensures Gone(disk.nodes, c)
      {
        var j :| 0 <= j < |files| && files[j] == c;
      }
      if exception.Some? {
        ghost var j :| 0 <= j < |files| && !Removable(t0, files[j]);
        assert files[j] in Children(t0, directory);
        if Cleanable(t0, directory) {
          ChildOfCleanable(t0, directory, files[j]);
        }
        return Failed(exception.value);
      }
      NothingLeftBelow(t0, disk.nodes, directory, files);
      return Done;
    }

    /** The `for (File file : files)` loop of cleanDirectory: each entry is
        force-deleted in listing order; a failure is remembered and the loop
        goes on. */
    method DeleteEntries(directory: Path, files: seq<Path>) returns (exception: Option<Error>)
      requires Valid() && directory in disk.nodes && Distinct(files)
      requires forall q :: q in files <==> q in Children(disk.nodes, directory)
      modifies this, disk
      ensures Valid()
      ensures OnlyRemoved(old(disk.nodes), disk.nodes)
      ensures tracked == old(tracked) + (old(disk.nodes).Keys - disk.nodes.Keys)
      ensures forall p :: p in old(disk.nodes) && NotBelow(files, |files|, p) ==> p in disk.nodes
      ensures exception.None? ==> forall p :: p in disk.nodes ==> NotBelow(files, |files|, p)
      ensures exception.Some? ==> IsIOException(exception.value) && SomeStuck(old(disk.nodes), files, |files|)
      ensures RemovableGone(old(disk.nodes), disk.nodes, files, |files|)
      decreases |Subtree(disk.nodes, directory)|, 0
    {
      ghost var t0 := disk.nodes;
      exception := None;
      var i := 0;
      while i < |files|
        invariant 0 <= i <= |files|
        invariant Valid()
        invariant OnlyRemoved(t0, disk.nodes)
        invariant tracked == old(tracked) + (t0.Keys - disk.nodes.Keys)
        invariant Swept(t0, disk.nodes, files, i, exception)
      {
        var f := files[i];
        assert f in Children(t0, directory);
        ChildSubtreeSmaller(t0, disk.nodes, directory, f);
        if Removable(t0, f) {
          RemovableChild(t0, disk.nodes, directory, files, i);
        }
        ghost var before, exception0 := disk.nodes, exception;
        var res := ForceDelete(f);
        if res.Failed? {
          exception := Some(res.error);
        }
        SweptStep(t0, before, disk.nodes, files, i, res, exception0, exception);
        i := i + 1;
      }
    }

    /** What the loop of cleanDirectory has achieved after `files[..i]`:
        nothing outside those entries is gone; when no deletion failed,
        nothing below them is left; a failure points at an entry that was
        not removable; every removable entry is gone. */
    ghost predicate Swept(t0: Tree, t: Tree, files: seq<Path>, i: nat, exception: Option<Error>)
      requires i <= |files|
    {
      (forall p :: p in t0 && NotBelow(files, i, p) ==> p in t)
      && (exception.None? ==> forall p :: p in t ==> NotBelow(files, i, p))
      && (exception.Some? ==> IsIOException(exception.value) && SomeStuck(t0, files, i))
      && RemovableGone(t0, t, files, i)
    }

    /** One forceDelete of `files[i]` extends what the loop has achieved. */
    lemma SweptStep(t0: Tree, t: Tree, t': Tree, files: seq<Path>, i: nat, res: Outcome,
                    exception: Option<Error>, exception': Option<Error>)
      requires i < |files| && Swept(t0, t, files, i, exception)
      requires OnlyRemoved(t, t') && forall p :: p in t && !(files[i] <= p) ==> p in t'
      requires res.Done? ==> Gone(t', files[i])
      requires res.Failed? ==> IsIOException(res.error) && !Removable(t0, files[i])
      requires exception' == if res.Failed? then Some(res.error) else exception
      ensures Swept(t0, t', files, i + 1, exception')
    {
      var f := files[i];
      forall p | p in t0 && NotBelow(files, i + 1, p)
        ensures p in t'
      {
        assert NotBelow(files, i, p) && !(f <= p);
      }
      if exception'.None? {
        forall p | p in t'
          ensures NotBelow(files, i + 1, p)
        {
          assert p in t && NotBelow(files, i, p) && !(f <= p);
        }
      } else if res.Failed? {
        assert 0 <= i < i + 1 && !Removable(t0, files[i]);
      } else {
        var j :| 0 <= j < i && !Removable(t0, files[j]);
        assert 0 <= j < i + 1;
      }
    }

    /** Every child of a cleanable directory is removable. */
    lemma ChildOfCleanable(t0: Tree, d: Path, c: Path)
      requires IsDir(t0, d) && Cleanable(t0, d) && c in Children(t0, d)
      ensures Removable(t0, c)
    {
      assert Accessible(t0, d);
    }

    /** What lies outside every child of `d` is not below `d`'s entries,
        so it is kept. */
    lemma KeptAboveChildren(t0: Tree, t: Tree, d: Path, files: seq<Path>)
      requires forall q :: q in files <==> q in Children(t0, d)
      requires forall p :: p in t0 && NotBelow(files, |files|, p) ==> p in t
      ensures forall p :: p in t0 && !(d < p) ==> p in t
    {
      forall p | p in t0 && !(d < p)
        ensures p in t
      {
        forall j | 0 <= j < |files|
          ensures !(files[j] <= p)
        {
          assert files[j] in Children(t0, d);
        }
      }
    }

    /** Once nothing is left below any child of `d`, nothing is left below `d`. */
    lemma NothingLeftBelow(t0: Tree, t: Tree, d: Path, files: seq<Path>)
      requires WellFormed(t0) && OnlyRemoved(t0, t)
      requires forall q :: q in files <==> q in Children(t0, d)
      requires forall p :: p in t ==> NotBelow(files, |files|, p)
      ensures forall q :: q in t ==> !(d < q)
    {
      forall q | q in t
        ensures !(d < q)
      {
        if d < q {
          UnderSomeChild(t0, d, q);
          assert false;
        }
      }
    }

    /** A child that was removable when the listing was taken is still
        removable when its turn comes, because the entries removed so far
        lie below its earlier siblings. */
    lemma RemovableChild(t0: Tree, t: Tree, d: Path, files: seq<Path>, i: nat)
      requires WellFormed(t0) && OnlyRemoved(t0, t) && i < |files| && Distinct(files)
      requires forall q :: q in files <==> q in Children(t0, d)
      requires forall p :: p in t0 && NotBelow(files, i, p) ==> p in t
      requires Removable(t0, files[i])
      ensures Removable(t, files[i])
    {
      var f := files[i];
      assert f in Children(t0, d);
      forall j | 0 <= j < i
        ensures !(files[j] <= f)
      {
        assert files[j] in Children(t0, d);
      }
      assert NotBelow(files, i, d);
      forall q | q in t && f <= q && t[q].kind.Directory?
        ensures Accessible(t, q)
      {
        assert d <= q;
      }
    }

    /** forceDelete: a directory goes to deleteDirectory; anything else is
        deleted and tracked, or the failure is reported. */
    method ForceDelete(file: Path) returns (r: Outcome)
      requires Valid()
      modifies this, disk
      ensures Valid()
      ensures RemovedUnder(old(disk.nodes), disk.nodes, file, old(tracked), tracked)
      ensures r.Done? ==> Gone(disk.nodes, file)
      ensures r.Failed? ==> IsIOException(r.error)
      ensures file !in old(disk.nodes) ==> r == Failed(FileNotFound)
      ensures Removable(old(disk.nodes), file) ==> r == Done
      decreases |Subtree(disk.nodes, file)|, 3
    {
      if IsDir(disk.nodes, file) {
        r := DeleteDirectory(file);
      } else {
        ghost var t0 := disk.nodes;
        if file in t0 {
          LeafHasNoSubtree(t0, file);
        }
        var ok := disk.Delete(file);
        if ok {
          forall q | q in disk.nodes
            ensures !(file <= q)
          {
            assert q in t0 && q != file;
          }
          tracked := tracked + {file};
          r := Done;
        } else if file !in disk.nodes {
          r := Failed(FileNotFound);
        } else {
          r := Failed(Io);
        }
      }
    }

    /** deleteDirectory: nothing to do when absent; otherwise the contents
        (unless it is a symbolic link) and then the entry itself. */
    method DeleteDirectory(directory: Path) returns (r: Outcome)
      requires Valid()
      modifies this, disk
      ensures Valid()
      ensures RemovedUnder(old(disk.nodes), disk.nodes, directory, old(tracked), tracked)
      ensures r.Done? ==> Gone(disk.nodes, directory)
      ensures directory !in old(disk.nodes) ==>
                r == Done && disk.nodes == old(disk.nodes) && tracked == old(tracked)
      ensures r.Failed? ==> IsIOException(r.error) || (r.error == IllegalArgument && IsRegularOrOther(old(disk.nodes), directory))
      ensures Removable(old(disk.nodes), directory) && !IsRegularOrOther(old(disk.nodes), directory) ==> r == Done
      decreases |Subtree(disk.nodes, directory)|, 2
    {
      ghost var t0 := disk.nodes;
      if directory !in disk.nodes {
        AbsentHasNoSubtree(t0, directory);
        return Done;
      }
      if !IsSymlink(disk.nodes, directory) {
        r := CleanDirectory(directory);
        if r.Failed? {
          return r;
        }
      } else {
        LeafHasNoSubtree(t0, directory);
      }
      ghost var t1, tr1 := disk.nodes, tracked;
      RemovedStrictlyUnder(t0, t1, directory, old(tracked), tr1);
      assert directory in t1;
      if Removable(t0, directory) {
        assert Dirname(directory) in t1;
        assert !HasChildren(t1, directory);
      }
      r := DeleteEmptied(directory);
      RemovedUnderSteps(t0, t1, disk.nodes, directory, old(tracked), tr1, tracked);
    }

    /** The last step of deleteDirectory: the entry itself, once nothing is
        left below it; the removal is tracked, and a refusal is an I/O error. */
    method DeleteEmptied(directory: Path) returns (r: Outcome)
      requires Valid() && directory in disk.nodes
      requires forall q :: q in disk.nodes ==> !(directory < q)
      modifies this, disk
      ensures Valid()
      ensures r.Done? <==> Unlink(old(disk.nodes), directory).Some?
      ensures r.Done? ==> disk.nodes == old(disk.nodes) - {directory} && tracked == old(tracked) + {directory}
                          && Gone(disk.nodes, directory)
      ensures r.Failed? ==> r == Failed(Io) && disk.nodes == old(disk.nodes) && tracked == old(tracked)
      ensures RemovedUnder(old(disk.nodes), disk.nodes, directory, old(tracked), tracked)
    {
      ghost var t1 := disk.nodes;
      var ok := disk.Delete(directory);
      if !ok {
        return Failed(Io);
      }
      forall q | q in disk.nodes
        ensures !(directory <= q)
      {
        assert q in t1 && q != directory;
      }
      tracked := tracked + {directory};
      return Done;
    }

    /** createLink: a hard link at `dest` to `src`, then `dest` is tracked. */
    method CreateLink(dest: Path, src: Path) returns (r: Outcome)
      requires Valid()
      modifies this, disk
      ensures Valid()
      ensures Link(old(disk.nodes), dest, src, disk.hardLinks).Ok? ==>
                r == Done && disk.nodes == old(disk.nodes)[dest := old(disk.nodes)[src]]
                && tracked == old(tracked) + {dest}
      ensures Link(old(disk.nodes), dest, src, disk.hardLinks).Err? ==>
                r == Failed(Link(old(disk.nodes), dest, src, disk.hardLinks).error)
                && disk.nodes == old(disk.nodes) && tracked == old(tracked)
    {
      r := disk.CreateLink(dest, src);
      if r.Done? {
        tracked := tracked + {dest};
      }
    }
  }

  /** An existing entry that is neither a directory nor a symbolic link. */
  predicate IsRegularOrOther(t: Tree, p: Path) {
    p in t && (t[p].kind.Regular? || t[p].kind.OtherKind?)
  }
}
