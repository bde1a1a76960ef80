// ProjectServiceImpl: the mirror fan-out of a user's file events to the
// master repository and to every other user of the project, the
// notebook-folder rules of updateProject and deleteProject, and the
// role-change listener it registers with the security service.

module ProjectService {
  import opened Wrappers
  import opened FsModel
  import opened Paths
  import opened Tracking
  import opened RepoObjUtils
  import opened RepoObjService
  import opened FileSystemService
  import opened Metadata
  import opened Transform

  /** userRepo.relativize(file): getName(0) is the originating user and
      subpath(1, n) the rest. A relative path of a single name makes
      subpath raise IllegalArgumentException. */
  function Decompose(userRepo: Path, file: Path): (r: Result<(string, Path)>)
    ensures r.Err? ==> r.error == IllegalArgument
    ensures r.Ok? ==> r.value.1 != []
  {
    var rel := Names(Relativize(userRepo, file));
    if |rel| < 2 then Err(IllegalArgument) else Ok((rel[0], rel[1..]))
  }

  /** masterRepo.resolve(rest), as the operating system opens it. */
  function MasterTarget(masterRepo: Path, rest: Path): Path {
    Normalize(masterRepo + rest)
  }

  /** usersRepo.resolve(user).resolve(rest), as the operating system opens it. */
  function UserTarget(usersRepo: Path, user: string, rest: Path): Path {
    Normalize(usersRepo + [user] + rest)
  }

  /** The destinations in the trees of every user of `users` other than the
      originating one. */
  function PeerTargets(usersRepo: Path, rest: Path, users: set<string>, originator: string): set<Path> {
    set u | u in users && u != originator :: UserTarget(usersRepo, u, rest)
  }

  /** A link can be made at `d`: it is missing and its directory takes new entries. */
  predicate Linkable(t: Tree, d: Path) {
    d != [] && d !in t && Writable(t, Dirname(d))
  }

  /** The link to `file` can be made at `d`, or is there already. */
  predicate LinkableOrLinked(t: Tree, file: Path, d: Path)
    requires file in t
  {
    Linkable(t, d) || (d in t && t[d] == t[file])
  }

  // ---------------------------------------------------------------------
  // Lemmas about the decomposition and the destinations

  /** Inside the users' repository the originating user is the first name
      below it and the rest is everything after that name. */
  lemma DecomposeBelow(userRepo: Path, file: Path)
    requires userRepo <= file
    ensures Decompose(userRepo, file).Ok? <==> |file| >= |userRepo| + 2
    ensures |file| >= |userRepo| + 2 ==>
              Decompose(userRepo, file) == Ok((file[|userRepo|], file[|userRepo| + 1..]))
  {
    RelativizeBelow(userRepo, file);
    if |file| >= |userRepo| + 2 {
      assert file[|userRepo|..][1..] == file[|userRepo| + 1..];
    }
  }

  /** Outside the users' repository the "user" is "..". */
  lemma DecomposeOutside(userRepo: Path, file: Path)
    requires !(userRepo <= file) && Decompose(userRepo, file).Ok?
    ensures Decompose(userRepo, file).value.0 == ParentName
  {
    RelativizeOutside(userRepo, file);
  }

  lemma NoParentNamesConcat(a: Path, b: Path)
    requires NoParentNames(a) && NoParentNames(b)
    ensures NoParentNames(a + b)
  {
    forall i | 0 <= i < |a + b|
      ensures (a + b)[i] != ParentName
    {
      if i < |a| {
        assert (a + b)[i] == a[i];
      } else {
        assert (a + b)[i] == b[i - |a|];
      }
    }
  }

  /** Without ".." names the destinations are plain concatenations. */
  lemma TargetsPlain(masterRepo: Path, usersRepo: Path, user: string, rest: Path)
    requires NoParentNames(masterRepo) && NoParentNames(usersRepo) && NoParentNames(rest) && user != ParentName
    ensures MasterTarget(masterRepo, rest) == masterRepo + rest
    ensures UserTarget(usersRepo, user, rest) == usersRepo + [user] + rest
  {
    NoParentNamesConcat(masterRepo, rest);
    WalkPlain([], masterRepo + rest);
    assert [] + (masterRepo + rest) == masterRepo + rest;
    NoParentNamesConcat(usersRepo, [user]);
    NoParentNamesConcat(usersRepo + [user], rest);
    WalkPlain([], usersRepo + [user] + rest);
    assert [] + (usersRepo + [user] + rest) == usersRepo + [user] + rest;
  }

  /** With the two repositories apart and no ".." names, the originating
      user's own copy is neither the master destination nor a peer's. */
  lemma OriginatorNotTarget(masterRepo: Path, usersRepo: Path, rest: Path, users: set<string>, originator: string)
    requires !Comparable(masterRepo, usersRepo)
    requires NoParentNames(masterRepo) && NoParentNames(usersRepo) && NoParentNames(rest)
    requires originator != ParentName && forall u :: u in users ==> u != ParentName
    ensures UserTarget(usersRepo, originator, rest) != MasterTarget(masterRepo, rest)
    ensures UserTarget(usersRepo, originator, rest) !in PeerTargets(usersRepo, rest, users, originator)
  {
    TargetsPlain(masterRepo, usersRepo, originator, rest);
    ExtensionsApart(masterRepo, usersRepo, rest, [originator] + rest);
    assert usersRepo + [originator] + rest == usersRepo + ([originator] + rest);
    forall u | u in users && u != originator
      ensures UserTarget(usersRepo, u, rest) != UserTarget(usersRepo, originator, rest)
    {
      TargetsPlain(masterRepo, usersRepo, u, rest);
      assert (usersRepo + [u] + rest)[|usersRepo|] == u;
      assert (usersRepo + [originator] + rest)[|usersRepo|] == originator;
    }
  }

  lemma PeerTargetsGrow(usersRepo: Path, rest: Path, done: set<string>, u: string, originator: string)
    ensures PeerTargets(usersRepo, rest, done, originator) <= PeerTargets(usersRepo, rest, done + {u}, originator)
    ensures u != originator ==> UserTarget(usersRepo, u, rest) in PeerTargets(usersRepo, rest, done + {u}, originator)
    ensures u == originator ==>
              PeerTargets(usersRepo, rest, done + {u}, originator) == PeerTargets(usersRepo, rest, done, originator)
    ensures forall d :: d in PeerTargets(usersRepo, rest, done + {u}, originator) ==>
              d in PeerTargets(usersRepo, rest, done, originator) || (u != originator && d == UserTarget(usersRepo, u, rest))
  {
  }

  /** A new entry of a replica lies on the way to its destination or below it. */
  lemma ReplicasComparable(s0: Tree, src: Path, dest: Path, t0: Tree, t: Tree)
    requires OnlyReplicas(s0, src, dest, t0, t)
    ensures forall x :: x in t && x !in t0 ==> Comparable(x, dest)
  {
    forall x | x in t && x !in t0
      ensures Comparable(x, dest)
    {
      assert Replica(s0, src, dest, t, x);
    }
  }

  /** Every entry `t` has and `t0` lacks lies on the way to one of `targets`
      or below it. */
  ghost predicate NewNear(t0: Tree, t: Tree, targets: set<Path>) {
    forall x :: x in t && x !in t0 ==> exists d :: d in targets && Comparable(x, d)
  }

  /** Every entry `t` has and `t0` lacks is one of `targets` and holds `node`. */
  ghost predicate NewAreLinks(t0: Tree, t: Tree, node: Node, targets: set<Path>) {
    forall x :: x in t && x !in t0 ==> x in targets && t[x] == node
  }

  /** Every one of `targets` holds `node`. */
  ghost predicate HoldAll(t: Tree, node: Node, targets: set<Path>) {
    forall d :: d in targets ==> d in t && t[d] == node
  }

  /** Every entry of `t0` below none of `targets` is still in `t`. */
  ghost predicate KeptOutside(t0: Tree, t: Tree, targets: set<Path>) {
    forall p :: p in t0 && (forall d :: d in targets ==> !(d <= p)) ==> p in t
  }

  /** Nothing is left at or below any of `targets`. */
  ghost predicate AllGone(t: Tree, targets: set<Path>) {
    forall d :: d in targets ==> Gone(t, d)
  }

  /** forceDelete succeeds on every one of `targets` that exists, one after
      the other: each is missing or removable, and none lies above or below
      another. */
  ghost predicate Clearable(t: Tree, targets: set<Path>) {
    forall d :: d in targets ==> (d !in t || Removable(t, d)) && Apart(targets, d)
  }

  /** A link can be made at every one of `targets`. */
  ghost predicate AllLinkable(t: Tree, targets: set<Path>) {
    forall d :: d in targets ==> Linkable(t, d)
  }

  /** A link to `file` can be made at, or is already at, every one of `targets`. */
  ghost predicate AllLinkableOrLinked(t: Tree, file: Path, targets: set<Path>)
    requires file in t
  {
    forall d :: d in targets ==> LinkableOrLinked(t, file, d)
  }

  /** None of `targets` exists. */
  ghost predicate AllAbsent(t: Tree, targets: set<Path>) {
    forall d :: d in targets ==> d !in t
  }

  lemma PeerTargetsMono(usersRepo: Path, rest: Path, a: set<string>, b: set<string>, originator: string)
    requires a <= b
    ensures PeerTargets(usersRepo, rest, a, originator) <= PeerTargets(usersRepo, rest, b, originator)
  {
  }

  lemma TargetsMono(t0: Tree, t: Tree, node: Node, a: set<Path>, b: set<Path>)
    requires a <= b
    ensures NewNear(t0, t, a) ==> NewNear(t0, t, b)
    ensures NewAreLinks(t0, t, node, a) ==> NewAreLinks(t0, t, node, b)
    ensures KeptOutside(t0, t, a) ==> KeptOutside(t0, t, b)
  {
    if NewNear(t0, t, a) {
      forall x | x in t && x !in t0
        ensures exists d :: d in b && Comparable(x, d)
      {
        var d :| d in a && Comparable(x, d);
        assert d in b;
      }
    }
  }

  /** Two rounds of additions compose. */
  lemma AddedCompose(t0: Tree, t1: Tree, t2: Tree, node: Node, a: set<Path>, b: set<Path>)
    requires OnlyAdded(t0, t1) && OnlyAdded(t1, t2)
    ensures OnlyAdded(t0, t2)
    ensures NewNear(t0, t1, a) && NewNear(t1, t2, b) ==> NewNear(t0, t2, a + b)
    ensures NewAreLinks(t0, t1, node, a) && NewAreLinks(t1, t2, node, b) ==> NewAreLinks(t0, t2, node, a + b)
    ensures HoldAll(t1, node, a) && HoldAll(t2, node, b) ==> HoldAll(t2, node, a + b)
  {
    if NewNear(t0, t1, a) && NewNear(t1, t2, b) {
      forall x | x in t2 && x !in t0
        ensures exists d :: d in a + b && Comparable(x, d)
      {
        if x in t1 {
          var d :| d in a && Comparable(x, d);
          assert d in a + b;
        } else {
          var d :| d in b && Comparable(x, d);
          assert d in a + b;
        }
      }
    }
  }

  /** Two rounds of removals compose. */
  lemma RemovedCompose(t0: Tree, t1: Tree, t2: Tree, a: set<Path>, b: set<Path>)
    requires OnlyRemoved(t0, t1) && OnlyRemoved(t1, t2)
    ensures OnlyRemoved(t0, t2)
    ensures KeptOutside(t0, t1, a) && KeptOutside(t1, t2, b) ==> KeptOutside(t0, t2, a + b)
    ensures AllGone(t1, a) && AllGone(t2, b) ==> AllGone(t2, a + b)
  {
  }

  lemma AllLinkableKept(t0: Tree, t: Tree, file: Path, a: set<Path>, b: set<Path>)
    requires file in t0 && OnlyAdded(t0, t) && NewAreLinks(t0, t, t0[file], a)
    requires AllLinkable(t0, b)
    ensures AllLinkableOrLinked(t, file, b)
  {
    forall d | d in b
      ensures LinkableOrLinked(t, file, d)
    {
      LinkableKept(t0, t, file, a, d);
    }
  }

  /** Removing the master copy leaves the peers' copies clearable. */
  lemma ClearableKept(t0: Tree, t1: Tree, dest: Path, peers: set<Path>)
    requires OnlyRemoved(t0, t1) && KeptOutside(t0, t1, {dest}) && Gone(t1, dest)
    requires Clearable(t0, {dest} + peers)
    ensures Clearable(t1, peers)
  {
    forall e | e in peers
      ensures (e !in t1 || Removable(t1, e)) && Apart(peers, e)
    {
      if e in t1 && e != dest {
        assert !Comparable(e, dest);
        RemovableKept(t0, t1, {dest}, e);
      }
    }
  }

  /** Links made at other destinations leave a destination linkable, or
      linked already. */
  lemma LinkableKept(t0: Tree, t: Tree, file: Path, a: set<Path>, d: Path)
    requires file in t0 && OnlyAdded(t0, t) && NewAreLinks(t0, t, t0[file], a)
    requires LinkableOrLinked(t0, file, d)
    ensures LinkableOrLinked(t, file, d)
  {
    if d in t && d !in t0 {
      assert t[d] == t0[file];
    }
  }

  // ---------------------------------------------------------------------
  // Replicating a directory to several destinations

  /** The directory `file` can be replicated in full at `d`: the clean case
      of linkOrReplicate, with the directory of `d` already there and taking
      new entries, and `d` neither inside the source nor around it. */
  ghost predicate Replicable(t: Tree, file: Path, d: Path, hardLinks: bool) {
    CleanCase(t, file, d, hardLinks) && d != [] && Writable(t, Dirname(d)) && !Comparable(file, d)
  }

  /** Every one of `targets` is replicable, and none lies above or below another. */
  ghost predicate AllReplicable(t: Tree, file: Path, targets: set<Path>, hardLinks: bool) {
    forall d :: d in targets ==> Replicable(t, file, d, hardLinks) && Apart(targets, d)
  }

  /** The directory `file` of `s0` is mirrored at every one of `targets`. */
  ghost predicate AllMirrored(s0: Tree, file: Path, targets: set<Path>, posix: bool, t: Tree) {
    forall d :: d in targets ==> Mirrored(s0, file, d, posix, t, file)
  }

  /** Distinct peers have distinct destinations. A ".." in `rest` can make
      two users' copies resolve to the same path. */
  ghost predicate PeersDistinct(usersRepo: Path, rest: Path, users: set<string>, originator: string) {
    forall u, v :: u in users && v in users && u != originator && v != originator && u != v ==>
      UserTarget(usersRepo, u, rest) != UserTarget(usersRepo, v, rest)
  }

  /** With the two repositories apart and no ".." names, the master
      destination and the peers' destinations are pairwise distinct. */
  lemma TargetsDistinctPlain(masterRepo: Path, usersRepo: Path, rest: Path, users: set<string>, originator: string)
    requires !Comparable(masterRepo, usersRepo)
    requires NoParentNames(masterRepo) && NoParentNames(usersRepo) && NoParentNames(rest)
    requires forall u :: u in users ==> u != ParentName
    ensures MasterTarget(masterRepo, rest) !in PeerTargets(usersRepo, rest, users, originator)
    ensures PeersDistinct(usersRepo, rest, users, originator)
  {
    forall u | u in users
      ensures UserTarget(usersRepo, u, rest) == usersRepo + ([u] + rest)
      ensures UserTarget(usersRepo, u, rest) != MasterTarget(masterRepo, rest)
    {
      TargetsPlain(masterRepo, usersRepo, u, rest);
      assert usersRepo + [u] + rest == usersRepo + ([u] + rest);
      ExtensionsApart(masterRepo, usersRepo, rest, [u] + rest);
    }
    forall u, v | u in users && v in users && u != v
      ensures UserTarget(usersRepo, u, rest) != UserTarget(usersRepo, v, rest)
    {
      assert (usersRepo + ([u] + rest))[|usersRepo|] == u;
      assert (usersRepo + ([v] + rest))[|usersRepo|] == v;
    }
  }

  lemma PrefixesComparable(a: Path, b: Path, x: Path)
    requires a <= x && b <= x
    ensures Comparable(a, b)
  {
    if |a| <= |b| {
      assert a == x[..|a|] == b[..|a|];
    } else {
      assert b == x[..|b|] == a[..|b|];
    }
  }

  /** New entries near paths unrelated to `p` lie nowhere at or below `p`. */
  lemma NothingNewBelow(t0: Tree, t: Tree, near: set<Path>, p: Path)
    requires NewNear(t0, t, near)
    requires forall e :: e in near ==> !Comparable(e, p)
    ensures forall x :: x in t && x !in t0 ==> !(p <= x)
  {
    forall x | x in t && x !in t0 && p <= x
      ensures false
    {
      var e :| e in near && Comparable(x, e);
      if e <= x {
        PrefixesComparable(p, e, x);
      }
    }
  }

  /** An existing directory of `d` is the nearest existing ancestor of `d`. */
  lemma ParentIsNearest(t: Tree, d: Path)
    requires d != [] && Dirname(d) in t
    ensures NearestAncestor(t, d) == Some(Dirname(d))
  {
    var r := NearestAncestor(t, d);
    assert d[..|d| - 1] == Dirname(d);
    if r.Some? {
      assert |r.value| == |d| - 1;
      assert r.value == d[..|r.value|];
    }
  }

  /** Entries added near paths unrelated to the source and to `d` leave `d`
      replicable. */
  lemma ReplicableKept(t0: Tree, t: Tree, file: Path, near: set<Path>, d: Path, hardLinks: bool)
    requires OnlyAdded(t0, t) && NewNear(t0, t, near) && Replicable(t0, file, d, hardLinks)
    requires forall e :: e in near ==> !Comparable(e, file) && !Comparable(e, d)
    ensures Replicable(t, file, d, hardLinks)
  {
    NothingNewBelow(t0, t, near, file);
    NothingNewBelow(t0, t, near, d);
    ParentIsNearest(t, d);
  }

  /** Entries added away from `e` keep the replica at `e` in place. */
  lemma MirroredKept(s0: Tree, file: Path, e: Path, posix: bool, t1: Tree, t2: Tree, near: set<Path>)
    requires OnlyAdded(t1, t2) && NewNear(t1, t2, near)
    requires forall d :: d in near ==> !Comparable(d, e)
    requires Mirrored(s0, file, e, posix, t1, file)
    ensures Mirrored(s0, file, e, posix, t2, file)
  {
    NothingNewBelow(t1, t2, near, e);
    forall q | q in s0 && file <= q
      ensures MirroredEntry(s0, file, e, posix, t2, q)
    {
      assert MirroredEntry(s0, file, e, posix, t1, q);
      assert e <= Rebase(file, e, q);
    }
  }

  /** A replica of the source as it stands after additions elsewhere is a
      replica of the source as it stood before them. */
  lemma MirroredSameSource(t0: Tree, tb: Tree, file: Path, d: Path, posix: bool, t: Tree)
    requires OnlyAdded(t0, tb) && forall x :: x in tb && x !in t0 ==> !(file <= x)
    requires Mirrored(tb, file, d, posix, t, file)
    ensures Mirrored(t0, file, d, posix, t, file)
  {
    forall q | q in t0 && file <= q
      ensures MirroredEntry(t0, file, d, posix, t, q)
    {
      assert MirroredEntry(tb, file, d, posix, t, q);
    }
  }

  /** Replicas made at some destinations leave every other one replicable. */
  lemma PeerReady(t0: Tree, tb: Tree, file: Path, all: set<Path>, done: set<Path>, d: Path, hardLinks: bool)
    requires AllReplicable(t0, file, all, hardLinks)
    requires done <= all && d in all && d !in done
    requires OnlyAdded(t0, tb) && NewNear(t0, tb, done)
    ensures Replicable(tb, file, d, hardLinks)
  {
    forall e | e in done
      ensures !Comparable(e, file) && !Comparable(e, d)
    {
      assert Replicable(t0, file, e, hardLinks);
      assert Apart(all, d);
    }
    ReplicableKept(t0, tb, file, done, d, hardLinks);
  }

  /** Replicating at one more destination keeps the earlier replicas. */
  lemma PeerMirrored(t0: Tree, tb: Tree, t: Tree, file: Path, all: set<Path>, done: set<Path>, d: Path,
                     hardLinks: bool, posix: bool)
    requires AllReplicable(t0, file, all, hardLinks)
    requires done <= all && d in all && d !in done
    requires OnlyAdded(t0, tb) && NewNear(t0, tb, done) && AllMirrored(t0, file, done, posix, tb)
    requires OnlyAdded(tb, t) && NewNear(tb, t, {d}) && Mirrored(tb, file, d, posix, t, file)
    ensures AllMirrored(t0, file, done + {d}, posix, t)
  {
    forall e | e in done
      ensures !Comparable(e, file) && !Comparable(d, e)
    {
      assert Replicable(t0, file, e, hardLinks);
      assert Apart(all, d);
    }
    NothingNewBelow(t0, tb, done, file);
    MirroredSameSource(t0, tb, file, d, posix, t);
    forall e | e in done
      ensures Mirrored(t0, file, e, posix, t, file)
    {
      MirroredKept(t0, file, e, posix, tb, t, {d});
    }
  }

  /** The master replica leaves every peer destination replicable. */
  lemma MasterReady(t0: Tree, t1: Tree, file: Path, master: Path, peers: set<Path>, hardLinks: bool)
    requires AllReplicable(t0, file, {master} + peers, hardLinks) && master !in peers
    requires OnlyAdded(t0, t1) && NewNear(t0, t1, {master})
    ensures AllReplicable(t1, file, peers, hardLinks)
  {
    assert Replicable(t0, file, master, hardLinks);
    forall d | d in peers
      ensures Replicable(t1, file, d, hardLinks) && Apart(peers, d)
    {
      assert Apart({master} + peers, d);
      ReplicableKept(t0, t1, file, {master}, d, hardLinks);
    }
  }

  /** The master replica and the peers' replicas after it make the whole
      fan-out. */
  lemma FanOutMirrored(t0: Tree, t1: Tree, t2: Tree, file: Path, master: Path, peers: set<Path>,
                       hardLinks: bool, posix: bool)
    requires AllReplicable(t0, file, {master} + peers, hardLinks) && master !in peers
    requires OnlyAdded(t0, t1) && NewNear(t0, t1, {master}) && Mirrored(t0, file, master, posix, t1, file)
    requires OnlyAdded(t1, t2) && NewNear(t1, t2, peers) && AllMirrored(t1, file, peers, posix, t2)
    ensures AllMirrored(t0, file, {master} + peers, posix, t2)
  {
    assert Replicable(t0, file, master, hardLinks);
    NothingNewBelow(t0, t1, {master}, file);
    forall d | d in peers
      ensures Mirrored(t0, file, d, posix, t2, file) && !Comparable(d, master)
    {
      MirroredSameSource(t0, t1, file, d, posix, t2);
      assert Apart({master} + peers, d);
    }
    MirroredKept(t0, file, master, posix, t1, t2, peers);
  }

  /** What one linkOrReplicate of `file` at `dest` promises, from `t0` to
      `t`: new entries only near `dest`; for a node that is neither a
      directory nor a regular file, Done and no change; for a directory,
      NotebookIoException as the only failure, and Done with a full replica
      in the clean case; for a regular file, new entries are links to it,
      Done exactly when hard links work, otherwise no change and
      UnsupportedOperationException, and the link at `dest` when it could be
      made there or is there already. */
  ghost predicate LinkedOnce(t0: Tree, t: Tree, file: Path, dest: Path, r: Outcome, hardLinks: bool, posix: bool) {
    OnlyAdded(t0, t) && NewNear(t0, t, {dest})
    && (!IsDir(t0, file) && !IsRegular(t0, file) ==> r == Done && t == t0)
    && (IsDir(t0, file) && r.Failed? ==> r.error == NotebookIo)
    && (IsDir(t0, file) && CleanCase(t0, file, dest, hardLinks) ==> r == Done && Mirrored(t0, file, dest, posix, t, file))
    && (IsRegular(t0, file) ==>
          NewAreLinks(t0, t, t0[file], {dest})
          && (r == Done <==> hardLinks)
          && (!hardLinks ==> t == t0)
          && (r.Failed? ==> r.error == UnsupportedOperation)
          && (hardLinks && LinkableOrLinked(t0, file, dest) ==> HoldAll(t, t0[file], {dest})))
  }

  /** What linkOrReplicate of `file` at each of `targets` in turn promises,
      from `t0` to `t`, stopping at the first failure: new entries only near
      the targets; for a node that is neither a directory nor a regular file,
      Done and no change; for a directory, NotebookIoException as the only
      failure, and, when the targets are `distinct` and all replicable, Done
      with a replica at every one; for a regular file, new entries are links
      to it, Done when hard links work, otherwise no change and
      UnsupportedOperationException, and the link at every target when each
      could be made there or is there already. */
  ghost predicate LinkedAll(t0: Tree, t: Tree, file: Path, targets: set<Path>, r: Outcome,
                            distinct: bool, hardLinks: bool, posix: bool) {
    OnlyAdded(t0, t) && NewNear(t0, t, targets)
    && (!IsDir(t0, file) && !IsRegular(t0, file) ==> r == Done && t == t0)
    && (IsDir(t0, file) && r.Failed? ==> r.error == NotebookIo)
    && (IsDir(t0, file) && distinct && AllReplicable(t0, file, targets, hardLinks) ==>
          r == Done && AllMirrored(t0, file, targets, posix, t))
    && (IsRegular(t0, file) ==>
          NewAreLinks(t0, t, t0[file], targets)
          && (hardLinks ==> r == Done)
          && (!hardLinks ==> t == t0)
          && (r.Failed? ==> r.error == UnsupportedOperation)
          && (hardLinks && AllLinkableOrLinked(t0, file, targets) ==> HoldAll(t, t0[file], targets)))
  }

  /** What the loop over the peers has achieved at `targets`: new entries
      only near them; no change for a node that is neither a directory nor a
      regular file, nor for a regular file without hard links; for a regular
      file, new entries are links to it, and in the `clean` case every target
      holds it; for a directory in the `dirClean` case, a replica at every
      target. */
  ghost predicate LinkedAt(t0: Tree, t: Tree, file: Path, node: Node, targets: set<Path>,
                           clean: bool, dirClean: bool, hardLinks: bool, posix: bool) {
    OnlyAdded(t0, t) && NewNear(t0, t, targets)
    && (!IsDir(t0, file) && !IsRegular(t0, file) ==> t == t0)
    && (IsRegular(t0, file) ==> NewAreLinks(t0, t, node, targets) && (!hardLinks ==> t == t0))
    && (clean ==> HoldAll(t, node, targets))
    && (dirClean ==> AllMirrored(t0, file, targets, posix, t))
  }

  /** A peer not yet visited has a destination not yet written. */
  lemma PeerFresh(usersRepo: Path, rest: Path, users: set<string>, done: set<string>, user: string, originator: string)
    requires PeersDistinct(usersRepo, rest, users, originator)
    requires done <= users && user in users && user !in done && user != originator
    ensures UserTarget(usersRepo, user, rest) !in PeerTargets(usersRepo, rest, done, originator)
  {
  }

  /** What the loop over the peers, bound for `all`, has achieved once it
      reached `targets`: LinkedAt with the clean cases of the whole loop. */
  ghost predicate PeerLoop(t0: Tree, t: Tree, file: Path, all: set<Path>, targets: set<Path>,
                           distinct: bool, hardLinks: bool, posix: bool) {
    LinkedAt(t0, t, file, if file in t0 then t0[file] else DefaultDir, targets,
             IsRegular(t0, file) && hardLinks && AllLinkableOrLinked(t0, file, all),
             IsDir(t0, file) && distinct && AllReplicable(t0, file, all, hardLinks), hardLinks, posix)
  }

  /** One more linkOrReplicate of the loop, at `d` with outcome `r`, takes
      what the earlier ones achieved at `done` to `done + {d}`; in the clean
      cases it succeeds, and when it fails the loop's promise holds. */
  lemma LinkedStep(t0: Tree, tb: Tree, t: Tree, file: Path, all: set<Path>, done: set<Path>, d: Path,
                   r: Outcome, distinct: bool, hardLinks: bool, posix: bool)
    requires distinct ==> d !in done
    requires done + {d} <= all
    requires PeerLoop(t0, tb, file, all, done, distinct, hardLinks, posix)
    requires LinkedOnce(tb, t, file, d, r, hardLinks, posix)
    ensures PeerLoop(t0, t, file, all, done + {d}, distinct, hardLinks, posix)
    ensures r.Failed? ==> LinkedAll(t0, t, file, all, r, distinct, hardLinks, posix)
  {
    var node := if file in t0 then t0[file] else DefaultDir;
    if IsRegular(t0, file) && hardLinks && AllLinkableOrLinked(t0, file, all) {
      LinkableKept(t0, tb, file, done, d);
    }
    if IsDir(t0, file) && distinct && AllReplicable(t0, file, all, hardLinks) {
      PeerReady(t0, tb, file, all, done, d, hardLinks);
      PeerMirrored(t0, tb, t, file, all, done, d, hardLinks, posix);
    }
    AddedCompose(t0, tb, t, node, done, {d});
    TargetsMono(t0, t, node, done + {d}, all);
  }

  /** The loop over the peers that reached every one of them. */
  lemma LinkedEvery(t0: Tree, t: Tree, file: Path, all: set<Path>, distinct: bool, hardLinks: bool, posix: bool)
    requires PeerLoop(t0, t, file, all, all, distinct, hardLinks, posix)
    ensures LinkedAll(t0, t, file, all, Done, distinct, hardLinks, posix)
  {
  }

  /** The master linkOrReplicate is the first step of the fan-out. */
  lemma MasterStep(t0: Tree, t1: Tree, file: Path, node: Node, master: Path, peers: set<Path>, r: Outcome,
                   clean: bool, dirClean: bool, hardLinks: bool, posix: bool)
    requires file in t0 ==> node == t0[file]
    requires clean ==> IsRegular(t0, file) && hardLinks && AllLinkable(t0, {master} + peers)
    requires dirClean ==> IsDir(t0, file) && AllReplicable(t0, file, {master} + peers, hardLinks)
    requires LinkedOnce(t0, t1, file, master, r, hardLinks, posix)
    ensures LinkedAt(t0, t1, file, node, {master}, clean, dirClean, hardLinks, posix)
  {
    if clean {
      assert Linkable(t0, master);
    }
    if dirClean {
      assert Replicable(t0, file, master, hardLinks);
    }
  }

  /** The master linkOrReplicate and the loop over the peers after it make
      the whole fan-out. */
  lemma FanOutCompose(t0: Tree, t1: Tree, t2: Tree, file: Path, node: Node, master: Path, peers: set<Path>, r: Outcome,
                      clean: bool, dirClean: bool, distinct: bool, hardLinks: bool, posix: bool)
    requires file in t0 ==> node == t0[file]
    requires clean ==> IsRegular(t0, file) && hardLinks && AllLinkable(t0, {master} + peers)
    requires dirClean ==> IsDir(t0, file) && distinct && master !in peers && AllReplicable(t0, file, {master} + peers, hardLinks)
    requires LinkedAt(t0, t1, file, node, {master}, clean, dirClean, hardLinks, posix)
    requires LinkedAll(t1, t2, file, peers, r, distinct, hardLinks, posix)
    ensures dirClean ==> r == Done
    ensures LinkedAt(t0, t2, file, node, {master} + peers, clean, dirClean, hardLinks, posix)
  {
    if clean {
      AllLinkableKept(t0, t1, file, {master}, peers);
    }
    if dirClean {
      MasterReady(t0, t1, file, master, peers, hardLinks);
      FanOutMirrored(t0, t1, t2, file, master, peers, hardLinks, posix);
    }
    AddedCompose(t0, t1, t2, node, {master}, peers);
  }

  /** What the fan-out of a creation promises, from `t0` to `t`: new
      entries only near `targets`; nothing new when `file` is neither a
      directory nor a regular file; for a regular file, new entries are
      links to it, nothing changes without hard links and, with them, the
      outcome is Done when the project is `known`, and every target holds the
      link when all were linkable; for a directory whose targets are
      `distinct` and all replicable, a replica at every one and, when the
      project is `known`, Done. */
  ghost predicate FannedOut(t0: Tree, t: Tree, file: Path, targets: set<Path>, r: Outcome,
                            known: bool, distinct: bool, hardLinks: bool, posix: bool) {
    OnlyAdded(t0, t) && NewNear(t0, t, targets)
    && (!IsDir(t0, file) && !IsRegular(t0, file) ==> t == t0)
    && (IsRegular(t0, file) ==>
          NewAreLinks(t0, t, t0[file], targets)
          && (!hardLinks ==> r.Failed? && t == t0)
          && (hardLinks && known ==> r == Done))
    && (IsRegular(t0, file) && hardLinks && AllLinkable(t0, targets) ==> HoldAll(t, t0[file], targets))
    && (IsDir(t0, file) && distinct && AllReplicable(t0, file, targets, hardLinks) ==>
          AllMirrored(t0, file, targets, posix, t) && (known ==> r == Done))
  }

  /** The fan-out ends at a failed master linkOrReplicate. */
  lemma CreatedMasterFailed(t0: Tree, t1: Tree, file: Path, master: Path, targets: set<Path>, r: Outcome,
                            known: bool, distinct: bool, hardLinks: bool, posix: bool)
    requires master in targets && r.Failed?
    requires LinkedOnce(t0, t1, file, master, r, hardLinks, posix)
    ensures FannedOut(t0, t1, file, targets, r, known, distinct, hardLinks, posix)
  {
    TargetsMono(t0, t1, DefaultDir, {master}, targets);
    if file in t0 {
      TargetsMono(t0, t1, t0[file], {master}, targets);
    }
    if IsDir(t0, file) && AllReplicable(t0, file, targets, hardLinks) {
      // a clean directory would have made the master call Done
      assert false;
    }
  }

  /** The fan-out ends after a successful master linkOrReplicate, the
      project being unknown. */
  lemma CreatedMasterOnly(t0: Tree, t1: Tree, file: Path, master: Path, rm: Outcome, r: Outcome,
                          distinct: bool, hardLinks: bool, posix: bool)
    requires rm == Done && r.Failed?
    requires LinkedOnce(t0, t1, file, master, rm, hardLinks, posix)
    ensures FannedOut(t0, t1, file, {master}, r, false, distinct, hardLinks, posix)
  {
    if IsRegular(t0, file) && AllLinkable(t0, {master}) {
      assert Linkable(t0, master);
    }
    if IsDir(t0, file) && AllReplicable(t0, file, {master}, hardLinks) {
      assert Replicable(t0, file, master, hardLinks);
    }
  }

  /** The fan-out that reached the master destination and then the loop
      over the peers. */
  lemma CreatedAll(t0: Tree, t1: Tree, t: Tree, file: Path, master: Path, peers: set<Path>, rm: Outcome, r: Outcome,
                   peersDistinct: bool, hardLinks: bool, posix: bool)
    requires rm == Done
    requires LinkedOnce(t0, t1, file, master, rm, hardLinks, posix)
    requires LinkedAll(t1, t, file, peers, r, peersDistinct, hardLinks, posix)
    ensures FannedOut(t0, t, file, {master} + peers, r, true, master !in peers && peersDistinct, hardLinks, posix)
  {
    var node := if file in t0 then t0[file] else DefaultDir;
    var clean := IsRegular(t0, file) && hardLinks && AllLinkable(t0, {master} + peers);
    var dirClean := IsDir(t0, file) && master !in peers && peersDistinct
                    && AllReplicable(t0, file, {master} + peers, hardLinks);
    MasterStep(t0, t1, file, node, master, peers, rm, clean, dirClean, hardLinks, posix);
    FanOutCompose(t0, t1, t, file, node, master, peers, r, clean, dirClean, peersDistinct, hardLinks, posix);
  }

  class ProjectServiceImpl {
    const provider: ProjectProvider
    const fs: NotebookFileSystemServiceImpl
    /** org.apache.commons.io.FileUtils on the same disk: the deletion
        algorithm TrackingUtils copies. What it records is never consulted,
        so its deletions stay out of the tracked-path cache. */
    const commonsIo: TrackingUtils

    ghost predicate Valid()
      reads provider, provider.projects, fs.tracking, fs.tracking.disk, commonsIo
    {
      fs.Valid() && provider.Valid() && commonsIo.disk == fs.tracking.disk && commonsIo != fs.tracking
    }

    function Nodes(): Tree
      reads fs.tracking.disk
    {
      fs.tracking.disk.nodes
    }

    /** The keys of the tracked-path cache. */
    function Tracked(): set<Path>
      reads fs.tracking
    {
      fs.tracking.tracked
    }

    constructor (provider: ProjectProvider, fs: NotebookFileSystemServiceImpl, commonsIo: TrackingUtils)
      requires provider.Valid() && fs.Valid() && commonsIo.disk == fs.tracking.disk && commonsIo != fs.tracking
      ensures Valid() && this.provider == provider && this.fs == fs && this.commonsIo == commonsIo
    {
      this.provider := provider;
      this.fs := fs;
      this.commonsIo := commonsIo;
    }

    /** The users entitled to the project named `name`, or None when the
        store has no such project. */
    ghost function EntitledOf(name: string): Option<set<string>>
      reads provider, provider.projects
    {
      if exists p :: p in provider.projects && p.systemName == name then
        var p :| p in provider.projects && p.systemName == name;
        Some(p.Entitled())
      else None
    }

    /** The destinations of an event from `originator` on `rest`: the
        master one, and the peers' when the project is known. */
    ghost function Destinations(originator: string, rest: Path): set<Path>
      requires rest != []
      reads provider, provider.projects
    {
      {MasterTarget(fs.masterRepo, rest)}
      + match EntitledOf(rest[0])
        case Some(users) => PeerTargets(fs.usersRepo, rest, users, originator)
        case None => {}
    }

    lemma DestinationsKnown(originator: string, rest: Path, users: set<string>)
      requires rest != [] && EntitledOf(rest[0]) == Some(users)
      ensures Destinations(originator, rest)
              == {MasterTarget(fs.masterRepo, rest)} + PeerTargets(fs.usersRepo, rest, users, originator)
      ensures DestinationsDistinct(originator, rest)
              == (MasterTarget(fs.masterRepo, rest) !in PeerTargets(fs.usersRepo, rest, users, originator)
                  && PeersDistinct(fs.usersRepo, rest, users, originator))
    {
    }

    lemma DestinationsUnknown(originator: string, rest: Path)
      requires rest != [] && EntitledOf(rest[0]).None?
      ensures Destinations(originator, rest) == {MasterTarget(fs.masterRepo, rest)}
    {
    }

    /** The destinations of an event from `originator` on `rest` are
        pairwise distinct: the master one is no peer's, and no two peers
        share one. */
    ghost predicate DestinationsDistinct(originator: string, rest: Path)
      requires rest != []
      reads provider, provider.projects
    {
      match EntitledOf(rest[0])
      case Some(users) =>
        MasterTarget(fs.masterRepo, rest) !in PeerTargets(fs.usersRepo, rest, users, originator)
        && PeersDistinct(fs.usersRepo, rest, users, originator)
      case None => true
    }

    /** Every destination the fan-out of an event on `file` writes or
        deletes. */
    ghost function FanOutTargets(userRepo: Path, file: Path): set<Path>
      reads provider, provider.projects
    {
      var d := Decompose(userRepo, file);
      if d.Err? then {} else Destinations(d.value.0, d.value.1)
    }

    /** getUsersWithProjectAccess: the owner when it is a user, and the
        project's users; an unknown project raises RuntimeException. */
    method GetUsersWithProjectAccess(projectName: string) returns (r: Result<set<string>>)
      requires Valid()
      ensures EntitledOf(projectName).None? ==> r == Err(Runtime)
      ensures EntitledOf(projectName).Some? ==> r == Ok(EntitledOf(projectName).value)
    {
      var found := provider.FindProjectByName(projectName);
      if found.None? {
        return Err(Runtime);
      }
      return Ok(found.value.Entitled());
    }

    /** The event's project is known: the path decomposes and the store has
        a project with the first name of the rest. */
    ghost predicate ProjectKnown(userRepo: Path, file: Path)
      reads provider, provider.projects
    {
      var d := Decompose(userRepo, file);
      d.Ok? && EntitledOf(d.value.1[0]).Some?
    }

    /** One linkOrReplicate of the fan-out. */
    method Mirror(file: Path, dest: Path) returns (r: Outcome)
      requires Valid()
      modifies fs.tracking, fs.tracking.disk
      ensures Valid()
      ensures Tracked() == old(Tracked()) + (Nodes().Keys - old(Nodes()).Keys)
      ensures LinkedOnce(old(Nodes()), Nodes(), file, dest, r, fs.tracking.disk.hardLinks, fs.tracking.disk.posix)
    {
      ghost var t0 := Nodes();
      r := fs.utils.LinkOrReplicate(file, dest);
      if IsDir(t0, file) {
        ReplicasComparable(t0, file, dest, t0, Nodes());
      } else {
        assert forall x :: x in Nodes() && x !in t0 ==> x == dest;
      }
    }

    /** userFileCreated: linkOrReplicate of the file to the master
        repository, then to every entitled user but the originating one. A
        failure that escapes linkOrReplicate ends the fan-out. */
    method UserFileCreated(userRepo: Path, file: Path) returns (r: Outcome)
      requires Valid()
      modifies fs.tracking, fs.tracking.disk
      ensures Valid()
      ensures OnlyAdded(old(Nodes()), Nodes())
      ensures Tracked() == old(Tracked()) + (Nodes().Keys - old(Nodes()).Keys)
      ensures Decompose(userRepo, file).Err? ==>
                r == Failed(IllegalArgument) && Nodes() == old(Nodes()) && Tracked() == old(Tracked())
      ensures !ProjectKnown(userRepo, file) ==> r.Failed?
      ensures NewNear(old(Nodes()), Nodes(), FanOutTargets(userRepo, file))
      ensures !IsDir(old(Nodes()), file) && !IsRegular(old(Nodes()), file) ==>
                Nodes() == old(Nodes()) && Tracked() == old(Tracked())
      ensures IsRegular(old(Nodes()), file) ==>
                NewAreLinks(old(Nodes()), Nodes(), old(Nodes())[file], FanOutTargets(userRepo, file))
                && (!fs.tracking.disk.hardLinks ==> r.Failed? && Nodes() == old(Nodes()))
                && (fs.tracking.disk.hardLinks && ProjectKnown(userRepo, file) ==> r == Done)
      ensures IsRegular(old(Nodes()), file) && fs.tracking.disk.hardLinks
              && AllLinkable(old(Nodes()), FanOutTargets(userRepo, file)) ==>
                HoldAll(Nodes(), old(Nodes())[file], FanOutTargets(userRepo, file))
      ensures IsDir(old(Nodes()), file) && Decompose(userRepo, file).Ok?
              && DestinationsDistinct(Decompose(userRepo, file).value.0, Decompose(userRepo, file).value.1)
              && AllReplicable(old(Nodes()), file, FanOutTargets(userRepo, file), fs.tracking.disk.hardLinks) ==>
                AllMirrored(old(Nodes()), file, FanOutTargets(userRepo, file), fs.tracking.disk.posix, Nodes())
                && (ProjectKnown(userRepo, file) ==> r == Done)
    {
      var d := Decompose(userRepo, file);
      if d.Err? {
        return Failed(d.error);
      }
      r := FanOutCreated(file, d.value.0, d.value.1);
    }

    /** The part of userFileCreated after the path is decomposed. */
    method FanOutCreated(file: Path, originator: string, rest: Path) returns (r: Outcome)
      requires Valid() && rest != []
      modifies fs.tracking, fs.tracking.disk
      ensures Valid()
      ensures Tracked() == old(Tracked()) + (Nodes().Keys - old(Nodes()).Keys)
      ensures EntitledOf(rest[0]).None? ==> r.Failed?
      ensures FannedOut(old(Nodes()), Nodes(), file, Destinations(originator, rest), r, EntitledOf(rest[0]).Some?,
                        DestinationsDistinct(originator, rest), fs.tracking.disk.hardLinks, fs.tracking.disk.posix)
    {
      var dest := MasterTarget(fs.masterRepo, rest);
      ghost var t0 := Nodes();
      ghost var tr0 := Tracked();
      r := Mirror(file, dest);
      ghost var t1 := Nodes();
      ghost var tr1 := Tracked();
      ghost var rm := r;
      if r.Failed? {
        CreatedMasterFailed(t0, t1, file, dest, Destinations(originator, rest), r, EntitledOf(rest[0]).Some?,
                            DestinationsDistinct(originator, rest), fs.tracking.disk.hardLinks, fs.tracking.disk.posix);
        return;
      }
      var users := GetUsersWithProjectAccess(rest[0]);
      if users.Err? {
        r := Failed(users.error);
        CreatedMasterOnly(t0, t1, file, dest, rm, r, DestinationsDistinct(originator, rest),
                          fs.tracking.disk.hardLinks, fs.tracking.disk.posix);
        DestinationsUnknown(originator, rest);
        return;
      }
      r := LinkPeers(file, rest, users.value, originator);
      CreatedAll(t0, t1, Nodes(), file, dest, PeerTargets(fs.usersRepo, rest, users.value, originator), rm, r,
                 PeersDistinct(fs.usersRepo, rest, users.value, originator),
                 fs.tracking.disk.hardLinks, fs.tracking.disk.posix);
      TrackedAdded(tr0, tr1, Tracked(), t0, t1, Nodes());
      DestinationsKnown(originator, rest, users.value);
    }

    method LinkPeers(file: Path, rest: Path, users: set<string>, originator: string) returns (r: Outcome)
      requires Valid()
      modifies fs.tracking, fs.tracking.disk
      ensures Valid()
      ensures Tracked() == old(Tracked()) + (Nodes().Keys - old(Nodes()).Keys)
      ensures LinkedAll(old(Nodes()), Nodes(), file, PeerTargets(fs.usersRepo, rest, users, originator), r,
                        PeersDistinct(fs.usersRepo, rest, users, originator),
                        fs.tracking.disk.hardLinks, fs.tracking.disk.posix)
    {
      ghost var t0 := Nodes();
      ghost var all := PeerTargets(fs.usersRepo, rest, users, originator);
      ghost var distinct := PeersDistinct(fs.usersRepo, rest, users, originator);
      var pending := users;
      r := Done;
      while pending != {}
        invariant pending <= users
        invariant Valid() && r == Done
        invariant Tracked() == old(Tracked()) + (Nodes().Keys - t0.Keys)
        invariant PeerLoop(t0, Nodes(), file, all, PeerTargets(fs.usersRepo, rest, users - pending, originator),
                           distinct, fs.tracking.disk.hardLinks, fs.tracking.disk.posix)
        decreases |pending|
      {
        var user :| user in pending;
        ghost var done := users - pending;
        ghost var doneTargets := PeerTargets(fs.usersRepo, rest, done, originator);
        PeerTargetsGrow(fs.usersRepo, rest, done, user, originator);
        PeerTargetsMono(fs.usersRepo, rest, done + {user}, users, originator);
        assert users - (pending - {user}) == done + {user};
        if user != originator {
          var userDest := UserTarget(fs.usersRepo, user, rest);
          assert PeerTargets(fs.usersRepo, rest, done + {user}, originator) == doneTargets + {userDest};
          ghost var tb := Nodes();
          ghost var trb := Tracked();
          r := Mirror(file, userDest);
          if distinct {
            PeerFresh(fs.usersRepo, rest, users, done, user, originator);
          }
          LinkedStep(t0, tb, Nodes(), file, all, doneTargets, userDest, r, distinct,
                     fs.tracking.disk.hardLinks, fs.tracking.disk.posix);
          TrackedAdded(old(Tracked()), trb, Tracked(), t0, tb, Nodes());
          if r.Failed? {
            return;
          }
        }
        pending := pending - {user};
      }
      assert users - pending == users;
      LinkedEvery(t0, Nodes(), file, all, distinct, fs.tracking.disk.hardLinks, fs.tracking.disk.posix);
    }

    /** One forceDelete of the fan-out, when the copy exists; a failure
        becomes NotebookIoException. */
    method RemoveCopy(dest: Path) returns (r: Outcome)
      requires Valid()
      modifies fs.tracking.disk, commonsIo
      ensures Valid()
      ensures Tracked() == old(Tracked())
      ensures OnlyRemoved(old(Nodes()), Nodes())
      ensures KeptOutside(old(Nodes()), Nodes(), {dest})
      ensures r.Failed? ==> r == Failed(NotebookIo)
      ensures r.Done? ==> Gone(Nodes(), dest)
      ensures dest !in old(Nodes()) ==> r == Done && Nodes() == old(Nodes())
      ensures Removable(old(Nodes()), dest) ==> r == Done
    {
      if dest in Nodes() {
        var deleted := commonsIo.ForceDelete(dest);
        if deleted.Failed? {
          return Failed(NotebookIo);
        }
        r := Done;
      } else {
        AbsentHasNoSubtree(Nodes(), dest);
        r := Done;
      }
    }

    /** userFileDeleted: the master copy and every other entitled user's
        copy is force-deleted when it exists, with commons-io and so without
        tracking; a failed deletion raises NotebookIoException and ends the
        fan-out. */
    method UserFileDeleted(userRepo: Path, file: Path) returns (r: Outcome)
      requires Valid()
      modifies fs.tracking.disk, commonsIo
      ensures Valid()
      ensures Tracked() == old(Tracked())
      ensures OnlyRemoved(old(Nodes()), Nodes())
      ensures KeptOutside(old(Nodes()), Nodes(), FanOutTargets(userRepo, file))
      ensures Decompose(userRepo, file).Err? ==> r == Failed(IllegalArgument) && Nodes() == old(Nodes())
      ensures r.Failed? ==> r.error in {IllegalArgument, NotebookIo, Runtime}
      ensures !ProjectKnown(userRepo, file) ==> r.Failed?
      ensures r.Done? ==> AllGone(Nodes(), FanOutTargets(userRepo, file))
      ensures ProjectKnown(userRepo, file) && AllAbsent(old(Nodes()), FanOutTargets(userRepo, file)) ==>
                r == Done && Nodes() == old(Nodes())
      ensures ProjectKnown(userRepo, file) && Clearable(old(Nodes()), FanOutTargets(userRepo, file)) ==> r == Done
    {
      var d := Decompose(userRepo, file);
      if d.Err? {
        return Failed(d.error);
      }
      r := FanOutDeleted(d.value.0, d.value.1);
    }

    /** The part of userFileDeleted after the path is decomposed. */
    method FanOutDeleted(originator: string, rest: Path) returns (r: Outcome)
      requires Valid() && rest != []
      modifies fs.tracking.disk, commonsIo
      ensures Valid()
      ensures Tracked() == old(Tracked())
      ensures OnlyRemoved(old(Nodes()), Nodes())
      ensures KeptOutside(old(Nodes()), Nodes(), Destinations(originator, rest))
      ensures r.Failed? ==> r.error in {NotebookIo, Runtime}
      ensures EntitledOf(rest[0]).None? ==> r.Failed?
      ensures r.Done? ==> AllGone(Nodes(), Destinations(originator, rest))
      ensures EntitledOf(rest[0]).Some? && AllAbsent(old(Nodes()), Destinations(originator, rest)) ==>
                r == Done && Nodes() == old(Nodes())
      ensures EntitledOf(rest[0]).Some? && Clearable(old(Nodes()), Destinations(originator, rest)) ==> r == Done
    {
      ghost var t0 := Nodes();
      var dest := MasterTarget(fs.masterRepo, rest);
      r := RemoveCopy(dest);
      ghost var t1 := Nodes();
      if r.Failed? {
        TargetsMono(t0, t1, DefaultDir, {dest}, Destinations(originator, rest));
        return;
      }
      var users := GetUsersWithProjectAccess(rest[0]);
      if users.Err? {
        DestinationsUnknown(originator, rest);
        return Failed(users.error);
      }
      ghost var peers := PeerTargets(fs.usersRepo, rest, users.value, originator);
      DestinationsKnown(originator, rest, users.value);
      ghost var targets := {dest} + peers;
      if Clearable(t0, targets) {
        ClearableKept(t0, t1, dest, peers);
      }
      r := DeletePeers(rest, users.value, originator);
      RemovedCompose(t0, t1, Nodes(), {dest}, peers);
      DestinationsKnown(originator, rest, users.value);
    }

    /** The loop of userFileDeleted over the entitled users. */
    method DeletePeers(rest: Path, users: set<string>, originator: string) returns (r: Outcome)
      requires Valid()
      modifies fs.tracking.disk, commonsIo
      ensures Valid()
      ensures Tracked() == old(Tracked())
      ensures OnlyRemoved(old(Nodes()), Nodes())
      ensures KeptOutside(old(Nodes()), Nodes(), PeerTargets(fs.usersRepo, rest, users, originator))
      ensures r.Failed? ==> r.error == NotebookIo
      ensures r.Done? ==> AllGone(Nodes(), PeerTargets(fs.usersRepo, rest, users, originator))
      ensures AllAbsent(old(Nodes()), PeerTargets(fs.usersRepo, rest, users, originator)) ==>
                r == Done && Nodes() == old(Nodes())
      ensures Clearable(old(Nodes()), PeerTargets(fs.usersRepo, rest, users, originator)) ==> r == Done
    {
      ghost var t0 := Nodes();
      ghost var all := PeerTargets(fs.usersRepo, rest, users, originator);
      ghost var absent := AllAbsent(t0, all);
      ghost var clear := Clearable(t0, all);
      var pending := users;
      r := Done;
      while pending != {}
        invariant pending <= users
        invariant Valid() && r == Done && Tracked() == old(Tracked())
        invariant OnlyRemoved(t0, Nodes())
        invariant KeptOutside(t0, Nodes(), PeerTargets(fs.usersRepo, rest, users - pending, originator))
        invariant AllGone(Nodes(), PeerTargets(fs.usersRepo, rest, users - pending, originator))
        invariant absent ==> Nodes() == t0
        decreases |pending|
      {
        var user :| user in pending;
        ghost var done := users - pending;
        ghost var doneTargets := PeerTargets(fs.usersRepo, rest, done, originator);
        PeerTargetsGrow(fs.usersRepo, rest, done, user, originator);
        PeerTargetsMono(fs.usersRepo, rest, done + {user}, users, originator);
        assert users - (pending - {user}) == done + {user};
        if user != originator {
          var userDest := UserTarget(fs.usersRepo, user, rest);
          assert PeerTargets(fs.usersRepo, rest, done + {user}, originator) == doneTargets + {userDest};
          ghost var tb := Nodes();
          if clear && userDest in tb {
            assert userDest in all;
            assert userDest !in doneTargets by {
              if userDest in doneTargets {
                assert false;
              }
            }
            forall e | e in doneTargets
              ensures !Comparable(userDest, e)
            {
              assert e in all;
            }
            RemovableKept(t0, tb, doneTargets, userDest);
          }
          r := RemoveCopy(userDest);
          RemovedCompose(t0, tb, Nodes(), doneTargets, {userDest});
          if r.Failed? {
            TargetsMono(t0, Nodes(), DefaultDir, doneTargets + {userDest}, all);
            return;
          }
        }
        pending := pending - {user};
      }
      assert users - pending == users;
    }

    /** When ensureMasterProjectRepository succeeds for project `s`. */
    ghost predicate MasterEnsurable(t: Tree, s: string) {
      Accessible(t, fs.masterRepo) && IsDir(t, fs.masterRepo) && PresentOk(t, fs.masterRepo + [s])
    }

    /** What makes the mount of project `s` for `user` succeed in full. */
    ghost predicate MountEnsurable(t: Tree, user: string, s: string) {
      Accessible(t, fs.usersRepo) && MountClean(t, fs.MountObj(user, s), fs.tracking.disk.hardLinks)
    }

    /** ensureProjectRepo(domain, ensureUserRepo): the master project
        repository, and with `ensureUserRepo` the active user's mount. */
    method EnsureProjectRepo(systemName: string, ensureUserRepo: bool, activeUser: string) returns (r: Outcome)
      requires Valid()
      modifies fs.tracking, fs.tracking.disk
      ensures Valid()
      ensures OnlyAdded(old(Nodes()), Nodes())
      ensures Tracked() == old(Tracked()) + (Nodes().Keys - old(Nodes()).Keys)
      ensures forall x :: x in Nodes() && x !in old(Nodes()) ==>
                x == fs.masterRepo + [systemName] || (ensureUserRepo && fs.usersRepo + [activeUser] <= x)
      ensures r.Failed? ==> r.error in {IllegalArgument, Runtime, NotebookIo}
      ensures r.Done? ==> IsDir(Nodes(), fs.masterRepo + [systemName])
      ensures r.Done? && ensureUserRepo ==> IsDir(Nodes(), fs.usersRepo + [activeUser] + [systemName])
      ensures !Accessible(old(Nodes()), fs.masterRepo) ==>
                r == Failed(IllegalArgument) && Nodes() == old(Nodes()) && Tracked() == old(Tracked())
      ensures r.Done? ==> MasterEnsurable(old(Nodes()), systemName)
      ensures !ensureUserRepo ==> (r.Done? <==> MasterEnsurable(old(Nodes()), systemName))
      ensures (!Comparable(fs.masterRepo, fs.usersRepo) && MasterEnsurable(old(Nodes()), systemName)
               && (ensureUserRepo ==> MountEnsurable(old(Nodes()), activeUser, systemName))) ==> r == Done
    {
      ghost var t0 := Nodes();
      var master := fs.EnsureMasterProjectRepository(systemName);
      if master.Err? {
        return Failed(master.error);
      }
      if ensureUserRepo {
        r := EnsureActiveMount(t0, systemName, activeUser);
        if r.Failed? {
          return;
        }
      }
      return Done;
    }

    /** The second step of ensureProjectRepo, once the master project
        directory stands: the mount of the project for the active user,
        which succeeds when the mount could be made in full before the
        master directory was created (`t0`). */
    method EnsureActiveMount(ghost t0: Tree, systemName: string, activeUser: string) returns (r: Outcome)
      requires Valid() && WellFormed(t0) && OnlyAdded(t0, Nodes())
      requires forall x :: x in Nodes() && x !in t0 ==> x == fs.masterRepo + [systemName]
      modifies fs.tracking, fs.tracking.disk
      ensures Valid()
      ensures OnlyAdded(old(Nodes()), Nodes())
      ensures Tracked() == old(Tracked()) + (Nodes().Keys - old(Nodes()).Keys)
      ensures forall x :: x in Nodes() && x !in old(Nodes()) ==> fs.usersRepo + [activeUser] <= x
      ensures r.Failed? ==> r.error in {IllegalArgument, Runtime, NotebookIo}
      ensures r.Done? ==> IsDir(Nodes(), fs.usersRepo + [activeUser] + [systemName])
      ensures (!Comparable(fs.masterRepo, fs.usersRepo) && MountEnsurable(t0, activeUser, systemName)) ==> r == Done
    {
      if !Comparable(fs.masterRepo, fs.usersRepo) && MountEnsurable(t0, activeUser, systemName) {
        MasterApart(t0, Nodes(), activeUser, systemName);
      }
      r := fs.EnsureProjectMounts(activeUser, [systemName]);
      assert [systemName][0] == systemName;
    }

    /** The master project directory lies apart from every user's mount, so
        creating it keeps a clean mount clean. */
    lemma MasterApart(t0: Tree, t1: Tree, user: string, s: string)
      requires WellFormed(t0) && OnlyAdded(t0, t1) && !Comparable(fs.masterRepo, fs.usersRepo)
      requires forall x :: x in t1 && x !in t0 ==> x == fs.masterRepo + [s]
      requires MountEnsurable(t0, user, s)
      ensures MountEnsurable(t1, user, s)
    {
      var o := fs.MountObj(user, s);
      ExtensionsApart(fs.masterRepo, fs.usersRepo, [s], [user]);
      ExtensionsApart(fs.masterRepo, fs.usersRepo, [s], [s]);
      MountCleanKept(t0, t1, o, fs.tracking.disk.hardLinks);
    }

    /** What the notebook-folder step of updateProject does to the disk
        (`t0` to `t`, tracked paths `tr0` to `tr`) when the flag goes from
        `was` to `now`: nothing when it stays; the master repository and the
        active user's mount, with the conditions under which they are made,
        when it is enabled; the removal of every project repository, which
        fails exactly when the master root cannot be listed, when it is
        disabled. */
    ghost predicate FolderChanged(t0: Tree, t: Tree, tr0: set<Path>, tr: set<Path>, s: string,
                                  was: bool, now: bool, activeUser: string, r: Outcome)
    {
      (was == now ==> r == Done && t == t0 && tr == tr0)
      && (!was && now ==>
            OnlyAdded(t0, t) && tr == tr0 + (t.Keys - t0.Keys)
            && (r.Failed? ==> r.error in {IllegalArgument, Runtime, NotebookIo})
            && (r.Done? ==> IsDir(t, fs.masterRepo + [s]) && IsDir(t, fs.usersRepo + [activeUser] + [s])
                            && MasterEnsurable(t0, s))
            && ((!Comparable(fs.masterRepo, fs.usersRepo) && MasterEnsurable(t0, s)
                 && MountEnsurable(t0, activeUser, s)) ==> r == Done))
      && (was && !now ==>
            OnlyRemoved(t0, t) && tr == tr0 + (t0.Keys - t.Keys)
            && (Listable(t0, fs.masterRepo) <==> r == Done)
            && (r.Failed? ==> r.error == NullPointer)
            && (r.Done? ==>
                  forall d :: (d in ProjectRepoDirs(t0, fs.masterRepo, fs.usersRepo, s) && Removable(t0, d)
                               && Apart(ProjectRepoDirs(t0, fs.masterRepo, fs.usersRepo, s), d)) ==> Gone(t, d)))
    }

    /** The "handle change in notebook folder enabled status" step of
        updateProject for the project named `systemName`. */
    method ChangeNotebookFolder(systemName: string, was: bool, now: bool, activeUser: string) returns (r: Outcome)
      requires Valid()
      modifies fs.tracking, fs.tracking.disk
      ensures Valid()
      ensures FolderChanged(old(Nodes()), Nodes(), old(Tracked()), Tracked(), systemName, was, now, activeUser, r)
    {
      r := Done;
      if now != was {
        if !was && now {
          r := EnsureProjectRepo(systemName, true, activeUser);
        } else if was && !now {
          r := fs.DeleteAllProjectRepos(systemName);
        }
      }
    }

    /** updateProject: the project with the REST object's system name is
        found; a notebook folder that becomes enabled gets the master
        repository and the active user's mount, one that becomes disabled
        loses all project repositories; then the six fields are copied and
        the identifier is filled in. */
    method UpdateProject(rest: RestProject, activeUser: string) returns (r: Outcome)
      requires Valid()
      modifies fs.tracking, fs.tracking.disk, rest, provider.projects
      ensures Valid()
      ensures (forall p :: p in provider.projects ==> old(p.systemName) != rest.systemName) ==>
                r == Failed(ProjectManager) && Nodes() == old(Nodes()) && Tracked() == old(Tracked())
                && rest.id == old(rest.id) && forall p :: p in provider.projects ==> DomainFields(p) == old(DomainFields(p))
      ensures RestFields(rest) == old(RestFields(rest))
      ensures forall p :: p in provider.projects && old(p.systemName) == rest.systemName ==>
                FolderChanged(old(Nodes()), Nodes(), old(Tracked()), Tracked(), rest.systemName,
                              old(p.notebookFolderEnabled), rest.notebookFolderEnabled, activeUser, r)
                && (r.Done? ==> DomainFields(p) == RestFields(rest) && rest.id == Some(p.id))
                && (r.Failed? ==> DomainFields(p) == old(DomainFields(p)) && rest.id == old(rest.id))
      ensures forall p :: p in provider.projects && old(p.systemName) != rest.systemName ==> DomainFields(p) == old(DomainFields(p))
    {
      var found := provider.FindProjectByName(rest.systemName);
      if found.None? {
        return Failed(ProjectManager);
      }
      var domain := found.value;
      r := ChangeNotebookFolder(domain.systemName, domain.notebookFolderEnabled, rest.notebookFolderEnabled, activeUser);
      if r.Failed? {
        return;
      }
      var updated := RestToDomain(rest, domain);
      rest.id := Some(updated.id);
      return Done;
    }

    /** deleteProject: the project with the identifier is found; when its
        notebook folder is enabled all its repositories are deleted first;
        then the record goes. */
    method DeleteProject(id: string) returns (r: Outcome)
      requires Valid()
      modifies fs.tracking, fs.tracking.disk, provider
      ensures Valid()
      ensures (forall p :: p in old(provider.projects) ==> p.id != id) ==>
                r == Failed(ProjectManager) && Nodes() == old(Nodes()) && Tracked() == old(Tracked())
                && provider.projects == old(provider.projects)
      ensures forall p :: p in old(provider.projects) && p.id == id ==>
                (!p.notebookFolderEnabled ==>
                   r == Done && Nodes() == old(Nodes()) && Tracked() == old(Tracked())
                   && provider.projects == old(provider.projects) - {p})
                && (p.notebookFolderEnabled ==>
                      OnlyRemoved(old(Nodes()), Nodes())
                      && Tracked() == old(Tracked()) + (old(Nodes()).Keys - Nodes().Keys)
                      && (Listable(old(Nodes()), fs.masterRepo) ==>
                            r == Done && provider.projects == old(provider.projects) - {p})
                      && (!Listable(old(Nodes()), fs.masterRepo) ==>
                            r == Failed(NullPointer) && provider.projects == old(provider.projects)))
    {
      var found := provider.FindById(id);
      if found.None? {
        return Failed(ProjectManager);
      }
      var domain := found.value;
      if domain.notebookFolderEnabled {
        r := fs.DeleteAllProjectRepos(domain.systemName);
        if r.Failed? {
          return;
        }
      }
      provider.DeleteProject(domain);
      return Done;
    }

    /** The role-change listener's userGrantedRole: ensureProjectRepo for
        the project, then the mount of the project for the granted user. An
        unknown identifier gives a null project and NullPointerException. */
    method UserGrantedRole(user: string, projectId: string, activeUser: string) returns (r: Outcome)
      requires Valid()
      modifies fs.tracking, fs.tracking.disk
      ensures Valid()
      ensures (forall p :: p in provider.projects ==> p.id != projectId) ==>
                r == Failed(NullPointer) && Nodes() == old(Nodes()) && Tracked() == old(Tracked())
      ensures OnlyAdded(old(Nodes()), Nodes())
      ensures Tracked() == old(Tracked()) + (Nodes().Keys - old(Nodes()).Keys)
      ensures forall p :: p in provider.projects && p.id == projectId ==>
                Granted(old(Nodes()), Nodes(), user, activeUser, p.systemName, p.notebookFolderEnabled, r)
    {
      var found := provider.FindById(projectId);
      if found.None? {
        return Failed(NullPointer);
      }
      var project := found.value;
      r := GrantProject(user, activeUser, project.systemName, project.notebookFolderEnabled);
    }

    /** What granting `user` a role on the project named `s` does to the
        disk (`t0` to `t`): on success the master repository and the user's
        mount are there, and the active user's mount when the notebook
        folder is `enabled`; it succeeds when the master repository can be
        ensured and the mounts made in full, the active user's first. */
    ghost predicate Granted(t0: Tree, t: Tree, user: string, activeUser: string, s: string, enabled: bool, r: Outcome)
    {
      (r.Done? ==>
         IsDir(t, fs.masterRepo + [s]) && IsDir(t, fs.usersRepo + [user] + [s])
         && (enabled ==> IsDir(t, fs.usersRepo + [activeUser] + [s]))
         && MasterEnsurable(t0, s))
      && ((!Comparable(fs.masterRepo, fs.usersRepo) && MasterEnsurable(t0, s) && MountEnsurable(t0, user, s)
           && (enabled ==> user != activeUser && MountEnsurable(t0, activeUser, s))) ==> r == Done)
    }

    /** userGrantedRole once the project is found. */
    method GrantProject(user: string, activeUser: string, s: string, enabled: bool) returns (r: Outcome)
      requires Valid()
      modifies fs.tracking, fs.tracking.disk
      ensures Valid()
      ensures OnlyAdded(old(Nodes()), Nodes())
      ensures Tracked() == old(Tracked()) + (Nodes().Keys - old(Nodes()).Keys)
      ensures Granted(old(Nodes()), Nodes(), user, activeUser, s, enabled, r)
    {
      ghost var t0 := Nodes();
      r := EnsureProjectRepo(s, enabled, activeUser);
      if r.Failed? {
        return;
      }
      ghost var t1 := Nodes();
      if !Comparable(fs.masterRepo, fs.usersRepo) && MasterEnsurable(t0, s) && MountEnsurable(t0, user, s)
         && (enabled ==> user != activeUser && MountEnsurable(t0, activeUser, s)) {
        GrantedApart(t0, t1, user, activeUser, s, enabled);
      }
      r := fs.EnsureProjectMounts(user, [s]);
      assert [s][0] == s;
      if r.Done? {
        assert fs.masterRepo + [s] in t1;
        if enabled {
          assert fs.usersRepo + [activeUser] + [s] in t1;
        }
      }
    }

    /** What ensureProjectRepo adds, the master project directory and the
        active user's mount, lies apart from the granted user's mount. */
    lemma GrantedApart(t0: Tree, t1: Tree, user: string, activeUser: string, s: string, enabled: bool)
      requires WellFormed(t0) && OnlyAdded(t0, t1) && !Comparable(fs.masterRepo, fs.usersRepo)
      requires forall x :: x in t1 && x !in t0 ==>
                 x == fs.masterRepo + [s] || (enabled && fs.usersRepo + [activeUser] <= x)
      requires MountEnsurable(t0, user, s)
      requires enabled ==> user != activeUser && MountEnsurable(t0, activeUser, s)
      ensures MountEnsurable(t1, user, s)
    {
      var o := fs.MountObj(user, s);
      forall x | x in t1 && x !in t0
        ensures !Comparable(x, o.RepoWithUser()) && !Comparable(x, o.repoUrl + [o.projectName])
      {
        if x == fs.masterRepo + [s] {
          ExtensionsApart(fs.masterRepo, fs.usersRepo, [s], [user]);
          ExtensionsApart(fs.masterRepo, fs.usersRepo, [s], [s]);
        } else {
          assert fs.usersRepo + [user] + [] == fs.usersRepo + [user];
          assert fs.usersRepo + [s] + [] == fs.usersRepo + [s];
          NamesApart(fs.usersRepo, activeUser, user, x, []);
          NamesApart(fs.usersRepo, activeUser, s, x, []);
        }
      }
      MountCleanKept(t0, t1, o, fs.tracking.disk.hardLinks);
    }

    /** The role-change listener's userRevokedRole as written: deleteProjectRepo
        always throws, so every revocation fails and nothing is deleted. */
    method UserRevokedRole(user: string, projectId: string) returns (r: Outcome)
      requires Valid()
      modifies fs.tracking, fs.tracking.disk
      ensures Valid()
      ensures r.Failed? && Nodes() == old(Nodes()) && Tracked() == old(Tracked())
      ensures (forall p :: p in provider.projects ==> p.id != projectId) ==> r == Failed(NullPointer)
      ensures Accessible(old(Nodes()), fs.usersRepo) ==> r == Failed(NullPointer)
    {
      var found := provider.FindById(projectId);
      if found.None? {
        return Failed(NullPointer);
      }
      r := fs.DeleteProjectRepo(user, found.value.systemName);
    }

    /** The role-change listener's userRevokedRole, with the corrected
        deleteProjectRepo: the revoked user's readWrite tree is removed. */
    method UserRevokedRoleCorrected(user: string, projectId: string) returns (r: Outcome)
      requires Valid()
      modifies fs.tracking, fs.tracking.disk
      ensures Valid()
      ensures (forall p :: p in provider.projects ==> p.id != projectId) ==>
                r == Failed(NullPointer) && Nodes() == old(Nodes()) && Tracked() == old(Tracked())
      ensures forall p :: p in provider.projects && p.id == projectId ==>
                var dir := fs.MountObj(user, p.systemName).ProjectPath().value;
                (!Accessible(old(Nodes()), fs.usersRepo) ==> r == Failed(IllegalArgument) && Nodes() == old(Nodes()))
                && (Accessible(old(Nodes()), fs.usersRepo) ==>
                      RemovedUnder(old(Nodes()), Nodes(), dir, old(Tracked()), Tracked())
                      && (!IsRegularOrOther(old(Nodes()), dir) ==> r == Done)
                      && (Removable(old(Nodes()), dir) && !IsRegularOrOther(old(Nodes()), dir) ==> Gone(Nodes(), dir)))
    {
      var found := provider.FindById(projectId);
      if found.None? {
        return Failed(NullPointer);
      }
      r := fs.DeleteProjectRepoCorrected(user, found.value.systemName);
    }
  }
}
