// NotebookFileSystemServiceImpl: provisioning of the master repository and
// of a user's project mounts, and the removal of a project's repositories.

module FileSystemService {
  import opened Wrappers
  import opened FsModel
  import opened Tracking
  import opened FsObjects
  import opened RepoObjUtils
  import opened RepoObjService

  /** File.getName(): the last name of a path. */
  function Name(p: Path): string
    requires p != []
  {
    p[|p| - 1]
  }

  /** listFiles() returns an array (and not null): a directory it may read. */
  predicate Listable(t: Tree, d: Path) {
    IsDir(t, d) && t[d].perm.read
  }

  /** The directories deleteAllProjectRepos removes for project `s`: the
      directory masterRepo/s and every directory usersRepo/u/s. */
  function ProjectRepoDirs(t: Tree, masterRepo: Path, usersRepo: Path, s: string): set<Path> {
    (if IsDir(t, masterRepo + [s]) then {masterRepo + [s]} else {})
    + (if Listable(t, usersRepo) then
         set p | p in t && IsDir(t, p) && |p| == |usersRepo| + 2 && usersRepo <= p && Name(p) == s
       else {})
  }

  /** No other directory of `ds` lies above or below `d`. */
  predicate Apart(ds: set<Path>, d: Path) {
    forall e :: e in ds && e != d ==> !Comparable(d, e)
  }

  /** The master directory `masterRepo.listFiles(filter)` selects. */
  function MasterMatches(t: Tree, masterRepo: Path, s: string): set<Path> {
    set q | q in Children(t, masterRepo) && IsDir(t, q) && Name(q) == s
  }

  /** The user directories the `usersRepo.listFiles` callback collects. */
  function UserMatches(t: Tree, usersRepo: Path, s: string): set<Path> {
    if Listable(t, usersRepo) then set u | u in Children(t, usersRepo) && IsDir(t, u + [s]) :: u + [s] else {}
  }

  /** The master listing selects masterRepo/s when it is a directory. */
  lemma MasterListing(t: Tree, masterRepo: Path, s: string)
    ensures MasterMatches(t, masterRepo, s) == if IsDir(t, masterRepo + [s]) then {masterRepo + [s]} else {}
  {
    var m := MasterMatches(t, masterRepo, s);
    forall q | q in m
      ensures q == masterRepo + [s]
    {
      assert q == Dirname(q) + [Name(q)];
    }
    if IsDir(t, masterRepo + [s]) {
      assert Dirname(masterRepo + [s]) == masterRepo;
      assert masterRepo + [s] in m;
    }
  }

  /** The users' listing selects every directory usersRepo/u/s. */
  lemma UserListing(t: Tree, usersRepo: Path, s: string)
    requires WellFormed(t) && Listable(t, usersRepo)
    ensures UserMatches(t, usersRepo, s)
            == set p | p in t && IsDir(t, p) && |p| == |usersRepo| + 2 && usersRepo <= p && Name(p) == s
  {
    var a := UserMatches(t, usersRepo, s);
    var b := set p | p in t && IsDir(t, p) && |p| == |usersRepo| + 2 && usersRepo <= p && Name(p) == s;
    forall p | p in a
      ensures p in b
    {
      var u :| u in Children(t, usersRepo) && IsDir(t, u + [s]) && p == u + [s];
      assert Dirname(u) == usersRepo;
      assert u == usersRepo + [Name(u)];
    }
    forall p | p in b
      ensures p in a
    {
      var u := Dirname(p);
      assert IsDir(t, u);
      assert u == p[..|usersRepo| + 1];
      assert Dirname(u) == usersRepo;
      assert u in Children(t, usersRepo);
      assert p == u + [s];
    }
  }

  /** The two listings together select exactly the project's directories. */
  lemma ListingsSelectProjectDirs(t: Tree, masterRepo: Path, usersRepo: Path, s: string)
    requires WellFormed(t)
    ensures MasterMatches(t, masterRepo, s) + UserMatches(t, usersRepo, s) == ProjectRepoDirs(t, masterRepo, usersRepo, s)
  {
    MasterListing(t, masterRepo, s);
    if Listable(t, usersRepo) {
      UserListing(t, usersRepo, s);
    }
  }

  /** Paths that part somewhere stay apart whatever follows them. */
  lemma ExtensionsApart(a: Path, b: Path, x: Path, y: Path)
    requires !Comparable(a, b)
    ensures !Comparable(a + x, b + y)
  {
    var n := if |a| <= |b| then |a| else |b|;
    assert a[..n] != b[..n];
    var k :| 0 <= k < n && a[k] != b[k];
    assert (a + x)[k] == a[k] && (b + y)[k] == b[k];
  }

  /** With the two repository roots apart, every project directory is apart
      from the others, so each deletion leaves the others untouched. */
  lemma RootsApart(t: Tree, masterRepo: Path, usersRepo: Path, s: string, d: Path)
    requires !Comparable(masterRepo, usersRepo)
    requires d in ProjectRepoDirs(t, masterRepo, usersRepo, s)
    ensures Apart(ProjectRepoDirs(t, masterRepo, usersRepo, s), d)
  {
    var ds := ProjectRepoDirs(t, masterRepo, usersRepo, s);
    forall e | e in ds && e != d
      ensures !Comparable(d, e)
    {
      if d == masterRepo + [s] {
        assert e == usersRepo + e[|usersRepo|..];
        ExtensionsApart(masterRepo, usersRepo, [s], e[|usersRepo|..]);
      } else if e == masterRepo + [s] {
        assert d == usersRepo + d[|usersRepo|..];
        ExtensionsApart(usersRepo, masterRepo, d[|usersRepo|..], [s]);
      } else {
        assert |d| == |e|;
      }
    }
  }

  /** A deletion confined below directories apart from `d` leaves `d`
      removable. */
  lemma RemovableKept(t0: Tree, t: Tree, done: set<Path>, d: Path)
    requires OnlyRemoved(t0, t) && Removable(t0, d)
    requires forall p :: p in t0 && (forall e :: e in done ==> !(e <= p)) ==> p in t
    requires forall e :: e in done ==> !Comparable(d, e)
    ensures Removable(t, d)
  {
    var up := Dirname(d);
    forall e | e in done
      ensures !(e <= up)
    {
      assert !(e <= d);
    }
    assert up in t;
    forall q | q in t && d <= q && t[q].kind.Directory?
      ensures Accessible(t, q)
    {
      assert Accessible(t0, q);
    }
  }

  /** Mirrored, readable and present source trees agree in two trees that
      share every entry at or below `src`. */
  lemma SameBelow(t0: Tree, t1: Tree, src: Path, dest: Path, posix: bool, t: Tree)
    requires OnlyAdded(t0, t1) && forall x :: x in t1 && x !in t0 ==> !(src <= x)
    ensures IsDir(t1, src) <==> IsDir(t0, src)
    ensures ReadableDirs(t0, src) ==> ReadableDirs(t1, src)
    ensures Mirrored(t1, src, dest, posix, t, src) ==> Mirrored(t0, src, dest, posix, t, src)
  {
    if Mirrored(t1, src, dest, posix, t, src) {
      forall q | q in t0 && src <= q
        ensures MirroredEntry(t0, src, dest, posix, t, q)
      {
        assert MirroredEntry(t1, src, dest, posix, t, q);
      }
    }
  }

  /** What mounting `o` needs to mirror its replication source completely:
      the user's directories are usable where they exist, the source is
      ready to be replicated into the missing access directory, and neither
      the user name nor the access segment is the project name. */
  ghost predicate MountClean(t: Tree, o: UserFsObj, hardLinks: bool) {
    o.accessType.Some? && PresentOk(t, o.RepoWithUser()) && PresentOk(t, o.RepoWithProject())
    && CleanCase(t, o.repoUrl + [o.projectName], o.ProjectPath().value, hardLinks)
    && o.projectName != o.userName && o.projectName != o.accessType.value
  }

  /** Every new non-directory of `t` lies below `dest` and is a hard link
      to the regular file of `t0` at the matching place below `src`. */
  ghost predicate LinksFrom(t0: Tree, t: Tree, src: Path, dest: Path) {
    forall x :: x in t && x !in t0 && !t[x].kind.Directory? ==>
      dest <= x && IsRegular(t0, src + x[|dest|..]) && t[x] == t0[src + x[|dest|..]]
  }

  /** Without an entry at the replication source no hard link is made. */
  lemma NoSourceNoLinks(t0: Tree, t: Tree, src: Path, dest: Path)
    requires WellFormed(t0) && src !in t0 && LinksFrom(t0, t, src, dest)
    ensures forall x :: x in t && x !in t0 ==> t[x].kind.Directory?
  {
    forall x | x in t && x !in t0
      ensures t[x].kind.Directory?
    {
      if !t[x].kind.Directory? {
        PrefixPresent(t0, src + x[|dest|..], src);
      }
    }
  }

  /** After ensureProject in the clean case, the replication source is
      untouched and ready to be replicated into the access directory. */
  lemma MountReady(t0: Tree, t1: Tree, o: UserFsObj, hardLinks: bool)
    requires WellFormed(t0) && OnlyAdded(t0, t1) && MountClean(t0, o, hardLinks)
    requires forall x :: x in t1 && x !in t0 ==> x == o.RepoWithUser() || x == o.RepoWithProject()
    requires IsDir(t1, o.RepoWithUser()) && Accessible(t1, o.RepoWithUser())
    ensures forall x :: x in t1 && x !in t0 ==> !(o.repoUrl + [o.projectName] <= x)
    ensures CleanCase(t1, o.repoUrl + [o.projectName], o.ProjectPath().value, hardLinks)
  {
    var source, projPath, user := o.repoUrl + [o.projectName], o.ProjectPath().value, o.RepoWithUser();
    assert projPath == user + [o.accessType.value];
    forall x | x in t1 && x !in t0
      ensures !(source <= x)
    {
      assert x[|o.repoUrl|] == o.userName;
    }
    SameBelow(t0, t1, source, projPath, false, t1);
    assert Dirname(projPath) == user;
    forall q | q in t1
      ensures !(projPath <= q)
    {
      if q !in t0 {
        assert |q| <= |user| || q[|user|] != o.accessType.value;
      }
    }
    CreatableUnderParent(t1, projPath);
  }

  /** The first existing entry met climbing from `p` is the same in two
      trees that hold the same prefixes of `p`. */
  lemma {:induction false} ClimbAgrees(t0: Tree, t1: Tree, p: Path)
    requires forall k :: 0 <= k <= |p| ==> (p[..k] in t0 <==> p[..k] in t1)
    ensures Climb(t0, Some(p)) == Climb(t1, Some(p))
    decreases |p|
  {
    assert p[..|p|] == p;
    if p !in t0 && p != [] {
      var up := p[..|p| - 1];
      forall k | 0 <= k <= |up|
        ensures up[..k] in t0 <==> up[..k] in t1
      {
        assert up[..k] == p[..k];
      }
      ClimbAgrees(t0, t1, up);
    }
  }

  /** Entries added apart from the user's directory and from the
      replication source leave a clean mount clean. */
  lemma MountCleanKept(t0: Tree, t1: Tree, o: UserFsObj, hardLinks: bool)
    requires WellFormed(t0) && OnlyAdded(t0, t1) && MountClean(t0, o, hardLinks)
    requires forall x :: x in t1 && x !in t0 ==>
               !Comparable(x, o.RepoWithUser()) && !Comparable(x, o.repoUrl + [o.projectName])
    ensures MountClean(t1, o, hardLinks)
  {
    var source, dest, user := o.repoUrl + [o.projectName], o.ProjectPath().value, o.RepoWithUser();
    assert dest == user + [o.accessType.value];
    assert o.RepoWithProject() == user + [o.projectName];
    assert forall x :: x in t1 && x !in t0 ==> !(user <= x);
    forall q | q in t1 && source <= q
      ensures q in t0
    {
    }
    assert ReadableDirs(t1, source);
    forall q | q in t1
      ensures !(dest <= q)
    {
      if q in t0 {
        assert !(dest <= q);
      }
    }
    forall k | 0 <= k < |dest|
      ensures dest[..k] in t0 <==> dest[..k] in t1
    {
      assert dest[..k] == user[..k];
    }
    var up := dest[..|dest| - 1];
    forall k | 0 <= k <= |up|
      ensures up[..k] in t0 <==> up[..k] in t1
    {
      assert up[..k] == dest[..k];
    }
    ClimbAgrees(t0, t1, up);
    assert NearestAncestor(t1, dest) == NearestAncestor(t0, dest);
  }

  /** Two directories that part below a common root part again below it. */
  lemma NamesApart(root: Path, a: string, b: string, x: Path, y: Path)
    requires a != b && root + [a] <= x
    ensures !Comparable(x, root + [b] + y)
  {
    assert (root + [a])[|root|] == a && (root + [b])[|root|] == b;
    ExtensionsApart(root + [a], root + [b], x[|root| + 1..], y);
    assert x == root + [a] + x[|root| + 1..];
  }

  /** What the replication adds into user + [n] lies at or below it. */
  lemma ReplicaFrame(t1: Tree, t2: Tree, src: Path, user: Path, n: string)
    requires WellFormed(t1) && user in t1 && OnlyReplicas(t1, src, user + [n], t1, t2)
    ensures forall x :: x in t2 && x !in t1 ==> user + [n] <= x
  {
    forall x | x in t2 && x !in t1
      ensures user + [n] <= x
    {
      assert Replica(t1, src, user + [n], t2, x);
      if !(user + [n] <= x) {
        NewOnTheWay(t1, user, n, x);
      }
    }
  }

  /** The replication's new regular entries are hard links to files that
      were already there before the directories were ensured. */
  lemma ReplicaLinks(t0: Tree, t1: Tree, t2: Tree, src: Path, dest: Path)
    requires OnlyAdded(t0, t1) && forall x :: x in t1 && x !in t0 ==> t1[x].kind.Directory?
    requires OnlyAdded(t1, t2) && OnlyReplicas(t1, src, dest, t1, t2)
    ensures LinksFrom(t0, t2, src, dest)
  {
    forall x | x in t2 && x !in t0 && !t2[x].kind.Directory?
      ensures dest <= x && IsRegular(t0, src + x[|dest|..]) && t2[x] == t0[src + x[|dest|..]]
    {
      assert Replica(t1, src, dest, t2, x);
    }
  }

  class NotebookFileSystemServiceImpl {
    /** notebooks.master.repository */
    const masterRepo: Path
    /** notebooks.users.repository */
    const usersRepo: Path
    const service: NotebookRepoObjService
    const tracking: TrackingUtils
    const utils: NotebookRepoObjUtils

    ghost predicate Valid()
      reads tracking, tracking.disk
    {
      service.tracking == tracking && service.utils == utils && utils.tracking == tracking && tracking.Valid()
    }

    function Nodes(): Tree
      reads tracking.disk
    {
      tracking.disk.nodes
    }

    constructor (masterRepo: Path, usersRepo: Path, service: NotebookRepoObjService)
      requires service.Valid()
      ensures Valid() && this.masterRepo == masterRepo && this.usersRepo == usersRepo
      ensures this.service == service && tracking == service.tracking && utils == service.utils
    {
      this.masterRepo := masterRepo;
      this.usersRepo := usersRepo;
      this.service := service;
      tracking := service.tracking;
      utils := service.utils;
    }

    /** The object ensureProjectMounts builds for a project: write access,
        no file-system object. */
    function MountObj(userName: string, project: string): UserFsObj {
      UserFsObj(usersRepo, userName, Some(AccessSegment(Write)), project, None)
    }

    /** ensureMasterProjectRepository: masterRepo and masterRepo/project are
        usable directories afterwards, and masterRepo/project is returned. */
    method EnsureMasterProjectRepository(project: string) returns (r: Result<Path>)
      requires Valid()
      modifies tracking, tracking.disk
      ensures Valid()
      ensures !Accessible(old(Nodes()), masterRepo) ==>
                r == Err(IllegalArgument) && Nodes() == old(Nodes()) && tracking.tracked == old(tracking.tracked)
      ensures r.Ok? <==> Accessible(old(Nodes()), masterRepo) && IsDir(old(Nodes()), masterRepo)
                         && PresentOk(old(Nodes()), masterRepo + [project])
      ensures r.Ok? ==> r.value == masterRepo + [project] && IsDir(Nodes(), masterRepo)
                        && IsDir(Nodes(), r.value) && Accessible(Nodes(), r.value)
      ensures r.Err? ==> r.error in {IllegalArgument, Runtime, NotebookIo}
      ensures OnlyAdded(old(Nodes()), Nodes())
      ensures forall x :: x in Nodes() && x !in old(Nodes()) ==> x == masterRepo + [project]
      ensures tracking.tracked == old(tracking.tracked) + (Nodes().Keys - old(Nodes()).Keys)
    {
      var built := BuildMasterRepoFsObj(Nodes(), masterRepo, project, None);
      if built.Err? {
        return Err(built.error);
      }
      var m := built.value;
      var ensured := service.Ensure(m);
      forall x | x in Nodes() && x !in old(Nodes())
        ensures x == masterRepo + [project]
      {
        NewOnTheWay(old(Nodes()), masterRepo, project, x);
      }
      if ensured.Failed? {
        return Err(ensured.error);
      }
      return Ok(m.RepoWithProjectPath());
    }

    /** One round of the loop of ensureProjectMounts: ensure the project's
        directories, then replicate getRepoWithProjectPath of
        toMasterRepoFsObj() (the users' root followed by the project) into
        getProjectPath (repo/user/access). */
    method MountProject(o: UserFsObj) returns (r: Outcome)
      requires Valid() && Accessible(Nodes(), o.repoUrl) && o.accessType.Some?
      modifies tracking, tracking.disk
      ensures Valid()
      ensures r.Failed? ==> r.error == Runtime || r.error == NotebookIo
      ensures r.Done? ==> IsDir(Nodes(), o.RepoWithUser()) && Accessible(Nodes(), o.RepoWithUser())
                          && IsDir(Nodes(), o.RepoWithProject()) && Accessible(Nodes(), o.RepoWithProject())
      ensures OnlyAdded(old(Nodes()), Nodes())
      ensures tracking.tracked == old(tracking.tracked) + (Nodes().Keys - old(Nodes()).Keys)
      ensures forall x :: x in Nodes() && x !in old(Nodes()) ==>
                x == o.RepoWithUser() || x == o.RepoWithProject() || o.ProjectPath().value <= x
      ensures LinksFrom(old(Nodes()), Nodes(), o.repoUrl + [o.projectName], o.ProjectPath().value)
      ensures MountClean(old(Nodes()), o, tracking.disk.hardLinks) ==>
                r == Done && Mirrored(old(Nodes()), o.repoUrl + [o.projectName], o.ProjectPath().value,
                                      tracking.disk.posix, Nodes(), o.repoUrl + [o.projectName])
    {
      ghost var t0 := Nodes();
      var projPath := o.ProjectPath().value;
      var user := o.RepoWithUser();
      assert projPath == user + [o.accessType.value] && o.RepoWithProject() == user + [o.projectName];
      ghost var source := o.repoUrl + [o.projectName];
      if MountClean(t0, o, tracking.disk.hardLinks) {
        assert Dirname(source) == o.repoUrl;
        assert IsDir(t0, o.repoUrl);
      }
      var ensured := service.EnsureProject(o);
      ghost var t1, tr1 := Nodes(), tracking.tracked;
      forall x | x in t1 && x !in t0
        ensures x == user || x == o.RepoWithProject()
      {
        if |x| <= |user| {
          assert x == o.RepoWithProject()[..|x|];
          assert x <= user;
          NewOnTheWay(t0, o.repoUrl, o.userName, x);
        } else {
          assert x == o.RepoWithProject();
        }
      }
      if ensured.Failed? {
        return ensured;
      }
      var master := o.ToMasterRepoFsObj(Nodes());
      if master.Err? {
        assert false;
        return Failed(IllegalArgument);
      }
      var masterProjPath := master.value.RepoWithProjectPath();
      assert masterProjPath == source;
      if MountClean(t0, o, tracking.disk.hardLinks) {
        MountReady(t0, t1, o, tracking.disk.hardLinks);
      }
      r := utils.ReplicateFileTreeWithHardLinks(masterProjPath, projPath, false);
      ReplicaFrame(t1, Nodes(), source, user, o.accessType.value);
      ReplicaLinks(t0, t1, Nodes(), source, projPath);
      if MountClean(t0, o, tracking.disk.hardLinks) {
        SameBelow(t0, t1, source, projPath, tracking.disk.posix, Nodes());
      }
      TrackedAdded(old(tracking.tracked), tr1, tracking.tracked, t0, t1, Nodes());
      assert user in t1 && o.RepoWithProject() in t1;
    }

    /** ensureProjectMounts: for each project in list order, with write
        access, the mount of that project. */
    method EnsureProjectMounts(userName: string, projects: seq<string>) returns (r: Outcome)
      requires Valid()
      modifies tracking, tracking.disk
      ensures Valid()
      ensures projects == [] ==> r == Done && Nodes() == old(Nodes()) && tracking.tracked == old(tracking.tracked)
      ensures projects != [] && !Accessible(old(Nodes()), usersRepo) ==>
                r == Failed(IllegalArgument) && Nodes() == old(Nodes()) && tracking.tracked == old(tracking.tracked)
      ensures r.Failed? ==> r.error in {IllegalArgument, Runtime, NotebookIo}
      ensures r.Done? ==> forall j :: 0 <= j < |projects| ==>
                IsDir(Nodes(), usersRepo + [userName] + [projects[j]])
                && Accessible(Nodes(), usersRepo + [userName] + [projects[j]])
      ensures OnlyAdded(old(Nodes()), Nodes())
      ensures tracking.tracked == old(tracking.tracked) + (Nodes().Keys - old(Nodes()).Keys)
      ensures forall x :: x in Nodes() && x !in old(Nodes()) ==> usersRepo + [userName] <= x
      ensures |projects| == 1 ==>
                LinksFrom(old(Nodes()), Nodes(), usersRepo + [projects[0]], usersRepo + [userName] + ["readWrite"])
      ensures |projects| == 1 && Accessible(old(Nodes()), usersRepo)
              && MountClean(old(Nodes()), MountObj(userName, projects[0]), tracking.disk.hardLinks) ==>
                r == Done && Mirrored(old(Nodes()), usersRepo + [projects[0]], usersRepo + [userName] + ["readWrite"],
                                      tracking.disk.posix, Nodes(), usersRepo + [projects[0]])
    {
      ghost var t0 := Nodes();
      var i := 0;
      while i < |projects|
        invariant 0 <= i <= |projects|
        invariant Valid()
        invariant OnlyAdded(t0, Nodes())
        invariant tracking.tracked == old(tracking.tracked) + (Nodes().Keys - t0.Keys)
        invariant i > 0 ==> Accessible(t0, usersRepo)
        invariant forall x :: x in Nodes() && x !in t0 ==> usersRepo + [userName] <= x
        invariant forall j :: 0 <= j < i ==>
                    IsDir(Nodes(), usersRepo + [userName] + [projects[j]])
                    && Accessible(Nodes(), usersRepo + [userName] + [projects[j]])
        invariant i == 0 ==> Nodes() == t0 && tracking.tracked == old(tracking.tracked)
        invariant |projects| == 1 && i == 1 ==>
                    LinksFrom(t0, Nodes(), usersRepo + [projects[0]], usersRepo + [userName] + ["readWrite"])
                    && (MountClean(t0, MountObj(userName, projects[0]), tracking.disk.hardLinks) ==>
                          Mirrored(t0, usersRepo + [projects[0]], usersRepo + [userName] + ["readWrite"],
                                   tracking.disk.posix, Nodes(), usersRepo + [projects[0]]))
      {
        var built := BuildUserFsObj(Nodes(), usersRepo, userName, Some(Write), projects[i], None);
        if built.Err? {
          return Failed(built.error);
        }
        var o := built.value;
        assert o == MountObj(userName, projects[i]);
        ghost var tb := Nodes();
        var mounted := MountProject(o);
        if mounted.Failed? {
          return mounted;
        }
        forall x | x in Nodes() && x !in t0
          ensures usersRepo + [userName] <= x
        {
          if x !in tb {
            assert x == o.RepoWithUser() || x == o.RepoWithProject() || o.ProjectPath().value <= x;
          }
        }
        i := i + 1;
      }
      return Done;
    }

    /** deleteAllProjectRepos: deletes masterRepo/s and every usersRepo/u/s
        that is a directory; a failure is logged and the others are still
        deleted. A master repository that cannot be listed makes listFiles
        return null, and the set built from it raises NullPointerException. */
    method DeleteAllProjectRepos(systemName: string) returns (r: Outcome)
      requires Valid()
      modifies tracking, tracking.disk
      ensures Valid()
      ensures !Listable(old(Nodes()), masterRepo) ==>
                r == Failed(NullPointer) && Nodes() == old(Nodes()) && tracking.tracked == old(tracking.tracked)
      ensures Listable(old(Nodes()), masterRepo) ==> r == Done
      ensures OnlyRemoved(old(Nodes()), Nodes())
      ensures tracking.tracked == old(tracking.tracked) + (old(Nodes()).Keys - Nodes().Keys)
      ensures forall p :: p in old(Nodes()) &&
                (forall d :: d in ProjectRepoDirs(old(Nodes()), masterRepo, usersRepo, systemName) ==> !(d <= p))
                ==> p in Nodes()
      ensures forall d :: Listable(old(Nodes()), masterRepo) && d in ProjectRepoDirs(old(Nodes()), masterRepo, usersRepo, systemName)
                && Removable(old(Nodes()), d) && Apart(ProjectRepoDirs(old(Nodes()), masterRepo, usersRepo, systemName), d)
                ==> Gone(Nodes(), d)
    {
      var t := Nodes();
      if !Listable(t, masterRepo) {
        return Failed(NullPointer);
      }
      var removeDirs := MasterMatches(t, masterRepo, systemName);
      removeDirs := removeDirs + UserMatches(t, usersRepo, systemName);
      ListingsSelectProjectDirs(t, masterRepo, usersRepo, systemName);
      DeleteEach(removeDirs);
      return Done;
    }

    /** The loop of deleteAllProjectRepos: deleteDirectory on each collected
        directory in the set's order, an IOException logged and skipped. */
    method DeleteEach(removeDirs: set<Path>)
      requires Valid()
      requires forall d :: d in removeDirs ==> IsDir(Nodes(), d)
      modifies tracking, tracking.disk
      ensures Valid()
      ensures OnlyRemoved(old(Nodes()), Nodes())
      ensures tracking.tracked == old(tracking.tracked) + (old(Nodes()).Keys - Nodes().Keys)
      ensures forall p :: p in old(Nodes()) && (forall d :: d in removeDirs ==> !(d <= p)) ==> p in Nodes()
      ensures forall d :: d in removeDirs && Removable(old(Nodes()), d) && Apart(removeDirs, d) ==> Gone(Nodes(), d)
    {
      ghost var t := Nodes();
      var pending := removeDirs;
      while pending != {}
        invariant pending <= removeDirs
        invariant Valid()
        invariant OnlyRemoved(t, Nodes())
        invariant tracking.tracked == old(tracking.tracked) + (t.Keys - Nodes().Keys)
        invariant forall p :: p in t && (forall d :: d in removeDirs - pending ==> !(d <= p)) ==> p in Nodes()
        invariant forall d :: d in removeDirs - pending && Removable(t, d) && Apart(removeDirs, d) ==> Gone(Nodes(), d)
        decreases |pending|
      {
        var dir :| dir in pending;
        ghost var tb := Nodes();
        ghost var pb := pending;
        if Removable(t, dir) && Apart(removeDirs, dir) {
          RemovableKept(t, Nodes(), removeDirs - pending, dir);
        }
        var deleted := tracking.DeleteDirectory(dir);
        if deleted.Failed? && !IsIOException(deleted.error) {
          assert false;
          return;
        }
        pending := pending - {dir};
        forall p | p in t && (forall d :: d in removeDirs - pending ==> !(d <= p))
          ensures p in Nodes()
        {
          forall d | d in removeDirs - pb
            ensures !(d <= p)
          {
            assert d in removeDirs - pending;
          }
          assert p in tb;
          assert dir in removeDirs - pending;
        }
      }
    }

    /** deleteProjectRepo as written: the object is built without an access
        type, so getProjectPath in deleteProject raises
        NullPointerException and nothing is deleted. */
    method DeleteProjectRepo(userName: string, systemName: string) returns (r: Outcome)
      requires Valid()
      modifies tracking, tracking.disk
      ensures Valid()
      ensures Nodes() == old(Nodes()) && tracking.tracked == old(tracking.tracked)
      ensures r == Failed(if Accessible(old(Nodes()), usersRepo) then NullPointer else IllegalArgument)
    {
      var built := BuildUserFsObj(Nodes(), usersRepo, userName, None, systemName, None);
      if built.Err? {
        return Failed(built.error);
      }
      var deleted := service.DeleteProject(built.value);
      if deleted.Err? {
        return Failed(deleted.error);
      }
      return Done;
    }

    /** deleteProjectRepo with the write access type that ensureProjectMounts
        gives the mount: the user's usersRepo/user/readWrite tree is removed. */
    method DeleteProjectRepoCorrected(userName: string, systemName: string) returns (r: Outcome)
      requires Valid()
      modifies tracking, tracking.disk
      ensures Valid()
      ensures !Accessible(old(Nodes()), usersRepo) ==>
                r == Failed(IllegalArgument) && Nodes() == old(Nodes()) && tracking.tracked == old(tracking.tracked)
      ensures Accessible(old(Nodes()), usersRepo) ==>
                var dir := MountObj(userName, systemName).ProjectPath().value;
                RemovedUnder(old(Nodes()), Nodes(), dir, old(tracking.tracked), tracking.tracked)
                && (!IsRegularOrOther(old(Nodes()), dir) ==> r == Done)
                && (r.Failed? ==> r.error == IllegalArgument)
                && (Removable(old(Nodes()), dir) && !IsRegularOrOther(old(Nodes()), dir) ==> Gone(Nodes(), dir))
    {
      var built := BuildUserFsObj(Nodes(), usersRepo, userName, Some(Write), systemName, None);
      if built.Err? {
        return Failed(built.error);
      }
      assert built.value == MountObj(userName, systemName);
      var deleted := service.DeleteProject(built.value);
      if deleted.Err? {
        return Failed(deleted.error);
      }
      return Done;
    }
  }
}
