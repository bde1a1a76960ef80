// NotebookRepoObjService: the directory chains of a project in the users'
// and the master repository, and the removal of a user's project tree.

module RepoObjService {
  import opened Wrappers
  import opened FsModel
  import opened Tracking
  import opened FsObjects
  import opened RepoObjUtils

  /** What ensurePath needs in order to succeed on `p`: an existing `p` is a
      directory the owner may read, write and enter; a missing one can be
      created. */
  predicate Ensurable(t: Tree, p: Path) {
    if p in t then IsDir(t, p) && Accessible(t, p) else CanCreateDirectories(t, p)
  }

  /** An existing `p` is a directory the owner may read, write and enter. */
  predicate PresentOk(t: Tree, p: Path) {
    p in t ==> IsDir(t, p) && Accessible(t, p)
  }

  /** A missing entry whose parent is an accessible directory can be ensured. */
  lemma EnsurableUnder(t: Tree, p: Path)
    requires p != [] && IsDir(t, Dirname(p)) && Accessible(t, Dirname(p))
    ensures PresentOk(t, p) <==> Ensurable(t, p)
  {
    if p !in t {
      CreatableUnderParent(t, p);
    }
  }

  /** In a well-formed tree, a new entry on the way to `a + [n]`, where `a`
      is present, is `a + [n]` itself. */
  lemma NewOnTheWay(t: Tree, a: Path, n: string, x: Path)
    requires WellFormed(t) && a in t && x !in t && x <= a + [n]
    ensures x == a + [n]
  {
    if |x| <= |a| {
      assert x <= a;
      PrefixPresent(t, a, x);
    }
  }

  class NotebookRepoObjService {
    const tracking: TrackingUtils
    const utils: NotebookRepoObjUtils

    ghost predicate Valid()
      reads tracking, tracking.disk
    {
      utils.tracking == tracking && tracking.Valid()
    }

    function Nodes(): Tree
      reads tracking.disk
    {
      tracking.disk.nodes
    }

    constructor (tracking: TrackingUtils, utils: NotebookRepoObjUtils)
      requires tracking.Valid() && utils.tracking == tracking
      ensures Valid() && this.tracking == tracking && this.utils == utils
    {
      this.tracking := tracking;
      this.utils := utils;
    }

    /** ensureProject: ensures repoUrl, repoUrl/user and repoUrl/user/project
        in that order; the access segment is not part of the chain. */
    method EnsureProject(o: UserFsObj) returns (r: Outcome)
      requires Valid()
      modifies tracking, tracking.disk
      ensures Valid()
      ensures r.Done? <==> Ensurable(old(Nodes()), o.repoUrl) && PresentOk(old(Nodes()), o.RepoWithUser())
                           && PresentOk(old(Nodes()), o.RepoWithProject())
      ensures r.Done? ==> IsDir(Nodes(), o.repoUrl) && Accessible(Nodes(), o.repoUrl)
                          && IsDir(Nodes(), o.RepoWithUser()) && Accessible(Nodes(), o.RepoWithUser())
                          && IsDir(Nodes(), o.RepoWithProject()) && Accessible(Nodes(), o.RepoWithProject())
      ensures r.Failed? ==> r.error == Runtime || r.error == NotebookIo
      ensures OnlyAdded(old(Nodes()), Nodes())
      ensures forall x :: x in Nodes() && x !in old(Nodes()) ==> x <= o.RepoWithProject() && Nodes()[x].kind.Directory?
      ensures tracking.tracked == old(tracking.tracked) + (Nodes().Keys - old(Nodes()).Keys)
      ensures o.accessType.Some? && o.accessType.value != o.projectName ==>
                (o.ProjectPath().value in Nodes() <==> o.ProjectPath().value in old(Nodes()))
    {
      ghost var t0 := Nodes();
      var user, project := o.RepoWithUser(), o.RepoWithProject();
      assert Dirname(user) == o.repoUrl && Dirname(project) == user;
      var e1 := utils.EnsurePath(o.repoUrl);
      if e1.Err? {
        return Failed(e1.error);
      }
      ghost var t1 := Nodes();
      assert user in t1 <==> user in t0;
      EnsurableUnder(t1, user);
      var e2 := utils.EnsurePath(user);
      if e2.Err? {
        return Failed(e2.error);
      }
      ghost var t2 := Nodes();
      assert project in t2 <==> project in t0;
      EnsurableUnder(t2, project);
      var e3 := utils.EnsurePath(project);
      if e3.Err? {
        return Failed(e3.error);
      }
      return Done;
    }

    /** ensure: ensures repoUrl and then repoUrl/project. */
    method Ensure(m: MasterRepoFsObj) returns (r: Outcome)
      requires Valid()
      modifies tracking, tracking.disk
      ensures Valid()
      ensures r.Done? <==> Ensurable(old(Nodes()), m.repoUrl) && PresentOk(old(Nodes()), m.RepoWithProjectPath())
      ensures r.Done? ==> IsDir(Nodes(), m.repoUrl) && Accessible(Nodes(), m.repoUrl)
                          && IsDir(Nodes(), m.RepoWithProjectPath()) && Accessible(Nodes(), m.RepoWithProjectPath())
      ensures r.Failed? ==> r.error == Runtime || r.error == NotebookIo
      ensures OnlyAdded(old(Nodes()), Nodes())
      ensures forall x :: x in Nodes() && x !in old(Nodes()) ==> x <= m.RepoWithProjectPath() && Nodes()[x].kind.Directory?
      ensures tracking.tracked == old(tracking.tracked) + (Nodes().Keys - old(Nodes()).Keys)
    {
      ghost var t0 := Nodes();
      var project := m.RepoWithProjectPath();
      assert Dirname(project) == m.repoUrl;
      var e1 := utils.EnsurePath(m.repoUrl);
      if e1.Err? {
        return Failed(e1.error);
      }
      ghost var t1 := Nodes();
      assert project in t1 <==> project in t0;
      EnsurableUnder(t1, project);
      var e2 := utils.EnsurePath(project);
      if e2.Err? {
        return Failed(e2.error);
      }
      return Done;
    }

    /** deleteProject: removes the tree at getProjectPath (repo/user/access)
        and returns that path. An I/O failure is logged and swallowed; with
        no access type getProjectPath raises NullPointerException. */
    method DeleteProject(o: UserFsObj) returns (r: Result<Path>)
      requires Valid()
      modifies tracking, tracking.disk
      ensures Valid()
      ensures o.accessType.None? ==>
                r == Err(NullPointer) && Nodes() == old(Nodes()) && tracking.tracked == old(tracking.tracked)
      ensures o.accessType.Some? ==>
                var dir := o.ProjectPath().value;
                RemovedUnder(old(Nodes()), Nodes(), dir, old(tracking.tracked), tracking.tracked)
                && (r.Ok? ==> r.value == dir)
                && (r.Err? ==> r.error == IllegalArgument && IsRegularOrOther(old(Nodes()), dir))
                && (!IsRegularOrOther(old(Nodes()), dir) ==> r == Ok(dir))
                && (Removable(old(Nodes()), dir) && !IsRegularOrOther(old(Nodes()), dir) ==> Gone(Nodes(), dir))
                && (dir !in old(Nodes()) ==> Nodes() == old(Nodes()) && tracking.tracked == old(tracking.tracked))
    {
      var projectPath := o.ProjectPath();
      if projectPath.None? {
        return Err(NullPointer);
      }
      var dir := projectPath.value;
      var deleted := tracking.DeleteDirectory(dir);
      if deleted.Failed? && !IsIOException(deleted.error) {
        return Err(deleted.error);
      }
      return Ok(dir);
    }
  }
}
