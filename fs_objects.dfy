// UserFsObj and MasterRepoFsObj: immutable descriptions of a notebook
// object in a user's repository and in the master repository.

module FsObjects {
  import opened Wrappers
  import opened FsModel

  /** UserFsObj.ACCESS */
  datatype Access = ReadOnly | Write

  /** The access segment the builder stores for an access type. */
  function AccessSegment(a: Access): (s: string)
    ensures s == "readWrite" <==> a == Write
    ensures s == "readOnly" <==> a == ReadOnly
  {
    match a
    case Write => "readWrite"
    case ReadOnly => "readOnly"
  }

  /** Path.resolve(String) of a single path name; a null name (None)
      raises NullPointerException. */
  function Resolve(p: Option<Path>, name: Option<string>): (r: Option<Path>)
    ensures r.Some? <==> p.Some? && name.Some?
    ensures r.Some? ==> |r.value| == |p.value| + 1 && r.value[..|p.value|] == p.value
                        && r.value[|p.value|] == name.value
  {
    if p.Some? && name.Some? then Some(p.value + [name.value]) else None
  }

  /** A file-system object in the users' repository. The fields are set once
      by the builder; fields the builder was not given are None (null). */
  datatype UserFsObj = UserFsObj(repoUrl: Path, userName: string, accessType: Option<string>,
                                 projectName: string, fsObj: Option<string>)
  {
    function RepoWithUser(): Path {
      repoUrl + [userName]
    }

    function RepoWithProject(): Path {
      RepoWithUser() + [projectName]
    }

    /** repoUrl/userName/accessType/projectName/fsObj */
    function AbsPath(): Option<Path> {
      Resolve(Resolve(Resolve(Resolve(Some(repoUrl), Some(userName)), accessType), Some(projectName)), fsObj)
    }

    /** repoUrl/userName/accessType */
    function ProjectPath(): Option<Path> {
      Resolve(Resolve(Some(repoUrl), Some(userName)), accessType)
    }

    /** Goes through MasterRepoFsObj.Builder, so the root is validated again
        against the current tree. */
    function ToMasterRepoFsObj(t: Tree): Result<MasterRepoFsObj> {
      BuildMasterRepoFsObj(t, repoUrl, projectName, fsObj)
    }
  }

  /** A file-system object in the master repository. */
  datatype MasterRepoFsObj = MasterRepoFsObj(repoUrl: Path, projectName: string, fsObj: Option<string>)
  {
    function RepoWithProjectPath(): Path {
      repoUrl + [projectName]
    }

    /** repoUrl/projectName/fsObj */
    function AbsPath(): Option<Path> {
      Resolve(Resolve(Some(repoUrl), Some(projectName)), fsObj)
    }

    /** Goes through UserFsObj.Builder, validating the root again. */
    function ToNotebookFsObj(t: Tree, userName: string, readOnly: bool): Result<UserFsObj> {
      BuildUserFsObj(t, repoUrl, userName, Some(if readOnly then ReadOnly else Write), projectName, fsObj)
    }
  }

  /** Validate.isTrue on exists(), canRead(), canWrite() and canExecute()
      of the repository root, as both builders' repoUrl(...) do. */
  function ValidateRepoUrl(t: Tree, repoUrl: Path): (r: Result<Path>)
    ensures r.Ok? <==> Accessible(t, repoUrl)
    ensures r.Ok? ==> r.value == repoUrl
    ensures r.Err? ==> r.error == IllegalArgument
  {
    if repoUrl !in t then Err(IllegalArgument)
    else if !t[repoUrl].perm.read then Err(IllegalArgument)
    else if !t[repoUrl].perm.write then Err(IllegalArgument)
    else if !t[repoUrl].perm.exec then Err(IllegalArgument)
    else Ok(repoUrl)
  }

  /** new UserFsObj.Builder()...build(); None for a setter not called. */
  function BuildUserFsObj(t: Tree, repoUrl: Path, userName: string, access: Option<Access>,
                          projectName: string, fsObj: Option<string>): (r: Result<UserFsObj>)
    ensures r.Ok? <==> Accessible(t, repoUrl)
    ensures r.Err? ==> r.error == IllegalArgument
    ensures r.Ok? ==> r.value.repoUrl == repoUrl && r.value.userName == userName
                      && r.value.projectName == projectName && r.value.fsObj == fsObj
                      && (access.None? <==> r.value.accessType.None?)
                      && (access.Some? ==> r.value.accessType == Some(AccessSegment(access.value)))
  {
    match ValidateRepoUrl(t, repoUrl)
    case Err(e) => Err(e)
    case Ok(root) =>
      var segment := if access.Some? then Some(AccessSegment(access.value)) else None;
      Ok(UserFsObj(root, userName, segment, projectName, fsObj))
  }

  /** new MasterRepoFsObj.Builder()...build() */
  function BuildMasterRepoFsObj(t: Tree, repoUrl: Path, projectName: string, fsObj: Option<string>)
    : (r: Result<MasterRepoFsObj>)
    ensures r.Ok? <==> Accessible(t, repoUrl)
    ensures r.Err? ==> r.error == IllegalArgument
    ensures r.Ok? ==> r.value == MasterRepoFsObj(repoUrl, projectName, fsObj)
  {
    match ValidateRepoUrl(t, repoUrl)
    case Err(e) => Err(e)
    case Ok(root) => Ok(MasterRepoFsObj(root, projectName, fsObj))
  }

  /** Reads the five names back from a path of the users' repository. */
  function ParseUserPath(repoUrl: Path, p: Path): (r: Option<UserFsObj>)
    ensures r.Some? <==> |p| == |repoUrl| + 4 && repoUrl <= p
  {
    if |p| == |repoUrl| + 4 && repoUrl <= p then
      var n := |repoUrl|;
      Some(UserFsObj(repoUrl, p[n], Some(p[n + 1]), p[n + 2], Some(p[n + 3])))
    else None
  }

  // ---------------------------------------------------------------------
  // Lemmas

  /** absPath is defined exactly when the access type and object name are
      set, and it lists root, user, access, project and object in order. */
  lemma AbsPathLayout(o: UserFsObj)
    ensures o.AbsPath().Some? <==> o.accessType.Some? && o.fsObj.Some?
    ensures o.AbsPath().Some? ==>
              o.AbsPath().value == o.repoUrl + [o.userName, o.accessType.value, o.projectName, o.fsObj.value]
  {
  }

  /** ParseUserPath inverts absPath: absPath is injective for a fixed root. */
  lemma AbsPathRoundTrip(o: UserFsObj)
    requires o.accessType.Some? && o.fsObj.Some?
    ensures ParseUserPath(o.repoUrl, o.AbsPath().value) == Some(o)
  {
    AbsPathLayout(o);
  }

  lemma ParseRoundTrip(repoUrl: Path, p: Path)
    requires ParseUserPath(repoUrl, p).Some?
    ensures ParseUserPath(repoUrl, p).value.AbsPath() == Some(p)
  {
    var o := ParseUserPath(repoUrl, p).value;
    AbsPathLayout(o);
    assert p == repoUrl + [p[|repoUrl|], p[|repoUrl| + 1], p[|repoUrl| + 2], p[|repoUrl| + 3]];
  }

  /** getProjectPath (root/user/access) is a proper prefix of absPath. */
  lemma ProjectPathPrefix(o: UserFsObj)
    requires o.AbsPath().Some?
    ensures o.ProjectPath().Some? && o.ProjectPath().value < o.AbsPath().value
    ensures |o.AbsPath().value| == |o.ProjectPath().value| + 2
  {
    AbsPathLayout(o);
  }

  /** getRepoWithUser is a prefix of getRepoWithProject, which skips the access
      segment: it is a prefix of absPath only when project and access names
      coincide. */
  lemma RepoWithProjectHasNoAccessSegment(o: UserFsObj)
    requires o.AbsPath().Some?
    ensures o.RepoWithUser() < o.RepoWithProject()
    ensures o.RepoWithUser() < o.ProjectPath().value
    ensures o.RepoWithProject() <= o.AbsPath().value <==> o.projectName == o.accessType.value
  {
    AbsPathLayout(o);
    var n := |o.repoUrl|;
    if o.RepoWithProject() <= o.AbsPath().value {
      assert o.RepoWithProject()[n + 1] == o.AbsPath().value[n + 1];
    }
  }

  /** getProjectPath fails (NullPointerException) when no access type was set. */
  lemma ProjectPathNeedsAccessType(o: UserFsObj)
    ensures o.ProjectPath().None? <==> o.accessType.None?
  {
  }

  /** Master absPath is root/project/fsObj and getRepoWithProjectPath is its prefix. */
  lemma MasterAbsPathLayout(m: MasterRepoFsObj)
    ensures m.AbsPath().Some? <==> m.fsObj.Some?
    ensures m.AbsPath().Some? ==> m.AbsPath().value == m.repoUrl + [m.projectName, m.fsObj.value]
                                  && m.RepoWithProjectPath() < m.AbsPath().value
  {
  }

  /** toNotebookFsObj succeeds exactly when the root is still accessible,
      and then toMasterRepoFsObj gives back the master object. */
  lemma MasterRoundTrip(t: Tree, m: MasterRepoFsObj, userName: string, readOnly: bool)
    ensures m.ToNotebookFsObj(t, userName, readOnly).Ok? <==> Accessible(t, m.repoUrl)
    ensures m.ToNotebookFsObj(t, userName, readOnly).Ok? ==>
              var o := m.ToNotebookFsObj(t, userName, readOnly).value;
              o.ToMasterRepoFsObj(t) == Ok(m) && o.userName == userName
              && o.accessType == Some(if readOnly then "readOnly" else "readWrite")
  {
  }

  /** toMasterRepoFsObj then toNotebookFsObj gives back a user object whose
      access segment is one the builder can produce. */
  lemma UserRoundTrip(t: Tree, o: UserFsObj)
    requires o.accessType == Some("readOnly") || o.accessType == Some("readWrite")
    ensures o.ToMasterRepoFsObj(t).Ok? <==> Accessible(t, o.repoUrl)
    ensures o.ToMasterRepoFsObj(t).Ok? ==>
              o.ToMasterRepoFsObj(t).value.ToNotebookFsObj(t, o.userName, o.accessType == Some("readOnly")) == Ok(o)
  {
  }

  /** The master object of a user object keeps the user repository root, so
      its project path is root/project, not a path of the master repository. */
  lemma ToMasterKeepsUserRoot(t: Tree, o: UserFsObj)
    requires o.ToMasterRepoFsObj(t).Ok?
    ensures o.ToMasterRepoFsObj(t).value.repoUrl == o.repoUrl
    ensures o.ToMasterRepoFsObj(t).value.RepoWithProjectPath() == o.repoUrl + [o.projectName]
    ensures o.AbsPath().Some? ==>
              o.ToMasterRepoFsObj(t).value.AbsPath() == Some(o.repoUrl + [o.projectName, o.fsObj.value])
  {
    AbsPathLayout(o);
    MasterAbsPathLayout(o.ToMasterRepoFsObj(t).value);
  }
}
