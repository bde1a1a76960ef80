// UserRepoListener: the watcher listener on the users' repository. It hands
// creations and deletions to the project service's fan-out, gated on the
// tracked-path cache that TrackingUtils fills (one cache, shared by both).

module UserRepo {
  import opened Wrappers
  import opened FsModel
  import opened ProjectService

  /** The gate of fileCreated and fileDeleted as written: an event is
      handed on only when its path is in the tracked-path cache. */
  predicate Forwards(tracked: set<Path>, file: Path) {
    file in tracked
  }

  /** The gate the tracked-path cache exists for: a tracked path is the
      echo of the service's own write and is dropped, any other path is a
      user's change and is handed on. */
  predicate ForwardsCorrected(tracked: set<Path>, file: Path) {
    file !in tracked
  }

  /** As written, a file a user has just created, which nothing has put in
      the cache, is not handed on, while the link the fan-out made in a
      peer's tree is. */
  lemma GateAsWritten(userFile: Path, echo: Path, tracked: set<Path>)
    requires userFile !in tracked && echo in tracked
    ensures !Forwards(tracked, userFile) && Forwards(tracked, echo)
    ensures ForwardsCorrected(tracked, userFile) && !ForwardsCorrected(tracked, echo)
  {
  }

  class UserRepoListener {
    const service: ProjectServiceImpl
    const userRepo: Path

    ghost predicate Valid()
      reads service, service.provider, service.provider.projects, service.fs.tracking,
            service.fs.tracking.disk, service.commonsIo
    {
      service.Valid()
    }

    /** The constructor once the existence check has passed. */
    constructor (service: ProjectServiceImpl, userRepo: Path)
      requires userRepo in service.Nodes()
      ensures this.service == service && this.userRepo == userRepo
    {
      this.service := service;
      this.userRepo := userRepo;
    }

    /** fileModified: modifications are not expected. */
    method FileModified(file: Path) returns (r: Outcome)
      ensures r == Failed(UnsupportedOperation)
    {
      return Failed(UnsupportedOperation);
    }

    /** fileCreated as written: userFileCreated only for a tracked path. */
    method FileCreated(file: Path) returns (r: Outcome)
      requires Valid()
      modifies service.fs.tracking, service.fs.tracking.disk
      ensures Valid()
      ensures !Forwards(old(service.Tracked()), file) ==>
                r == Done && service.Nodes() == old(service.Nodes()) && service.Tracked() == old(service.Tracked())
      ensures Forwards(old(service.Tracked()), file) ==>
                OnlyAdded(old(service.Nodes()), service.Nodes())
                && NewNear(old(service.Nodes()), service.Nodes(), service.FanOutTargets(userRepo, file))
                && (!service.ProjectKnown(userRepo, file) ==> r.Failed?)
    {
      if file in service.Tracked() {
        r := service.UserFileCreated(userRepo, file);
      } else {
        r := Done;
      }
    }

    /** fileDeleted as written: userFileDeleted only for a tracked path. */
    method FileDeleted(file: Path) returns (r: Outcome)
      requires Valid()
      modifies service.fs.tracking.disk, service.commonsIo
      ensures Valid()
      ensures service.Tracked() == old(service.Tracked())
      ensures !Forwards(old(service.Tracked()), file) ==> r == Done && service.Nodes() == old(service.Nodes())
      ensures Forwards(old(service.Tracked()), file) ==>
                OnlyRemoved(old(service.Nodes()), service.Nodes())
                && KeptOutside(old(service.Nodes()), service.Nodes(), service.FanOutTargets(userRepo, file))
                && (r.Done? ==> AllGone(service.Nodes(), service.FanOutTargets(userRepo, file)))
    {
      if file in service.Tracked() {
        r := service.UserFileDeleted(userRepo, file);
      } else {
        r := Done;
      }
    }

    /** fileCreated with the gate the cache is for. The echo of its own
        fan-out is dropped: every path the fan-out adds ends up tracked. */
    method FileCreatedCorrected(file: Path) returns (r: Outcome)
      requires Valid()
      modifies service.fs.tracking, service.fs.tracking.disk
      ensures Valid()
      ensures !ForwardsCorrected(old(service.Tracked()), file) ==>
                r == Done && service.Nodes() == old(service.Nodes()) && service.Tracked() == old(service.Tracked())
      ensures ForwardsCorrected(old(service.Tracked()), file) ==>
                OnlyAdded(old(service.Nodes()), service.Nodes())
                && NewNear(old(service.Nodes()), service.Nodes(), service.FanOutTargets(userRepo, file))
                && (!service.ProjectKnown(userRepo, file) ==> r.Failed?)
      ensures forall x :: x in service.Nodes() && x !in old(service.Nodes()) ==>
                !ForwardsCorrected(service.Tracked(), x)
    {
      if file !in service.Tracked() {
        r := service.UserFileCreated(userRepo, file);
      } else {
        r := Done;
      }
    }

    /** fileDeleted with the gate the cache is for. */
    method FileDeletedCorrected(file: Path) returns (r: Outcome)
      requires Valid()
      modifies service.fs.tracking.disk, service.commonsIo
      ensures Valid()
      ensures service.Tracked() == old(service.Tracked())
      ensures !ForwardsCorrected(old(service.Tracked()), file) ==> r == Done && service.Nodes() == old(service.Nodes())
      ensures ForwardsCorrected(old(service.Tracked()), file) ==>
                OnlyRemoved(old(service.Nodes()), service.Nodes())
                && KeptOutside(old(service.Nodes()), service.Nodes(), service.FanOutTargets(userRepo, file))
                && (r.Done? ==> AllGone(service.Nodes(), service.FanOutTargets(userRepo, file)))
                && (service.ProjectKnown(userRepo, file) && AllAbsent(old(service.Nodes()), service.FanOutTargets(userRepo, file)) ==>
                      r == Done && service.Nodes() == old(service.Nodes()))
    {
      if file !in service.Tracked() {
        r := service.UserFileDeleted(userRepo, file);
      } else {
        r := Done;
      }
    }
  }

  /** new UserRepoListener(projectService, trackedPaths, userRepo): the
      user repository must exist (Validate.isTrue raises
      IllegalArgumentException otherwise). */
  method NewUserRepoListener(service: ProjectServiceImpl, userRepo: Path) returns (r: Result<UserRepoListener>)
    ensures r.Ok? <==> userRepo in service.Nodes()
    ensures r.Err? ==> r.error == IllegalArgument
    ensures r.Ok? ==> fresh(r.value) && r.value.service == service && r.value.userRepo == userRepo
  {
    if userRepo !in service.Nodes() {
      return Err(IllegalArgument);
    }
    var listener := new UserRepoListener(service, userRepo);
    return Ok(listener);
  }
}
