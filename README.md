# Notebook repository mirroring, modelled in Dafny

This project models the notebook-repository core of kylo's project manager:

- The **master repository** holds one directory per project.
- The **users' repository** holds, for each user and project, a tree of hard links into that project directory.
- A **recursive watcher** reports every file a user creates or deletes in the users' repository.
- The **project service** fans each such change out to the master copy and to every other user entitled to the project.
- A **tracked-path cache** records every path the service writes itself.
- The **security service** tells the file system about role changes, so that a user's mount is made when they are granted a role. Revoking a role is meant to remove the mount, but the deletion as written always throws (first row of Findings).

The model also covers two browser-side files: the project cache of `ProjectsService.js` and the edit and validation logic of `project-definition.js`.

The file system is a value: `FsModel.Tree` maps a path, a sequence of names, to a node. A node is a directory, a regular file (an inode number shared by all its hard links), a symbolic link or another kind, with owner and others permission bits. Well-formedness says that every proper prefix of an entry is a directory.

`FsModel.FileSystem` is the mutable disk. The Java classes that keep state become Dafny classes with `modifies` frames. Each of their methods is proved against functions of the tree before and after the call:

- `Tracking.TrackingUtils` holds the tracked-path set.
- `RepoObjUtils.NotebookRepoObjUtils` and `RepoObjUtils.WalkTreeAndCreateLinks` do hard-link replication.
- `RepoObjService.NotebookRepoObjService` and `FileSystemService.NotebookFileSystemServiceImpl` create and delete repositories.
- `Watcher.RecursiWatcherService` owns the watch keys and listeners.
- `ProjectService.ProjectServiceImpl` does the fan-out and the project rules.
- `UserRepo.UserRepoListener` is the watcher listener.
- `Security.DefaultProjectSecurityService` handles role-membership changes.

Path arithmetic (`Paths`), the file-system object builders (`FsObjects`) and the browser-side checks are pure functions with lemmas.

The model makes these choices:

- **Iteration order.** The iteration order of a Java `HashSet` or of a directory listing is left open. Loops pick the next element with `:|`, so every property is proved for every order.
- **Listener behaviour.** What a listener does is a function parameter (`respond`). The watcher and the security service record each call they make and its outcome. Their contracts say which calls happen, in which order, and when an exception stops the run.
- **Watch events.** The watch service is replaced by the batch of events of a key, given as a sequence.
- **Exceptions.** They are the `Error` values of `Wrappers`. An operation that can throw returns a `Result` or an `Outcome`. An exception that escapes a loop ends the loop there, as in the source.

Three behaviours of the code are easy to misread, and in each the model follows the code:

- **What the tracked-path cache gates.** Only the service's own writes enter the cache: the directories it creates, the entries it deletes and the links it makes (`TrackingUtils.java`, lines 121, 219, 255 and 261). Read against that, the cache can only serve to recognise the echoes of those writes, and the model's reading is that the listener should drop them. The listener instead forwards *only* tracked paths (`UserRepoListener.java`, lines 61 and 69). The second row of Findings covers this.
- **Failures in the fan-out.** `linkOrReplicate` logs a failed link and carries on (`NotebookRepoObjUtils.java`, lines 106-108), which suggests a fan-out that still updates the remaining mirrors. In the code, an exception that escapes `linkOrReplicate` or `forceDelete` ends the fan-out loop.
- **Removed paths.** `deleteDirectory` tracks every path it removes, through `forceDelete` of each entry (`TrackingUtils.java`, line 219), and not only the directory itself (line 255).

## Model

| member | source | states |
|---|---|---|
| FsModel.MkDir | services/project-manager-service/src/main/java/com/thinkbiganalytics/projects/utils/tracking/TrackingUtils.java:116-127 | Files.createDirectory succeeds exactly when the path is absent, not the root, and its parent is a writable directory; the new tree has a default directory there, and an existing path gives FileAlreadyExists |
| FsModel.Unlink | services/project-manager-service/src/main/java/com/thinkbiganalytics/projects/utils/tracking/TrackingUtils.java:214-229 | File.delete succeeds exactly on a present non-root entry that is not a non-empty directory and whose parent is writable; the entry alone is removed |
| FsModel.Link | services/project-manager-service/src/main/java/com/thinkbiganalytics/projects/utils/tracking/TrackingUtils.java:258-262 | Files.createLink succeeds exactly when hard links are supported, the link is new, the target exists and is not a directory, and the parent is writable; the new entry shares the target's node |
| FsModel.MkDirWellFormed | services/project-manager-service/src/main/java/com/thinkbiganalytics/projects/utils/tracking/TrackingUtils.java:116-127 | creating a directory keeps the tree well formed |
| FsModel.UnlinkWellFormed | services/project-manager-service/src/main/java/com/thinkbiganalytics/projects/utils/tracking/TrackingUtils.java:214-229 | deleting an entry keeps the tree well formed |
| FsModel.LinkWellFormed | services/project-manager-service/src/main/java/com/thinkbiganalytics/projects/utils/tracking/TrackingUtils.java:258-262 | making a hard link keeps the tree well formed |
| FsModel.TrackedAdded | services/project-manager-service/src/main/java/com/thinkbiganalytics/projects/utils/tracking/TrackingUtils.java:104-108 | two rounds of creation that each only add entries, and track exactly what they add, make one such round |
| FsModel.FileSystem.CreateDirectory | services/project-manager-service/src/main/java/com/thinkbiganalytics/projects/utils/tracking/TrackingUtils.java:120 | the disk becomes the MkDir tree on success and is unchanged on failure, with the failure reported |
| FsModel.FileSystem.Delete | services/project-manager-service/src/main/java/com/thinkbiganalytics/projects/utils/tracking/TrackingUtils.java:218 | the answer is whether Unlink applies, and the disk loses exactly that entry when it does |
| FsModel.FileSystem.CreateLink | services/project-manager-service/src/main/java/com/thinkbiganalytics/projects/utils/tracking/TrackingUtils.java:260 | the disk gains exactly the link on success and is unchanged on failure |
| FsModel.FileSystem.SetPermissions | services/project-manager-service/src/main/java/com/thinkbiganalytics/projects/utils/NotebookRepoObjUtils.java:60-70 | a present entry gets the new bits and keeps its kind; an absent one gives NoSuchFile and nothing changes |
| FsObjects.AccessSegment | services/project-manager-service/src/main/java/com/thinkbiganalytics/projects/services/files/UserFsObj.java:116-119 | the access segment is "readWrite" exactly for WRITE and "readOnly" exactly for READ_ONLY |
| FsObjects.Resolve | services/project-manager-service/src/main/java/com/thinkbiganalytics/projects/services/files/UserFsObj.java:72-75 | resolve is defined exactly when the base and the name are non-null, and appends exactly one name |
| FsObjects.ValidateRepoUrl | services/project-manager-service/src/main/java/com/thinkbiganalytics/projects/services/files/UserFsObj.java:100-109 | the builder accepts a root exactly when it exists and can be read, written and executed, and otherwise raises IllegalArgumentException |
| FsObjects.BuildUserFsObj | services/project-manager-service/src/main/java/com/thinkbiganalytics/projects/services/files/UserFsObj.java:100-133 | build succeeds exactly for an accessible root and keeps every field given, the access type as its segment |
| FsObjects.BuildMasterRepoFsObj | services/project-manager-service/src/main/java/com/thinkbiganalytics/projects/services/files/MasterRepoFsObj.java:79-101 | build succeeds exactly for an accessible root and holds the root, project and object given |
| FsObjects.AbsPathLayout | services/project-manager-service/src/main/java/com/thinkbiganalytics/projects/services/files/UserFsObj.java:72-75 | absPath is defined exactly when the access type and object are set, and is root/user/access/project/object |
| FsObjects.AbsPathRoundTrip | services/project-manager-service/src/main/java/com/thinkbiganalytics/projects/services/files/UserFsObj.java:72-75 | reading the five names back out of absPath gives the object: absPath is injective for a fixed root |
| FsObjects.ParseRoundTrip | services/project-manager-service/src/main/java/com/thinkbiganalytics/projects/services/files/UserFsObj.java:72-75 | every path five names below the root is the absPath of the object read from it |
| FsObjects.ProjectPathPrefix | services/project-manager-service/src/main/java/com/thinkbiganalytics/projects/services/files/UserFsObj.java:77-79 | getProjectPath (root/user/access) is a proper prefix of absPath, two names shorter |
| FsObjects.RepoWithProjectHasNoAccessSegment | services/project-manager-service/src/main/java/com/thinkbiganalytics/projects/services/files/UserFsObj.java:64-70 | getRepoWithUser is below both getRepoWithProject and getProjectPath, and getRepoWithProject (root/user/project) leads to absPath only when the project name equals the access segment |
| FsObjects.ProjectPathNeedsAccessType | services/project-manager-service/src/main/java/com/thinkbiganalytics/projects/services/files/UserFsObj.java:77-79 | getProjectPath raises NullPointerException exactly when no access type was set |
| FsObjects.MasterAbsPathLayout | services/project-manager-service/src/main/java/com/thinkbiganalytics/projects/services/files/MasterRepoFsObj.java:52-60 | the master absPath is defined exactly with an object and is root/project/object, below getRepoWithProjectPath |
| FsObjects.MasterRoundTrip | services/project-manager-service/src/main/java/com/thinkbiganalytics/projects/services/files/MasterRepoFsObj.java:62-66 | toNotebookFsObj succeeds exactly on an accessible root, and toMasterRepoFsObj then gives the master object back |
| FsObjects.UserRoundTrip | services/project-manager-service/src/main/java/com/thinkbiganalytics/projects/services/files/UserFsObj.java:82-85 | toMasterRepoFsObj then toNotebookFsObj gives the user object back for either access segment |
| FsObjects.ToMasterKeepsUserRoot | services/project-manager-service/src/main/java/com/thinkbiganalytics/projects/services/files/UserFsObj.java:82-85 | the master object of a user object keeps the users' root, so its absPath is usersRoot/project/object |
| Tracking.Climb | services/project-manager-service/src/main/java/com/thinkbiganalytics/projects/utils/tracking/TrackingUtils.java:83-92 | the parent loop stops at the first existing path on the way up, and every longer prefix it passed is absent |
| Tracking.NearestAncestor | services/project-manager-service/src/main/java/com/thinkbiganalytics/projects/utils/tracking/TrackingUtils.java:83-101 | the nearest existing proper ancestor, with every path between absent; none when no prefix exists |
| Tracking.TrackingUtils.CreateAndCheckIsDirectory | services/project-manager-service/src/main/java/com/thinkbiganalytics/projects/utils/tracking/TrackingUtils.java:116-127 | a new directory is created and tracked; an existing directory is left alone; any other existing entry gives FileAlreadyExists |
| Tracking.TrackingUtils.CreateTrackedDirectories | services/project-manager-service/src/main/java/com/thinkbiganalytics/projects/utils/tracking/TrackingUtils.java:64-110 | succeeds exactly when the path is a directory or its nearest existing ancestor is writable; afterwards the path is a directory, only default directories on the way to it were added, and exactly the added ones are tracked; a non-directory or no existing ancestor gives the source's errors and no change |
| Tracking.TrackingUtils.CreateMissing | services/project-manager-service/src/main/java/com/thinkbiganalytics/projects/utils/tracking/TrackingUtils.java:104-108 | the creation loop makes every missing directory from the nearest ancestor down to the path, or nothing when that ancestor is not writable |
| Tracking.TrackingUtils.CreateDirectories | services/project-manager-service/src/main/java/com/thinkbiganalytics/projects/utils/tracking/TrackingUtils.java:136-144 | as createTrackedDirectories, with any I/O failure reported as NotebookIoException |
| Tracking.TrackingUtils.VerifiedListFiles | services/project-manager-service/src/main/java/com/thinkbiganalytics/projects/utils/tracking/TrackingUtils.java:155-171 | a non-directory gives IllegalArgumentException, an unreadable directory IOException, otherwise exactly the directory's children, each once |
| Tracking.TrackingUtils.CleanDirectory | services/project-manager-service/src/main/java/com/thinkbiganalytics/projects/utils/tracking/TrackingUtils.java:181-196 | only entries strictly below the directory are removed, each removal is tracked, success leaves nothing below it, a cleanable directory always succeeds, and a failure is an I/O error or the non-directory case; in a readable directory every child that was removable is gone even when another child fails, and a failure there means some child was not removable |
| Tracking.TrackingUtils.DeleteEntries | services/project-manager-service/src/main/java/com/thinkbiganalytics/projects/utils/tracking/TrackingUtils.java:184-195 | the loop over the listing force-deletes every child, remembers the latest exception and goes on; only entries below the directory are removed, each tracked; every child removable at the start is gone, no exception leaves nothing below, and an exception is an IOException with some child not removable |
| Tracking.TrackingUtils.SweptStep | services/project-manager-service/src/main/java/com/thinkbiganalytics/projects/utils/tracking/TrackingUtils.java:187-192 | one force-delete of a child keeps the loop's summary: removals below the directory, removable children gone, the latest exception remembered |
| Tracking.TrackingUtils.ChildOfCleanable | services/project-manager-service/src/main/java/com/thinkbiganalytics/projects/utils/tracking/TrackingUtils.java:181-196 | every child of a cleanable directory is removable |
| Tracking.TrackingUtils.ForceDelete | services/project-manager-service/src/main/java/com/thinkbiganalytics/projects/utils/tracking/TrackingUtils.java:214-229 | only the entry and what is below it are removed, each removal tracked; success leaves nothing there; an absent file gives FileNotFoundException; a removable entry is always removed |
| Tracking.TrackingUtils.DeleteDirectory | services/project-manager-service/src/main/java/com/thinkbiganalytics/projects/utils/tracking/TrackingUtils.java:240-256 | an absent directory is a no-op; otherwise only it and its subtree are removed and tracked; a regular file gives IllegalArgumentException; a removable directory is always removed |
| Tracking.TrackingUtils.DeleteEmptied | services/project-manager-service/src/main/java/com/thinkbiganalytics/projects/utils/tracking/TrackingUtils.java:249-255 | the final delete of an emptied directory succeeds exactly when File.delete can remove it, and the directory is then gone and tracked; otherwise it is an IOException and nothing changes |
| Tracking.RemovedUnderSteps | services/project-manager-service/src/main/java/com/thinkbiganalytics/projects/utils/tracking/TrackingUtils.java:240-256 | cleaning a directory and then deleting it compose into one removal at or below it, every removed path tracked |
| Tracking.TrackingUtils.CreateLink | services/project-manager-service/src/main/java/com/thinkbiganalytics/projects/utils/tracking/TrackingUtils.java:258-262 | the link is made and tracked exactly when Files.createLink applies, and nothing changes otherwise |
| Tracking.TrackingUtils.KeptAboveChildren | services/project-manager-service/src/main/java/com/thinkbiganalytics/projects/utils/tracking/TrackingUtils.java:181-196 | deleting within the children of a directory keeps everything not below it |
| Tracking.TrackingUtils.NothingLeftBelow | services/project-manager-service/src/main/java/com/thinkbiganalytics/projects/utils/tracking/TrackingUtils.java:181-196 | once nothing remains below any child, nothing remains below the directory |
| Tracking.TrackingUtils.RemovableChild | services/project-manager-service/src/main/java/com/thinkbiganalytics/projects/utils/tracking/TrackingUtils.java:187-192 | a child removable when the listing was taken is still removable when its turn comes, after the deletions of the siblings before it |
| RepoObjUtils.NotebookRepoObjUtils.CreatePrivateDirectory | services/project-manager-service/src/main/java/com/thinkbiganalytics/projects/utils/NotebookRepoObjUtils.java:55-78 | succeeds exactly when the directories can be created; the directory is then accessible, owner-only on POSIX and with the owner bits set otherwise; nothing else changes but new default directories on the way, all tracked; failure is NotebookIoException with no change |
| RepoObjUtils.NotebookRepoObjUtils.CreateLink | services/project-manager-service/src/main/java/com/thinkbiganalytics/projects/utils/NotebookRepoObjUtils.java:113-115 | the link is made and tracked exactly when Files.createLink applies |
| RepoObjUtils.NotebookRepoObjUtils.EnsurePath | services/project-manager-service/src/main/java/com/thinkbiganalytics/projects/utils/NotebookRepoObjUtils.java:117-133 | an existing accessible directory is returned unchanged, any other existing entry gives RuntimeException, and a missing one is created as a private directory, owner-only on POSIX |
| RepoObjUtils.NotebookRepoObjUtils.ReplicateFileTreeWithHardLinks | services/project-manager-service/src/main/java/com/thinkbiganalytics/projects/utils/NotebookRepoObjUtils.java:80-88 | only replicas of source entries are added and all of them are tracked; a failure is NotebookIoException; with hard links and a free, creatable destination every directory is replicated as an accessible directory, owner-only on POSIX, and every regular file as a hard link to the same inode |
| RepoObjUtils.NotebookRepoObjUtils.LinkOrReplicate | services/project-manager-service/src/main/java/com/thinkbiganalytics/projects/utils/NotebookRepoObjUtils.java:97-111 | a directory is replicated as above, its replica directories owner-only on POSIX; a regular file gets exactly one hard link, with UnsupportedOperationException when links are unsupported; anything else is left alone |
| RepoObjUtils.WalkTreeAndCreateLinks.PreVisitDirectory | services/project-manager-service/src/main/java/com/thinkbiganalytics/projects/utils/WalkTreeAndCreateLinks.java:32-42 | the replica directory is created unless something is already there, accessible and owner-only on POSIX, and the walk continues |
| RepoObjUtils.WalkTreeAndCreateLinks.VisitFile | services/project-manager-service/src/main/java/com/thinkbiganalytics/projects/utils/WalkTreeAndCreateLinks.java:45-72 | a regular file is linked at its replica path when the link can be made, any other outcome leaves the tree as it is, and the walk continues |
| RepoObjUtils.WalkTreeAndCreateLinks.PostVisitDirectory | services/project-manager-service/src/main/java/com/thinkbiganalytics/projects/utils/WalkTreeAndCreateLinks.java:75-83 | the walk always continues |
| RepoObjUtils.WalkTreeAndCreateLinks.VisitFileFailed | services/project-manager-service/src/main/java/com/thinkbiganalytics/projects/utils/WalkTreeAndCreateLinks.java:86-90 | the walk always continues |
| RepoObjUtils.WalkFileTree | services/project-manager-service/src/main/java/com/thinkbiganalytics/projects/utils/NotebookRepoObjUtils.java:84 | the depth-first walk adds only replicas, tracks them, fails only with NotebookIoException, and in the clean case mirrors the whole source tree with owner-only directories on POSIX |
| RepoObjUtils.WalkDirectory | services/project-manager-service/src/main/java/com/thinkbiganalytics/projects/utils/WalkTreeAndCreateLinks.java:32-83 | the visit of one directory keeps its additions comparable with its replica and mirrors its subtree when ready |
| RepoObjUtils.WalkEntries | services/project-manager-service/src/main/java/com/thinkbiganalytics/projects/utils/WalkTreeAndCreateLinks.java:32-83 | the entries of a directory, visited in listing order, leave each child's subtree mirrored when ready, its directories owner-only on POSIX |
| RepoObjUtils.MirroredFromChildren | services/project-manager-service/src/main/java/com/thinkbiganalytics/projects/utils/WalkTreeAndCreateLinks.java:32-83 | a directory whose replica is in place, accessible and owner-only on POSIX, and whose children are all mirrored is mirrored |
| RepoObjService.NotebookRepoObjService.EnsureProject | services/project-manager-service/src/main/java/com/thinkbiganalytics/projects/services/files/NotebookRepoObjService.java:26-30 | succeeds exactly when the root, root/user and root/user/project can be ensured, and leaves all three accessible directories; it adds only tracked directories on that chain and never creates the access directory unless it is the project name |
| RepoObjService.NotebookRepoObjService.Ensure | services/project-manager-service/src/main/java/com/thinkbiganalytics/projects/services/files/NotebookRepoObjService.java:43-46 | succeeds exactly when the root and root/project can be ensured, and leaves both accessible; only tracked directories on that chain are added |
| RepoObjService.NotebookRepoObjService.DeleteProject | services/project-manager-service/src/main/java/com/thinkbiganalytics/projects/services/files/NotebookRepoObjService.java:32-41 | no access type raises NullPointerException with no change; otherwise deleteDirectory on getProjectPath: only its subtree goes, it is returned, and a regular file there gives IllegalArgumentException |
| RepoObjService.EnsurableUnder | services/project-manager-service/src/main/java/com/thinkbiganalytics/projects/utils/NotebookRepoObjUtils.java:117-133 | a missing entry under an accessible directory can be ensured |
| FileSystemService.ListingsSelectProjectDirs | services/project-manager-service/src/main/java/com/thinkbiganalytics/projects/services/impl/NotebookFileSystemServiceImpl.java:121-137 | the master and users' listings together select exactly master/s and every usersRepo/u/s directory |
| FileSystemService.RootsApart | services/project-manager-service/src/main/java/com/thinkbiganalytics/projects/services/impl/NotebookFileSystemServiceImpl.java:139-146 | with the two roots apart, the project directories are pairwise unrelated, so deleting one leaves the others |
| FileSystemService.MountReady | services/project-manager-service/src/main/java/com/thinkbiganalytics/projects/services/impl/NotebookFileSystemServiceImpl.java:94-109 | after ensureProject, the replication source is untouched and the access directory is free to replicate into |
| FileSystemService.MountCleanKept | services/project-manager-service/src/main/java/com/thinkbiganalytics/projects/services/impl/NotebookFileSystemServiceImpl.java:94-109 | adding entries apart from a mount's directories keeps that mount makeable in full |
| FileSystemService.ReplicaLinks | services/project-manager-service/src/main/java/com/thinkbiganalytics/projects/services/impl/NotebookFileSystemServiceImpl.java:94-109 | the new regular entries of a mount are hard links to files of the replication source that existed before |
| FileSystemService.NotebookFileSystemServiceImpl.EnsureMasterProjectRepository | services/project-manager-service/src/main/java/com/thinkbiganalytics/projects/services/impl/NotebookFileSystemServiceImpl.java:67-74 | succeeds exactly on an accessible master root and an ensurable master/project, which is returned as an accessible directory; an unusable root gives IllegalArgumentException with no change; at most master/project is added, tracked |
| FileSystemService.NotebookFileSystemServiceImpl.MountProject | services/project-manager-service/src/main/java/com/thinkbiganalytics/projects/services/impl/NotebookFileSystemServiceImpl.java:94-109 | one mount: user and project directories are accessible on success, new entries are on that chain or below the access directory, new files are links into usersRepo/project, and in the clean case that tree is mirrored |
| FileSystemService.NotebookFileSystemServiceImpl.EnsureProjectMounts | services/project-manager-service/src/main/java/com/thinkbiganalytics/projects/services/impl/NotebookFileSystemServiceImpl.java:88-111 | an empty list does nothing; an unusable users' root gives IllegalArgumentException; on success every listed project directory of the user is accessible; all additions are below usersRepo/user and tracked |
| FileSystemService.NotebookFileSystemServiceImpl.DeleteAllProjectRepos | services/project-manager-service/src/main/java/com/thinkbiganalytics/projects/services/impl/NotebookFileSystemServiceImpl.java:121-147 | an unlistable master root raises NullPointerException and nothing changes; otherwise it succeeds, removes only what lies below the project's directories, tracks every removal, and removes each removable directory apart from the others |
| FileSystemService.NotebookFileSystemServiceImpl.DeleteEach | services/project-manager-service/src/main/java/com/thinkbiganalytics/projects/services/impl/NotebookFileSystemServiceImpl.java:139-146 | the delete loop removes nothing outside the collected directories and every removable, separate one entirely |
| FileSystemService.NotebookFileSystemServiceImpl.DeleteProjectRepo | services/project-manager-service/src/main/java/com/thinkbiganalytics/projects/services/impl/NotebookFileSystemServiceImpl.java:151-158 | as written: the user object has no access type, so it always fails (NullPointerException, or IllegalArgumentException for an unusable root) and deletes nothing |
| FileSystemService.NotebookFileSystemServiceImpl.DeleteProjectRepoCorrected | services/project-manager-service/src/main/java/com/thinkbiganalytics/projects/services/impl/NotebookFileSystemServiceImpl.java:151-158 | with the WRITE access type of the mount: the user's usersRepo/user/readWrite subtree alone is removed and tracked |
| Metadata.UserNames | services/project-manager-service/src/main/java/com/thinkbiganalytics/projects/security/DefaultProjectSecurityService.java:127-137 | exactly the names of the user principals among the members |
| Metadata.Project.Users | services/project-manager-service/src/main/java/com/thinkbiganalytics/projects/services/impl/ProjectServiceImpl.java:341 | getProjectUsers: exactly the users that belong to some role of the project |
| Metadata.Project.RoleUsers | services/project-manager-service/src/main/java/com/thinkbiganalytics/projects/security/DefaultProjectSecurityService.java:129 | getProjectMembersWithRoleById: the user members of the role, none for an unknown role |
| Metadata.Project.Entitled | services/project-manager-service/src/main/java/com/thinkbiganalytics/projects/services/impl/ProjectServiceImpl.java:330-345 | the owner when a user principal, and all project users, and nobody else |
| Metadata.ProjectProvider.FindProjectByName | services/project-manager-service/src/main/java/com/thinkbiganalytics/projects/services/impl/ProjectServiceImpl.java:161 | present exactly when a project has that system name, and then it is one |
| Metadata.ProjectProvider.FindById | services/project-manager-service/src/main/java/com/thinkbiganalytics/projects/services/impl/ProjectServiceImpl.java:206 | present exactly when a project has that identifier, and then it is one |
| Metadata.ProjectProvider.DeleteProject | services/project-manager-service/src/main/java/com/thinkbiganalytics/projects/services/impl/ProjectServiceImpl.java:213 | the store loses exactly that project |
| Paths.CommonPrefix | services/project-manager-service/src/main/java/com/thinkbiganalytics/projects/services/impl/ProjectServiceImpl.java:224 | the longest common prefix: both agree up to it and differ right after it |
| Paths.RelativizeBelow | services/project-manager-service/src/main/java/com/thinkbiganalytics/projects/services/impl/ProjectServiceImpl.java:224 | below the base, relativize gives the names after the base |
| Paths.RelativizeOutside | services/project-manager-service/src/main/java/com/thinkbiganalytics/projects/services/RecursiWatcherService.java:177 | outside the base, the relative path starts with ".." |
| Paths.ResolveRelativize | services/project-manager-service/src/main/java/com/thinkbiganalytics/projects/services/impl/ProjectServiceImpl.java:224-228 | resolving base.relativize(p) against the base opens p again |
| Paths.WalkAppend | services/project-manager-service/src/main/java/com/thinkbiganalytics/projects/services/impl/ProjectServiceImpl.java:228 | resolving in two steps is resolving the concatenation |
| Paths.WalkUps | services/project-manager-service/src/main/java/com/thinkbiganalytics/projects/services/impl/ProjectServiceImpl.java:228 | each ".." drops one name |
| Transform.DomainToRest | services/project-manager-service/src/main/java/com/thinkbiganalytics/projects/services/ProjectsTransform.java:37-52 | the REST object carries the domain's identifier and exactly its six fields |
| Transform.RestToDomain | services/project-manager-service/src/main/java/com/thinkbiganalytics/projects/services/ProjectsTransform.java:54-65 | the domain gets exactly the REST object's six fields and keeps its roles; the same object is returned |
| Transform.RoundTrip | services/project-manager-service/src/main/java/com/thinkbiganalytics/projects/services/ProjectsTransform.java:37-65 | restToDomain then domainToRest gives the REST fields back, with the domain's identifier |
| ProjectService.Decompose | services/project-manager-service/src/main/java/com/thinkbiganalytics/projects/services/impl/ProjectServiceImpl.java:224-227 | a relative path of one name raises IllegalArgumentException; otherwise the rest is non-empty |
| ProjectService.DecomposeBelow | services/project-manager-service/src/main/java/com/thinkbiganalytics/projects/services/impl/ProjectServiceImpl.java:224-227 | inside the users' root, the originating user is the first name below it and the rest all names after it, defined exactly when there are two names |
| ProjectService.DecomposeOutside | services/project-manager-service/src/main/java/com/thinkbiganalytics/projects/services/impl/ProjectServiceImpl.java:224-227 | outside the users' root the "originating user" is ".." |
| ProjectService.TargetsPlain | services/project-manager-service/src/main/java/com/thinkbiganalytics/projects/services/impl/ProjectServiceImpl.java:228-245 | without ".." names the master and peer destinations are plain concatenations |
| ProjectService.OriginatorNotTarget | services/project-manager-service/src/main/java/com/thinkbiganalytics/projects/services/impl/ProjectServiceImpl.java:239-243 | the originating user's own copy is neither the master destination nor a peer destination |
| ProjectService.AddedCompose | services/project-manager-service/src/main/java/com/thinkbiganalytics/projects/services/impl/ProjectServiceImpl.java:231-249 | two rounds of added links compose into one over the union of destinations |
| ProjectService.RemovedCompose | services/project-manager-service/src/main/java/com/thinkbiganalytics/projects/services/impl/ProjectServiceImpl.java:263-296 | two rounds of removals compose into one over the union of destinations |
| ProjectService.ProjectServiceImpl.DestinationsKnown | services/project-manager-service/src/main/java/com/thinkbiganalytics/projects/services/impl/ProjectServiceImpl.java:228-249 | for a known project the destinations are the master copy plus every entitled user's copy but the originator's |
| ProjectService.ProjectServiceImpl.DestinationsUnknown | services/project-manager-service/src/main/java/com/thinkbiganalytics/projects/services/impl/ProjectServiceImpl.java:228-238 | for an unknown project only the master copy is written before the lookup fails |
| ProjectService.ProjectServiceImpl.GetUsersWithProjectAccess | services/project-manager-service/src/main/java/com/thinkbiganalytics/projects/services/impl/ProjectServiceImpl.java:330-345 | the owner when a user and every project user; an unknown project raises RuntimeException |
| ProjectService.ProjectServiceImpl.Mirror | services/project-manager-service/src/main/java/com/thinkbiganalytics/projects/services/impl/ProjectServiceImpl.java:231-248 | one linkOrReplicate: additions only near the destination, tracked; a node that is neither a directory nor a regular file gives Done and no change; a directory fails only with NotebookIoException, and when it is listable throughout, hard links work and the destination is absent and creatable, it is replicated in full there, owner-only on POSIX, with Done; a regular file is linked there exactly when hard links are supported, otherwise UnsupportedOperationException and no change |
| ProjectService.ProjectServiceImpl.UserFileCreated | services/project-manager-service/src/main/java/com/thinkbiganalytics/projects/services/impl/ProjectServiceImpl.java:221-250 | a path of one name gives IllegalArgumentException and no change; an unknown project fails; everything added lies near the master or a peer destination and is tracked; a regular file is hard-linked at every destination when links work and all are linkable; a directory whose destinations are distinct, none above another, and each replicable is replicated in full at every one, owner-only on POSIX, with Done for a known project |
| ProjectService.ProjectServiceImpl.FanOutCreated | services/project-manager-service/src/main/java/com/thinkbiganalytics/projects/services/impl/ProjectServiceImpl.java:228-249 | the fan-out after decomposition, master first, then every peer: an unknown project fails after the master copy; a regular file gives links only, Done with hard links for a known project, and the link at every destination when all are linkable; without hard links it fails and nothing changes; a directory whose destinations are distinct, none above another, and each replicable is replicated in full at each, with Done for a known project |
| ProjectService.ProjectServiceImpl.LinkPeers | services/project-manager-service/src/main/java/com/thinkbiganalytics/projects/services/impl/ProjectServiceImpl.java:238-249 | the loop over entitled users skips the originator, in any set order, and stops at the first failure: a regular file is linked at every peer destination when hard links work and each is linkable or linked already; a directory whose peer destinations are distinct, none above another, and each replicable is replicated in full at each, with Done; a directory fails only with NotebookIoException |
| ProjectService.TargetsDistinctPlain | services/project-manager-service/src/main/java/com/thinkbiganalytics/projects/services/impl/ProjectServiceImpl.java:228-245 | with the two repositories apart and no ".." among the names, the master destination and every peer's destination are pairwise distinct |
| ProjectService.ReplicableKept | services/project-manager-service/src/main/java/com/thinkbiganalytics/projects/services/impl/ProjectServiceImpl.java:231-248 | entries added near paths unrelated to the source and to a destination leave that destination replicable |
| ProjectService.MirroredKept | services/project-manager-service/src/main/java/com/thinkbiganalytics/projects/services/impl/ProjectServiceImpl.java:231-248 | entries added away from a replica keep it a replica |
| ProjectService.PeerMirrored | services/project-manager-service/src/main/java/com/thinkbiganalytics/projects/services/impl/ProjectServiceImpl.java:238-249 | replicating a directory at one more peer destination keeps the replicas made at the earlier ones |
| ProjectService.FanOutMirrored | services/project-manager-service/src/main/java/com/thinkbiganalytics/projects/services/impl/ProjectServiceImpl.java:228-249 | the master replica followed by the peers' replicas gives a replica of the source, as it was, at every destination |
| ProjectService.ProjectServiceImpl.RemoveCopy | services/project-manager-service/src/main/java/com/thinkbiganalytics/projects/services/impl/ProjectServiceImpl.java:263-295 | an existing copy is force-deleted, an absent one left; only its subtree goes; failure is NotebookIoException |
| ProjectService.ProjectServiceImpl.UserFileDeleted | services/project-manager-service/src/main/java/com/thinkbiganalytics/projects/services/impl/ProjectServiceImpl.java:253-297 | only entries below the destinations are removed; success leaves no destination behind; an unknown project fails; when no copy exists nothing changes; when all are clearable it succeeds |
| ProjectService.ProjectServiceImpl.FanOutDeleted | services/project-manager-service/src/main/java/com/thinkbiganalytics/projects/services/impl/ProjectServiceImpl.java:260-296 | the deletions after decomposition, master first, with the same guarantees |
| ProjectService.ProjectServiceImpl.DeletePeers | services/project-manager-service/src/main/java/com/thinkbiganalytics/projects/services/impl/ProjectServiceImpl.java:278-296 | the loop over entitled users removes every peer copy and nothing else, stopping at the first failure |
| ProjectService.ProjectServiceImpl.EnsureProjectRepo | services/project-manager-service/src/main/java/com/thinkbiganalytics/projects/services/impl/ProjectServiceImpl.java:135-145 | success leaves master/project a directory, and with the user flag usersRepo/user/project too; only tracked additions at those places; without the flag it succeeds exactly when the master repository is accessible and master/project can be ensured, and with it also whenever the mount can be made in full and the two roots are apart |
| ProjectService.ProjectServiceImpl.EnsureActiveMount | services/project-manager-service/src/main/java/com/thinkbiganalytics/projects/services/impl/ProjectServiceImpl.java:141-144 | the active user's mount, after the master directory: only tracked additions below usersRepo/user, the mount a directory on success, and success whenever the mount could be made in full before |
| ProjectService.ProjectServiceImpl.MasterApart | services/project-manager-service/src/main/java/com/thinkbiganalytics/projects/services/impl/ProjectServiceImpl.java:140-144 | creating the master project directory keeps a user's mount makeable in full when the two roots are apart |
| ProjectService.ProjectServiceImpl.ChangeNotebookFolder | services/project-manager-service/src/main/java/com/thinkbiganalytics/projects/services/impl/ProjectServiceImpl.java:164-179 | nothing when the flag stays; enabling ensures the repositories and succeeds whenever they can be ensured; disabling removes every project repository and fails exactly when the master root cannot be listed |
| ProjectService.ProjectServiceImpl.UpdateProject | services/project-manager-service/src/main/java/com/thinkbiganalytics/projects/services/impl/ProjectServiceImpl.java:155-199 | an unknown system name raises ProjectManagerException and changes nothing; an unchanged flag touches no file; enabling ensures the repositories and succeeds whenever they can be ensured; disabling deletes them all; on success the domain takes the REST fields and the REST object the identifier; other projects are untouched |
| ProjectService.ProjectServiceImpl.DeleteProject | services/project-manager-service/src/main/java/com/thinkbiganalytics/projects/services/impl/ProjectServiceImpl.java:202-218 | an unknown identifier raises ProjectManagerException; a project without a notebook folder is just removed; otherwise its repositories are deleted first, and the record goes unless that raised |
| ProjectService.ProjectServiceImpl.UserGrantedRole | services/project-manager-service/src/main/java/com/thinkbiganalytics/projects/services/impl/ProjectServiceImpl.java:89-95 | an unknown project raises NullPointerException with no change; on success the master repository, the granted user's mount and, with the notebook folder, the active user's mount exist; only tracked additions; it succeeds whenever the master repository can be ensured and each mount made in full |
| ProjectService.ProjectServiceImpl.GrantProject | services/project-manager-service/src/main/java/com/thinkbiganalytics/projects/services/impl/ProjectServiceImpl.java:91-94 | for a found project: the repositories and mounts on success, only tracked additions, and success whenever the master repository can be ensured and each mount made in full |
| ProjectService.ProjectServiceImpl.GrantedApart | services/project-manager-service/src/main/java/com/thinkbiganalytics/projects/services/impl/ProjectServiceImpl.java:91-94 | the repositories made for the project keep the granted user's mount makeable in full |
| ProjectService.ProjectServiceImpl.UserRevokedRoleCorrected | services/project-manager-service/src/main/java/com/thinkbiganalytics/projects/services/impl/ProjectServiceImpl.java:98-102 | with the corrected deleteProjectRepo: an unknown project raises NullPointerException; otherwise the revoked user's readWrite tree alone is removed |
| ProjectService.ProjectServiceImpl.UserRevokedRole | services/project-manager-service/src/main/java/com/thinkbiganalytics/projects/services/impl/ProjectServiceImpl.java:98-102 | as written: every revocation fails, with NullPointerException for an unknown project or a usable users' root, and nothing on disk or in the cache changes |
| UserRepo.GateAsWritten | services/project-manager-service/src/main/java/com/thinkbiganalytics/projects/services/UserRepoListener.java:58-72 | as written a user's own new file is not forwarded while an echo of the fan-out is; the corrected gate does the opposite |
| UserRepo.UserRepoListener.FileModified | services/project-manager-service/src/main/java/com/thinkbiganalytics/projects/services/UserRepoListener.java:53-56 | modifications always raise UnsupportedOperationException |
| UserRepo.UserRepoListener.FileCreated | services/project-manager-service/src/main/java/com/thinkbiganalytics/projects/services/UserRepoListener.java:66-72 | an untracked path changes nothing; a tracked one gets the full userFileCreated guarantees |
| UserRepo.UserRepoListener.FileDeleted | services/project-manager-service/src/main/java/com/thinkbiganalytics/projects/services/UserRepoListener.java:58-64 | an untracked path changes nothing; a tracked one gets the full userFileDeleted guarantees |
| UserRepo.UserRepoListener.FileCreatedCorrected | services/project-manager-service/src/main/java/com/thinkbiganalytics/projects/services/UserRepoListener.java:66-72 | with the echo-suppressing gate, and every path the fan-out adds is then dropped by the gate |
| UserRepo.UserRepoListener.FileDeletedCorrected | services/project-manager-service/src/main/java/com/thinkbiganalytics/projects/services/UserRepoListener.java:58-64 | with the echo-suppressing gate, a user's delete removes the peers' copies |
| UserRepo.NewUserRepoListener | services/project-manager-service/src/main/java/com/thinkbiganalytics/projects/services/UserRepoListener.java:44-51 | the listener is built exactly when the user repository exists, otherwise IllegalArgumentException |
| Watcher.DropOverflow | services/project-manager-service/src/main/java/com/thinkbiganalytics/projects/services/RecursiWatcherService.java:136-137 | no OVERFLOW event remains |
| Watcher.CallEach | services/project-manager-service/src/main/java/com/thinkbiganalytics/projects/services/RecursiWatcherService.java:178-186 | every listener is called exactly once with the event, and each outcome is recorded |
| Watcher.RecursiWatcherService.RegisterDirectory | services/project-manager-service/src/main/java/com/thinkbiganalytics/projects/services/RecursiWatcherService.java:103-107 | the directory gets a fresh key that maps back to it; older keys are kept |
| Watcher.RecursiWatcherService.Register | services/project-manager-service/src/main/java/com/thinkbiganalytics/projects/services/RecursiWatcherService.java:96-113 | succeeds exactly for a directory whose whole tree can be listed, and then every directory below is watched; a missing path raises RuntimeException and registers nothing; new keys are for directories below the path |
| Watcher.RecursiWatcherService.WalkFrom | services/project-manager-service/src/main/java/com/thinkbiganalytics/projects/services/RecursiWatcherService.java:101-109 | the walk registers every directory below and fails with AccessDenied exactly when one cannot be listed |
| Watcher.RecursiWatcherService.RegisterListener | services/project-manager-service/src/main/java/com/thinkbiganalytics/projects/services/RecursiWatcherService.java:171-173 | the listeners form a set: adding one twice changes nothing |
| Watcher.RecursiWatcherService.Notify | services/project-manager-service/src/main/java/com/thinkbiganalytics/projects/services/RecursiWatcherService.java:175-202 | exactly one dispatch is recorded, about the event, delivered to every listener whatever they throw |
| Watcher.RecursiWatcherService.FileCreated | services/project-manager-service/src/main/java/com/thinkbiganalytics/projects/services/RecursiWatcherService.java:175-187 | one creation dispatch delivered to every listener |
| Watcher.RecursiWatcherService.FileDeleted | services/project-manager-service/src/main/java/com/thinkbiganalytics/projects/services/RecursiWatcherService.java:189-202 | one deletion dispatch delivered to every listener |
| Watcher.RecursiWatcherService.StartRecursiveWatcher | services/project-manager-service/src/main/java/com/thinkbiganalytics/projects/services/RecursiWatcherService.java:91-115 | succeeds exactly when the root tree can be registered, and then the whole root is watched |
| Watcher.RecursiWatcherService.HandleEvent | services/project-manager-service/src/main/java/com/thinkbiganalytics/projects/services/RecursiWatcherService.java:138-155 | one event does exactly what the plan step says; a new directory is watched |
| Watcher.RecursiWatcherService.DispatchEvent | services/project-manager-service/src/main/java/com/thinkbiganalytics/projects/services/RecursiWatcherService.java:148-154 | CREATE and DELETE give exactly one notification of their kind; anything else raises UnsupportedOperationException |
| Watcher.RecursiWatcherService.HandleEvents | services/project-manager-service/src/main/java/com/thinkbiganalytics/projects/services/RecursiWatcherService.java:136-155 | the events of a batch, in order: the notifications and the outcome are those of the plan, and on success every new directory is watched |
| Watcher.RecursiWatcherService.ProcessKey | services/project-manager-service/src/main/java/com/thinkbiganalytics/projects/services/RecursiWatcherService.java:130-155 | an unknown key is skipped; a known key handles its batch as planned: the dispatched calls, the outcome, and the registration of every new directory when no call throws |
| Watcher.PlanIgnoresOverflow | services/project-manager-service/src/main/java/com/thinkbiganalytics/projects/services/RecursiWatcherService.java:136-137 | OVERFLOW events play no part in what a batch does |
| Watcher.PlanComplete | services/project-manager-service/src/main/java/com/thinkbiganalytics/projects/services/RecursiWatcherService.java:136-155 | a batch is handled to the end exactly when it has only CREATE, DELETE and OVERFLOW events with listable directories, and then every CREATE and DELETE is notified in order |
| Watcher.PlanStaysInDirectory | services/project-manager-service/src/main/java/com/thinkbiganalytics/projects/services/RecursiWatcherService.java:140-141 | every notification is about an entry of the key's directory |
| Watcher.UserOfCases | services/project-manager-service/src/main/java/com/thinkbiganalytics/projects/services/RecursiWatcherService.java:177 | the user a notification names is the first name below the root, empty for the root itself and ".." outside it |
| Security.DiffSet | services/project-manager-service/src/main/java/com/thinkbiganalytics/projects/security/DefaultProjectSecurityService.java:151-155 | the elements of the minuend not in the subtrahend |
| Security.AppliedUsers | services/project-manager-service/src/main/java/com/thinkbiganalytics/projects/security/DefaultProjectSecurityService.java:217-240 | ADD adds the listed users, REMOVE takes them away, REPLACE leaves exactly the listed users |
| Security.AppliedGroups | services/project-manager-service/src/main/java/com/thinkbiganalytics/projects/security/DefaultProjectSecurityService.java:217-240 | the same for groups |
| Security.CorrectedIsDifference | services/project-manager-service/src/main/java/com/thinkbiganalytics/projects/security/DefaultProjectSecurityService.java:127-149 | the corrected granted and revoked sets are disjoint and users after = users before − revoked + granted |
| Security.CorrectedByKind | services/project-manager-service/src/main/java/com/thinkbiganalytics/projects/security/DefaultProjectSecurityService.java:127-149 | ADD grants the new listed users and revokes nobody; REMOVE revokes the listed members and grants nobody |
| Security.ReplaceAsWrittenAgrees | services/project-manager-service/src/main/java/com/thinkbiganalytics/projects/security/DefaultProjectSecurityService.java:127-149 | for REPLACE the sets as written are the corrected ones |
| Security.AddRevokesAsWritten | services/project-manager-service/src/main/java/com/thinkbiganalytics/projects/security/DefaultProjectSecurityService.java:139-149 | as written, ADD of u to role {a} revokes a |
| Security.RemoveRevokesAsWritten | services/project-manager-service/src/main/java/com/thinkbiganalytics/projects/security/DefaultProjectSecurityService.java:139-149 | as written, REMOVE of a from role {a, b} revokes b and not a |
| Security.CallsShape | services/project-manager-service/src/main/java/com/thinkbiganalytics/projects/security/DefaultProjectSecurityService.java:127-149 | each listener is told once about each user, about this project and role |
| Security.DeliverMeaning | services/project-manager-service/src/main/java/com/thinkbiganalytics/projects/security/DefaultProjectSecurityService.java:131-136 | the run completes exactly when no listener throws, and otherwise ends at the first that throws, with its exception |
| Security.Enumerate | services/project-manager-service/src/main/java/com/thinkbiganalytics/projects/security/DefaultProjectSecurityService.java:131 | the iteration order lists each element of the set once |
| Security.ChangeRoleMemberships | services/project-manager-service/src/main/java/com/thinkbiganalytics/projects/security/DefaultProjectSecurityService.java:217-240 | without a project or role nothing happens; otherwise the role becomes exactly the applied membership and is returned |
| Security.DefaultProjectSecurityService.AddRoleChangeListener | services/project-manager-service/src/main/java/com/thinkbiganalytics/projects/security/DefaultProjectSecurityService.java:242-245 | the listener is appended |
| Security.DefaultProjectSecurityService.ChangeProjectPermissions | services/project-manager-service/src/main/java/com/thinkbiganalytics/projects/security/DefaultProjectSecurityService.java:93-96 | always UnsupportedOperationException |
| Security.DefaultProjectSecurityService.CreateProjectPermissionChange | services/project-manager-service/src/main/java/com/thinkbiganalytics/projects/security/DefaultProjectSecurityService.java:157-160 | always UnsupportedOperationException |
| Security.DefaultProjectSecurityService.Notify | services/project-manager-service/src/main/java/com/thinkbiganalytics/projects/security/DefaultProjectSecurityService.java:127-149 | every listener hears about every user in an enumeration order, until one throws |
| Security.DefaultProjectSecurityService.NotifyChange | services/project-manager-service/src/main/java/com/thinkbiganalytics/projects/security/DefaultProjectSecurityService.java:103-125 | granted notifications first, revoked ones only if no granted call threw |
| Security.DefaultProjectSecurityService.ChangeProjectRoleMemberships | services/project-manager-service/src/main/java/com/thinkbiganalytics/projects/security/DefaultProjectSecurityService.java:103-125 | as written: granted and revoked are computed by treating the listed users as the full membership, the listeners are told in that order, and the change is applied and Ok exactly when no listener call throws; otherwise the result is the first exception and no role changes |
| Security.DefaultProjectSecurityService.ChangeProjectRoleMembershipsCorrected | services/project-manager-service/src/main/java/com/thinkbiganalytics/projects/security/DefaultProjectSecurityService.java:103-125 | the listeners are told about exactly the users the change adds to and takes from the role; the change is applied and Ok exactly when no listener call throws, and otherwise the result is the first exception and no role changes |
| Security.RevocationFails | services/project-manager-service/src/main/java/com/thinkbiganalytics/projects/security/DefaultProjectSecurityService.java:140-146 | when one listener throws on every revocation, telling the listeners about at least one revoked user ends with an exception |
| Security.DefaultProjectSecurityService.ApplyChange | services/project-manager-service/src/main/java/com/thinkbiganalytics/projects/security/DefaultProjectSecurityService.java:179-181 | the change is applied to the role of the project found by identifier, nothing is notified |
| UiProjects.Lower | ui/ui-app/src/main/resources/static/js/feed-mgr/services/ProjectsService.js:20 | toLowerCase keeps the length and maps each character |
| UiProjects.LowerFacts | ui/ui-app/src/main/resources/static/js/feed-mgr/services/ProjectsService.js:19-24 | lower-casing is idempotent, keeps prefixes and leaves no capital |
| UiProjects.EqualityFacts | ui/ui-app/src/main/resources/static/js/feed-mgr/services/ProjectsService.js:184 | loose equality is an equivalence that strict equality implies; null and undefined are loosely but not strictly equal |
| UiProjects.FirstWithId | ui/ui-app/src/main/resources/static/js/feed-mgr/services/ProjectsService.js:112-114 | the first project whose id is loosely equal, or the end |
| UiProjects.FoundIsIndexed | ui/ui-app/src/main/resources/static/js/feed-mgr/services/ProjectsService.js:130-132 | the object found by id is at the index indexOf gives, so the update replaces that one |
| UiProjects.Filter | ui/ui-app/src/main/resources/static/js/feed-mgr/services/ProjectsService.js:253 | every project kept matches and is from the list, and every matching project is kept |
| UiProjects.Picked | ui/ui-app/src/main/resources/static/js/feed-mgr/services/ProjectsService.js:253 | the increasing indices of exactly the matching projects |
| UiProjects.FilterSnoc | ui/ui-app/src/main/resources/static/js/feed-mgr/services/ProjectsService.js:253 | filtering a list with one more project at its end adds it exactly when it matches |
| UiProjects.FilterKeepsOrder | ui/ui-app/src/main/resources/static/js/feed-mgr/services/ProjectsService.js:253 | the filtered list is the list at the picked indices: the matching projects, each as often as it occurs, in order |
| UiProjects.NewProject | ui/ui-app/src/main/resources/static/js/feed-mgr/services/ProjectsService.js:265-276 | all descriptive fields null, empty lists, notebook folder off |
| UiProjects.ProjectsService.Update | ui/ui-app/src/main/resources/static/js/feed-mgr/services/ProjectsService.js:109-143 | without an id the cache is reloaded and the answer is false; a non-string name raises TypeError; otherwise the first project with that id is replaced, or the saved one appended, and the answer is true |
| UiProjects.ProjectsService.FindProject | ui/ui-app/src/main/resources/static/js/feed-mgr/services/ProjectsService.js:180-187 | the first cached project with a loosely equal id, or undefined |
| UiProjects.ProjectsService.FindProjectBySystemName | ui/ui-app/src/main/resources/static/js/feed-mgr/services/ProjectsService.js:198-207 | null for null or undefined, else the first cached project with a loosely equal system name when some has one, else undefined |
| UiProjects.ProjectsService.QuerySearch | ui/ui-app/src/main/resources/static/js/feed-mgr/services/ProjectsService.js:234-258 | an empty cache loads; a falsy query keeps every project; otherwise the filtered list, which holds exactly the projects whose lower-cased name starts with the lower-cased query |
| ProjectDefinition.SystemNameDescription | ui/ui-app/src/main/resources/static/js/feed-mgr/projects/details/project-definition.js:83-113 | the description of the naming table, empty exactly when the project has feeds and is new or editable |
| ProjectDefinition.HasNoFeeds | ui/ui-app/src/main/resources/static/js/feed-mgr/projects/details/project-definition.js:129-132 | always true |
| ProjectDefinition.HasFeeds | ui/ui-app/src/main/resources/static/js/feed-mgr/projects/details/project-definition.js:124-126 | always false |
| ProjectDefinition.DescriptionWithoutFeeds | ui/ui-app/src/main/resources/static/js/feed-mgr/projects/details/project-definition.js:83-132 | with no feeds the description is never empty |
| ProjectDefinition.NewAndUpdated | ui/ui-app/src/main/resources/static/js/feed-mgr/projects/details/project-definition.js:304-308 | an own id that is undefined or null makes a project both new (isNewProject) and sent as an update |
| ProjectDefinition.Reserved | ui/ui-app/src/main/resources/static/js/feed-mgr/projects/details/project-definition.js:219-220 | a name is reserved exactly when it is a string whose lower-cased form is in the reserved list ["thinkbig"] |
| ProjectDefinition.ReservedAnyCase | ui/ui-app/src/main/resources/static/js/feed-mgr/projects/details/project-definition.js:219-220 | the reserved name is caught in any case, and a longer name is not |
| ProjectDefinition.TakenMeaning | ui/ui-app/src/main/resources/static/js/feed-mgr/projects/details/project-definition.js:211-217 | a name is taken exactly when some other cached project has it, strictly equal |
| ProjectDefinition.OtherFacts | ui/ui-app/src/main/resources/static/js/feed-mgr/projects/details/project-definition.js:211-217 | a saved project never counts against its own name, and a new one counts against all |
| ProjectDefinition.ProjectDefinitionController.IsNewProject | ui/ui-app/src/main/resources/static/js/feed-mgr/projects/details/project-definition.js:115-117 | new exactly when the id is absent, undefined or null |
| ProjectDefinition.ProjectDefinitionController.GetSystemNameDescription | ui/ui-app/src/main/resources/static/js/feed-mgr/projects/details/project-definition.js:83-113 | never empty; says editable, auto generated or customisable by the state |
| ProjectDefinition.ProjectDefinitionController.CanDelete | ui/ui-app/src/main/resources/static/js/feed-mgr/projects/details/project-definition.js:148-150 | exactly when delete is allowed and the project has a string id |
| ProjectDefinition.ProjectDefinitionController.AllowEditSystemName | ui/ui-app/src/main/resources/static/js/feed-mgr/projects/details/project-definition.js:134-142 | the system name becomes editable, nothing else changes |
| ProjectDefinition.ProjectDefinitionController.OnEdit | ui/ui-app/src/main/resources/static/js/feed-mgr/projects/details/project-definition.js:192-194 | the edited project is a fresh copy of the shown one |
| ProjectDefinition.ProjectDefinitionController.OnCancel | ui/ui-app/src/main/resources/static/js/feed-mgr/projects/details/project-definition.js:155-160 | editing of the name ends, and the page leaves exactly when there is no string id |
| ProjectDefinition.ProjectDefinitionController.ValidateDisplayAndSystemName | ui/ui-app/src/main/resources/static/js/feed-mgr/projects/details/project-definition.js:199-233 | the system name is overwritten only when new and not editable; each field's duplicate and reserved validity are set by Taken and Reserved |
| ProjectDefinition.ProjectDefinitionController.ValidateDisplayName | ui/ui-app/src/main/resources/static/js/feed-mgr/projects/details/project-definition.js:238-262 | the same for the display name alone |
| ProjectDefinition.ProjectDefinitionController.ValidateSystemName | ui/ui-app/src/main/resources/static/js/feed-mgr/projects/details/project-definition.js:267-289 | the system name's invalid, duplicate and reserved validity are set; the project is unchanged |
| ProjectDefinition.ProjectDefinitionController.OnSave | ui/ui-app/src/main/resources/static/js/feed-mgr/projects/details/project-definition.js:294-308 | an update exactly when the edited project has its own id, carrying the six edited fields over the shown project |
| ProjectDefinition.ProjectDefinitionController.OnSaved | ui/ui-app/src/main/resources/static/js/feed-mgr/projects/details/project-definition.js:310-313 | the saved project goes into the cache and becomes the shown one; a non-string name raises TypeError and nothing is shown |

## Left out

- The operating system's watch service (take, pollEvents, reset, cleanup), the executor thread and the infinite loop: the batch of a key is an input, and the key's reset, whose answer the loop ignores, is not modelled.
- The tracked-path cache's capacity (10,000) and time-to-live (20 minutes): there is no clock, so the cache is a set that only grows.
- Real POSIX permission sets: a node has owner and others bits; `isPosix` is a flag of the disk.
- Following symbolic links (FOLLOW_LINKS): symbolic links are leaves of the tree and the walk does not enter their targets. Two consequences follow. Under FOLLOW_LINKS the walk reports a link to a regular file as a regular file and hard-links it (WalkTreeAndCreateLinks.java lines 53-56), where the model creates nothing for a link. And `File.isDirectory`, `isFile` and `exists` follow links (NotebookRepoObjUtils.java lines 98-100, userFileDeleted, RecursiWatcherService.java line 145), where the model looks at the link itself.
- ProjectService.ProjectServiceImpl.FanOutCreated: the full-replica promise for a directory assumes that the destinations are distinct, that none lies above or below another or the source, and that each destination's parent directory already exists and takes new entries. A ".." among the names can make two destinations resolve to the same path (ProjectService.TargetsDistinctPlain rules that out without one), and a missing parent shared by two destinations would be created by the first replica; no replica is promised in those cases. UserFileCreated and LinkPeers carry the same assumption.
- JCR metadata, transactions and access control: the provider keeps its projects in a set and every call runs as if committed.
- ProjectService.ProjectServiceImpl.UpdateProject: the role-membership changes (ProjectServiceImpl.java lines 188-193) are not made, because they depend on the allowed-actions check of the access-control layer.
- getAvailableProjectActions, getAllowedProjectActions and getProjectRoleMemberships of the security service, and accessProject's permission check: they belong to the access-control layer.
- The REST controller, ProjectsTransform's security-group transform, FileUtils.java, NotebookFsObj.java, NotebookFsObjOperable.java, the interfaces and logging.
- In ProjectsService.js: loadAll, delete, save, doUpdate, getProjectById and getProjectBySystemName, which are HTTP requests and promises; querySearch's loading branch answers `Loading`.
- ProjectsService.js's aliasing of `model` with objects in the cache: `model` is a separate field.
- In project-definition.js: toasts, dialogs, `$watch` and focus; the validation checks read the cache as it was when the response came, after the writes they make.
- FileSystemService.NotebookFileSystemServiceImpl.EnsureProjectMounts: the mirrored-tree and hard-link guarantees are stated for a single project, the only form its callers use.
- Watcher.CallEach: the identity of the listener that threw is not logged.
- Watcher.RecursiWatcherService.ProcessKey: a batch that throws (register's RuntimeException, or UnsupportedOperationException for an event that is neither a creation nor a deletion, RecursiWatcherService.java line 152) ends the watching task before key.reset() at line 157; the model returns the exception and has no state for the task having stopped or the key left unreset.
- UiProjects.LowerChar: JavaScript `toLowerCase` is modelled on the ASCII letters only; other letters keep their case.
- UiProjects.LooseEq: JavaScript's `==` converts a boolean and a string to numbers before comparing (`true == "1"`); the model compares values of different types as unequal. The ids and system names the cache compares are strings, null or undefined.

## Findings

| source | as written | input that shows it | evidently intended | confidence | as-written member | corrected member |
|---|---|---|---|---|---|---|
| services/project-manager-service/src/main/java/com/thinkbiganalytics/projects/services/impl/NotebookFileSystemServiceImpl.java:151-158 | deleteProjectRepo builds a UserFsObj without an access type, so getProjectPath raises NullPointerException and nothing is deleted. userRevokedRole (ProjectServiceImpl.java lines 98-102) therefore always throws; the exception escapes usersRevokedRole's forEach (DefaultProjectSecurityService.java lines 144-146), so changeProjectRoleMemberships stops before applying the change, and no role change that revokes anybody takes effect (ProjectService.ProjectServiceImpl.UserRevokedRole, Security.RevocationFails) | any user and project, with an accessible users' root | delete usersRepo/user/readWrite, the mount ensureProjectMounts made | not executed | FileSystemService.NotebookFileSystemServiceImpl.DeleteProjectRepo | FileSystemService.NotebookFileSystemServiceImpl.DeleteProjectRepoCorrected |
| services/project-manager-service/src/main/java/com/thinkbiganalytics/projects/services/UserRepoListener.java:58-72 | the listener forwards an event only when its path is in the tracked-path cache, so a user's own new file is never mirrored and the service's own links are | a user creates a file that nothing has tracked, while the fan-out's link in a peer's tree is tracked | drop tracked paths (echoes) and forward the rest | not executed | UserRepo.UserRepoListener.FileCreated | UserRepo.UserRepoListener.FileCreatedCorrected |
| services/project-manager-service/src/main/java/com/thinkbiganalytics/projects/security/DefaultProjectSecurityService.java:127-149 | usersGrantedRole and usersRevokedRole treat the listed users as the role's new membership for ADD and REMOVE as well as REPLACE | role {a}, ADD [u]: a is told revoked though still a member | grant the users the change adds and revoke those it removes | not executed | Security.DefaultProjectSecurityService.ChangeProjectRoleMemberships | Security.DefaultProjectSecurityService.ChangeProjectRoleMembershipsCorrected |
