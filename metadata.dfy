// The metadata entities the project service reads: a project with its
// owner and role memberships, and the provider that finds projects. The
// metadata store itself (JCR, transactions) is not part of this model; the
// provider keeps its projects in a set.

module Metadata {
  import opened Wrappers

  /** UsernamePrincipal and GroupPrincipal. */
  datatype Principal = UserPrincipal(name: string) | GroupPrincipal(name: string)

  /** The user names among `members`. */
  function UserNames(members: set<Principal>): (r: set<string>)
    ensures forall u :: u in r <==> UserPrincipal(u) in members
  {
    set p | p in members && p.UserPrincipal? :: p.name
  }

  /** A project of the metadata store (JcrProject). */
  class Project {
    const id: string
    var systemName: string
    var projectName: string
    var description: string
    var icon: string
    var iconColor: string
    var notebookFolderEnabled: bool
    const owner: Principal
    /** The members of each of the project's roles, by role system name. */
    var roles: map<string, set<Principal>>

    constructor (id: string, systemName: string, owner: Principal)
      ensures this.id == id && this.systemName == systemName && this.owner == owner
      ensures projectName == "" && description == "" && icon == "" && iconColor == ""
      ensures !notebookFolderEnabled && roles == map[]
    {
      this.id := id;
      this.systemName := systemName;
      this.owner := owner;
      projectName := "";
      description := "";
      icon := "";
      iconColor := "";
      notebookFolderEnabled := false;
      roles := map[];
    }

    /** getProjectUsers: every user that is a member of one of the roles. */
    function Users(): (r: set<string>)
      reads this
      ensures forall u :: u in r <==> exists role :: role in roles && UserPrincipal(u) in roles[role]
    {
      set role, p | role in roles && p in roles[role] && p.UserPrincipal? :: p.name
    }

    /** getProjectMembersWithRoleById: the users of one role, none for a
        role the project does not have. */
    function RoleUsers(roleName: string): (r: set<string>)
      reads this
      ensures roleName !in roles ==> r == {}
      ensures roleName in roles ==> r == UserNames(roles[roleName])
    {
      if roleName in roles then UserNames(roles[roleName]) else {}
    }

    /** The users getUsersWithProjectAccess collects: the owner when it is
        a user principal, and every project user. */
    function Entitled(): (r: set<string>)
      reads this
      ensures Users() <= r
      ensures owner.UserPrincipal? ==> owner.name in r
      ensures forall u :: u in r ==> u in Users() || owner == UserPrincipal(u)
    {
      (if owner.UserPrincipal? then {owner.name} else {}) + Users()
    }
  }

  class ProjectProvider {
    var projects: set<Project>

    /** The store keeps system names and identifiers unique. */
    ghost predicate Valid()
      reads this, projects
    {
      (forall p, q :: p in projects && q in projects && p.systemName == q.systemName ==> p == q)
      && (forall p, q :: p in projects && q in projects && p.id == q.id ==> p == q)
    }

    constructor ()
      ensures Valid() && projects == {}
    {
      projects := {};
    }

    /** findProjectByName */
    method FindProjectByName(name: string) returns (r: Option<Project>)
      ensures r.Some? <==> exists p :: p in projects && p.systemName == name
      ensures r.Some? ==> r.value in projects && r.value.systemName == name
    {
      if p :| p in projects && p.systemName == name {
        return Some(p);
      }
      return None;
    }

    /** findById: null (None) for an unknown identifier. */
    method FindById(id: string) returns (r: Option<Project>)
      ensures r.Some? <==> exists p :: p in projects && p.id == id
      ensures r.Some? ==> r.value in projects && r.value.id == id
    {
      if p :| p in projects && p.id == id {
        return Some(p);
      }
      return None;
    }

    /** deleteProject */
    method DeleteProject(domain: Project)
      requires Valid()
      modifies this
      ensures Valid() && projects == old(projects) - {domain}
    {
      projects := projects - {domain};
    }
  }
}
