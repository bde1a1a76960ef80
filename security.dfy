// DefaultProjectSecurityService: changes to the members of one role of a
// project, and the role-change listeners it tells which users the change
// grants or revokes the role. Access-control checks, permission lists and
// the metadata transactions are not modelled; what a listener does when it
// is called is a parameter of the service (`respond`).

module Security {
  import opened Wrappers
  import opened Metadata

  /** Identifies one registered RoleChangeListener. */
  type RoleListenerId = nat

  /** ChangeType of a membership change. */
  datatype ChangeType = Add | Remove | Replace

  /** RoleMembershipChange: the kind of change, the role's system name and
      the listed user and group names. */
  datatype RoleMembershipChange =
    RoleMembershipChange(change: ChangeType, roleName: string, users: seq<string>, groups: seq<string>)

  datatype Notice = Granted | Revoked

  /** One call of userGrantedRole or userRevokedRole on one listener. */
  datatype RoleEvent = RoleEvent(notice: Notice, user: string, projectId: string, roleName: string,
                                 listener: RoleListenerId)

  /** diffSet: the elements of the minuend that are not in the subtrahend. */
  function DiffSet<T>(minuend: set<T>, subtrahend: set<T>): (r: set<T>)
    ensures r <= minuend && r !! subtrahend
    ensures forall m :: m in minuend ==> m in r || m in subtrahend
  {
    set m | m in minuend && m !in subtrahend
  }

  /** The names listed in a change, as the HashSet built from them. */
  function Listed(names: seq<string>): (r: set<string>)
    ensures forall u :: u in r <==> u in names
  {
    set u | u in names
  }

  /** asUserPrincipals and asGroupPrincipals. */
  function AsUserPrincipals(names: seq<string>): (r: seq<Principal>)
    ensures |r| == |names| && forall i :: 0 <= i < |r| ==> r[i] == UserPrincipal(names[i])
  {
    seq(|names|, i requires 0 <= i < |names| => UserPrincipal(names[i]))
  }

  function AsGroupPrincipals(names: seq<string>): (r: seq<Principal>)
    ensures |r| == |names| && forall i :: 0 <= i < |r| ==> r[i] == GroupPrincipal(names[i])
  {
    seq(|names|, i requires 0 <= i < |names| => GroupPrincipal(names[i]))
  }

  function Members(ps: seq<Principal>): set<Principal> {
    set p | p in ps
  }

  /** setMemebers for one kind of principal: the members of the other kind
      stay, those of this kind become exactly `ps`. */
  function Replaced(members: set<Principal>, ps: seq<Principal>, users: bool): set<Principal> {
    (set m | m in members && m.UserPrincipal? != users) + Members(ps)
  }

  /** The members of a role once changeRoleMemberships has applied `change`. */
  function Applied(change: RoleMembershipChange, members: set<Principal>): set<Principal> {
    var us := AsUserPrincipals(change.users);
    var gs := AsGroupPrincipals(change.groups);
    match change.change
    case Add => members + Members(us) + Members(gs)
    case Remove => members - Members(us) - Members(gs)
    case Replace => Replaced(Replaced(members, us, true), gs, false)
  }

  /** The principals built from a list of names are of one kind and stand
      for exactly the listed names. */
  lemma PrincipalMembers(names: seq<string>)
    ensures forall u :: UserPrincipal(u) in Members(AsUserPrincipals(names)) <==> u in names
    ensures forall g :: GroupPrincipal(g) in Members(AsGroupPrincipals(names)) <==> g in names
    ensures forall p :: p in Members(AsUserPrincipals(names)) ==> p.UserPrincipal?
    ensures forall p :: p in Members(AsGroupPrincipals(names)) ==> p.GroupPrincipal?
  {
    var us := AsUserPrincipals(names);
    var gs := AsGroupPrincipals(names);
    forall u | u in names
      ensures UserPrincipal(u) in Members(us) && GroupPrincipal(u) in Members(gs)
    {
      var i :| 0 <= i < |names| && names[i] == u;
      assert us[i] == UserPrincipal(u) && gs[i] == GroupPrincipal(u);
    }
  }

  /** The user members after a change: ADD adds the listed users, REMOVE
      takes them away, REPLACE leaves exactly the listed users. */
  lemma AppliedUsers(change: RoleMembershipChange, members: set<Principal>)
    ensures change.change == Add ==> UserNames(Applied(change, members)) == UserNames(members) + Listed(change.users)
    ensures change.change == Remove ==> UserNames(Applied(change, members)) == UserNames(members) - Listed(change.users)
    ensures change.change == Replace ==> UserNames(Applied(change, members)) == Listed(change.users)
  {
    PrincipalMembers(change.users);
    PrincipalMembers(change.groups);
  }

  /** The group members after a change, likewise. */
  lemma AppliedGroups(change: RoleMembershipChange, members: set<Principal>, g: string)
    ensures change.change == Add ==> (GroupPrincipal(g) in Applied(change, members) <==>
                                        GroupPrincipal(g) in members || g in change.groups)
    ensures change.change == Remove ==> (GroupPrincipal(g) in Applied(change, members) <==>
                                           GroupPrincipal(g) in members && g !in change.groups)
    ensures change.change == Replace ==> (GroupPrincipal(g) in Applied(change, members) <==> g in change.groups)
  {
    PrincipalMembers(change.users);
    PrincipalMembers(change.groups);
  }

  // ----- who is granted or revoked the role -----

  /** usersGrantedRole as written: the listed users who are not yet members. */
  function GrantedAsWritten(current: set<string>, change: RoleMembershipChange): set<string> {
    DiffSet(Listed(change.users), current)
  }

  /** usersRevokedRole as written: the members who are not listed. */
  function RevokedAsWritten(current: set<string>, change: RoleMembershipChange): set<string> {
    DiffSet(current, Listed(change.users))
  }

  /** The users the change makes members of the role. */
  function GrantedCorrected(members: set<Principal>, change: RoleMembershipChange): set<string> {
    DiffSet(UserNames(Applied(change, members)), UserNames(members))
  }

  /** The users the change takes out of the role. */
  function RevokedCorrected(members: set<Principal>, change: RoleMembershipChange): set<string> {
    DiffSet(UserNames(members), UserNames(Applied(change, members)))
  }

  /** The corrected sets are exactly the difference between the role's
      users before and after: nobody is both granted and revoked, and the
      users after are those before, less the revoked, plus the granted. */
  lemma CorrectedIsDifference(members: set<Principal>, change: RoleMembershipChange)
    ensures GrantedCorrected(members, change) !! RevokedCorrected(members, change)
    ensures UserNames(Applied(change, members))
            == UserNames(members) - RevokedCorrected(members, change) + GrantedCorrected(members, change)
  {
  }

  /** ADD never revokes and grants the listed users who were not members;
      REMOVE never grants and revokes the listed users who were members. */
  lemma CorrectedByKind(members: set<Principal>, change: RoleMembershipChange)
    ensures change.change == Add ==>
              RevokedCorrected(members, change) == {}
              && GrantedCorrected(members, change) == Listed(change.users) - UserNames(members)
    ensures change.change == Remove ==>
              GrantedCorrected(members, change) == {}
              && RevokedCorrected(members, change) == Listed(change.users) * UserNames(members)
  {
    AppliedUsers(change, members);
  }

  /** For REPLACE the listed users are the new members, so the sets as
      written are the corrected ones. */
  lemma ReplaceAsWrittenAgrees(members: set<Principal>, change: RoleMembershipChange)
    requires change.change == Replace
    ensures GrantedAsWritten(UserNames(members), change) == GrantedCorrected(members, change)
    ensures RevokedAsWritten(UserNames(members), change) == RevokedCorrected(members, change)
  {
    AppliedUsers(change, members);
  }

  /** As written, ADD of a new user to a role whose only member is "a"
      revokes the role from "a", whom the change keeps as a member. */
  lemma AddRevokesAsWritten()
    ensures var members := {UserPrincipal("a")};
            var change := RoleMembershipChange(Add, "editor", ["u"], []);
            RevokedAsWritten(UserNames(members), change) == {"a"}
            && RevokedCorrected(members, change) == {}
            && "a" in UserNames(Applied(change, members))
  {
    var members := {UserPrincipal("a")};
    var change := RoleMembershipChange(Add, "editor", ["u"], []);
    AppliedUsers(change, members);
    assert "u" != "a";
    assert UserNames(members) == {"a"};
  }

  /** As written, REMOVE of "a" from the role {a, b} revokes it from "b",
      who stays a member, and not from "a", who leaves. */
  lemma RemoveRevokesAsWritten()
    ensures var members := {UserPrincipal("a"), UserPrincipal("b")};
            var change := RoleMembershipChange(Remove, "editor", ["a"], []);
            RevokedAsWritten(UserNames(members), change) == {"b"}
            && RevokedCorrected(members, change) == {"a"}
            && "b" in UserNames(Applied(change, members))
  {
    var members := {UserPrincipal("a"), UserPrincipal("b")};
    var change := RoleMembershipChange(Remove, "editor", ["a"], []);
    AppliedUsers(change, members);
    assert "a" != "b";
    assert UserNames(members) == {"a", "b"};
  }

  // ----- the listener calls -----

  /** The calls that tell every listener, in registration order, about
      every user of `users`, in that order. */
  function Calls(notice: Notice, users: seq<string>, listeners: seq<RoleListenerId>, id: string,
                 roleName: string): seq<RoleEvent>
    decreases |users|
  {
    if users == [] then []
    else seq(|listeners|, i requires 0 <= i < |listeners| => RoleEvent(notice, users[0], id, roleName, listeners[i]))
         + Calls(notice, users[1..], listeners, id, roleName)
  }

  /** Each listener is called once about each user, and every call is
      about this project, this role and one of those users. */
  lemma {:induction false} CallsShape(notice: Notice, users: seq<string>, listeners: seq<RoleListenerId>,
                                      id: string, roleName: string)
    ensures |Calls(notice, users, listeners, id, roleName)| == |users| * |listeners|
    ensures forall e :: e in Calls(notice, users, listeners, id, roleName) <==>
              e.notice == notice && e.user in users && e.listener in listeners
              && e.projectId == id && e.roleName == roleName
    decreases |users|
  {
    if users != [] {
      CallsShape(notice, users[1..], listeners, id, roleName);
      var head := seq(|listeners|, i requires 0 <= i < |listeners| => RoleEvent(notice, users[0], id, roleName, listeners[i]));
      assert Calls(notice, users, listeners, id, roleName) == head + Calls(notice, users[1..], listeners, id, roleName);
      forall e
        ensures e in head <==> e.notice == notice && e.user == users[0] && e.listener in listeners
                               && e.projectId == id && e.roleName == roleName
      {
        if e.notice == notice && e.user == users[0] && e.listener in listeners && e.projectId == id && e.roleName == roleName {
          var i :| 0 <= i < |listeners| && listeners[i] == e.listener;
          assert head[i] == e;
        }
      }
      assert forall u :: u in users <==> u == users[0] || u in users[1..];
    }
  }

  /** The calls a stream forEach makes before the first exception stops
      it, that call included, and the outcome: Done when no call throws,
      the first exception otherwise. */
  function Deliver(events: seq<RoleEvent>, respond: RoleEvent -> Outcome): (r: (seq<RoleEvent>, Outcome))
    ensures |r.0| <= |events| && r.0 == events[..|r.0|]
  {
    if events == [] then ([], Done)
    else if respond(events[0]).Failed? then ([events[0]], respond(events[0]))
    else
      var rest := Deliver(events[1..], respond);
      assert forall i :: 1 <= i < |events| ==> events[i] == events[1..][i - 1];
      ([events[0]] + rest.0, rest.1)
  }

  /** The run is complete exactly when no call throws; otherwise it ends
      with the first call that throws, and its outcome is that exception. */
  lemma {:induction false} DeliverMeaning(events: seq<RoleEvent>, respond: RoleEvent -> Outcome)
    ensures var d := Deliver(events, respond);
            d.1.Done? <==> d.0 == events && forall i :: 0 <= i < |events| ==> respond(events[i]).Done?
    ensures var d := Deliver(events, respond);
            d.1.Failed? ==> |d.0| > 0 && respond(d.0[|d.0| - 1]) == d.1
                            && forall i :: 0 <= i < |d.0| - 1 ==> respond(d.0[i]).Done?
  {
    if events != [] && respond(events[0]).Done? {
      DeliverMeaning(events[1..], respond);
      assert forall i :: 1 <= i < |events| ==> events[i] == events[1..][i - 1];
    }
  }

  /** When one listener throws on every revocation it is told of, a run
      of revocations about at least one user ends with an exception. */
  lemma RevocationFails(users: seq<string>, listeners: seq<RoleListenerId>, id: string, roleName: string,
                        respond: RoleEvent -> Outcome, k: nat)
    requires users != [] && k < |listeners|
    requires forall u :: respond(RoleEvent(Revoked, u, id, roleName, listeners[k])).Failed?
    ensures Deliver(Calls(Revoked, users, listeners, id, roleName), respond).1.Failed?
  {
    var events := Calls(Revoked, users, listeners, id, roleName);
    CallsShape(Revoked, users, listeners, id, roleName);
    DeliverMeaning(events, respond);
    var e := RoleEvent(Revoked, users[0], id, roleName, listeners[k]);
    assert e in events;
  }

  /** Deliver(events) split at `i`: the calls before `i`, then the run from `i`. */
  predicate DeliveredUpTo(events: seq<RoleEvent>, respond: RoleEvent -> Outcome, i: nat)
    requires i <= |events|
  {
    Deliver(events, respond).0 == events[..i] + Deliver(events[i..], respond).0
    && Deliver(events, respond).1 == Deliver(events[i..], respond).1
  }

  /** After a call that succeeds the run goes on with the next one. */
  lemma DeliverAdvance(events: seq<RoleEvent>, respond: RoleEvent -> Outcome, i: nat)
    requires i < |events| && respond(events[i]).Done? && DeliveredUpTo(events, respond, i)
    ensures DeliveredUpTo(events, respond, i + 1)
  {
    var tail := events[i..];
    assert tail[0] == events[i] && tail[1..] == events[i + 1..];
    var rest := Deliver(events[i + 1..], respond);
    assert Deliver(tail, respond) == ([events[i]] + rest.0, rest.1);
    assert events[..i] + [events[i]] == events[..i + 1];
    assert events[..i] + ([events[i]] + rest.0) == events[..i + 1] + rest.0;
  }

  /** Recording one more event extends the recorded prefix. */
  lemma FiredStep(f0: seq<RoleEvent>, events: seq<RoleEvent>, i: nat)
    requires i < |events|
    ensures (f0 + events[..i]) + [events[i]] == f0 + events[..i + 1]
  {
    assert events[..i] + [events[i]] == events[..i + 1];
  }

  /** A call that throws ends the run. */
  lemma DeliverStop(events: seq<RoleEvent>, respond: RoleEvent -> Outcome, i: nat)
    requires i < |events| && respond(events[i]).Failed? && DeliveredUpTo(events, respond, i)
    ensures Deliver(events, respond) == (events[..i + 1], respond(events[i]))
  {
    assert events[i..][0] == events[i];
    assert events[..i] + [events[i]] == events[..i + 1];
  }

  /** A sequence of the distinct elements of `s`: the HashSet's iteration order. */
  predicate Enumerates(order: seq<string>, s: set<string>) {
    Listed(order) == s && |order| == |s|
  }

  method Enumerate(s: set<string>) returns (order: seq<string>)
    ensures Enumerates(order, s)
  {
    order := [];
    var rest := s;
    while rest != {}
      invariant rest !! Listed(order) && rest + Listed(order) == s
      invariant |order| == |Listed(order)|
      decreases |rest|
    {
      var u :| u in rest;
      assert Listed(order + [u]) == Listed(order) + {u};
      order := order + [u];
      rest := rest - {u};
    }
  }

  // ----- applying the change to the role -----

  /** Only the role memberships of `p` changed. */
  twostate predicate OnlyRolesChanged(p: Project)
    reads p
  {
    p.systemName == old(p.systemName) && p.projectName == old(p.projectName)
    && p.description == old(p.description) && p.icon == old(p.icon) && p.iconColor == old(p.iconColor)
    && p.notebookFolderEnabled == old(p.notebookFolderEnabled)
  }

  /** domain.addMember for each principal, in order. */
  method AddMembers(domain: Project, roleName: string, ps: seq<Principal>)
    requires roleName in domain.roles
    modifies domain
    ensures domain.roles == old(domain.roles)[roleName := old(domain.roles[roleName]) + Members(ps)]
    ensures OnlyRolesChanged(domain)
  {
    ghost var base := domain.roles;
    var i := 0;
    assert Members(ps[..0]) == {};
    assert base == base[roleName := base[roleName] + {}] by {
      assert base[roleName] + {} == base[roleName];
    }
    while i < |ps|
      invariant i <= |ps|
      invariant domain.roles == base[roleName := base[roleName] + Members(ps[..i])]
      invariant OnlyRolesChanged(domain)
    {
      assert Members(ps[..i + 1]) == Members(ps[..i]) + {ps[i]} by {
        assert ps[..i + 1] == ps[..i] + [ps[i]];
      }
      domain.roles := domain.roles[roleName := domain.roles[roleName] + {ps[i]}];
      assert domain.roles[roleName] == base[roleName] + Members(ps[..i + 1]);
      i := i + 1;
    }
    assert ps[..i] == ps;
  }

  /** domain.removeMember for each principal, in order. */
  method RemoveMembers(domain: Project, roleName: string, ps: seq<Principal>)
    requires roleName in domain.roles
    modifies domain
    ensures domain.roles == old(domain.roles)[roleName := old(domain.roles[roleName]) - Members(ps)]
    ensures OnlyRolesChanged(domain)
  {
    ghost var base := domain.roles;
    var i := 0;
    assert Members(ps[..0]) == {};
    assert base == base[roleName := base[roleName] - {}] by {
      assert base[roleName] - {} == base[roleName];
    }
    while i < |ps|
      invariant i <= |ps|
      invariant domain.roles == base[roleName := base[roleName] - Members(ps[..i])]
      invariant OnlyRolesChanged(domain)
    {
      assert Members(ps[..i + 1]) == Members(ps[..i]) + {ps[i]} by {
        assert ps[..i + 1] == ps[..i] + [ps[i]];
      }
      domain.roles := domain.roles[roleName := domain.roles[roleName] - {ps[i]}];
      assert domain.roles[roleName] == base[roleName] - Members(ps[..i + 1]);
      i := i + 1;
    }
    assert ps[..i] == ps;
  }

  /** domain.setMemebers for the principals of one kind. */
  method SetMembers(domain: Project, roleName: string, ps: seq<Principal>, users: bool)
    requires roleName in domain.roles
    modifies domain
    ensures domain.roles == old(domain.roles)[roleName := Replaced(old(domain.roles[roleName]), ps, users)]
    ensures OnlyRolesChanged(domain)
  {
    domain.roles := domain.roles[roleName := Replaced(domain.roles[roleName], ps, users)];
  }

  /** changeRoleMemberships on the project the supplier found: nothing for
      a missing project or a role the project does not have, otherwise the
      role's members after the change. */
  method ChangeRoleMemberships(change: RoleMembershipChange, project: Option<Project>)
    returns (r: Option<set<Principal>>)
    modifies if project.Some? then {project.value} else {}
    ensures project.None? ==> r == None
    ensures project.Some? ==> OnlyRolesChanged(project.value)
    ensures project.Some? && change.roleName !in old(project.value.roles) ==>
              r == None && project.value.roles == old(project.value.roles)
    ensures project.Some? && change.roleName in old(project.value.roles) ==>
              var after := Applied(change, old(project.value.roles[change.roleName]));
              r == Some(after) && project.value.roles == old(project.value.roles)[change.roleName := after]
  {
    if project.None? || change.roleName !in project.value.roles {
      return None;
    }
    var domain := project.value;
    var role := change.roleName;
    match change.change {
      case Add =>
        AddMembers(domain, role, AsUserPrincipals(change.users));
        AddMembers(domain, role, AsGroupPrincipals(change.groups));
      case Remove =>
        RemoveMembers(domain, role, AsUserPrincipals(change.users));
        RemoveMembers(domain, role, AsGroupPrincipals(change.groups));
      case Replace =>
        SetMembers(domain, role, AsUserPrincipals(change.users), true);
        SetMembers(domain, role, AsGroupPrincipals(change.groups), false);
    }
    return Some(domain.roles[role]);
  }

  class DefaultProjectSecurityService {
    const provider: ProjectProvider
    /** roleChangeListeners, in registration order. */
    var roleChangeListeners: seq<RoleListenerId>
    /** Every listener call made so far, in order. */
    var fired: seq<RoleEvent>
    /** What one listener call does: Done, or the exception it throws. */
    const respond: RoleEvent -> Outcome

    ghost predicate Valid()
      reads this, provider, provider.projects
    {
      provider.Valid()
    }

    constructor (provider: ProjectProvider, respond: RoleEvent -> Outcome)
      requires provider.Valid()
      ensures Valid() && this.provider == provider && this.respond == respond
      ensures roleChangeListeners == [] && fired == []
    {
      this.provider := provider;
      this.respond := respond;
      roleChangeListeners := [];
      fired := [];
    }

    /** The project with identifier `id`, if the store has one. */
    ghost function ProjectById(id: string): (r: Option<Project>)
      reads this, provider, provider.projects
      requires Valid()
      ensures r.Some? <==> exists p :: p in provider.projects && p.id == id
      ensures r.Some? ==> r.value in provider.projects && r.value.id == id
    {
      if exists p :: p in provider.projects && p.id == id then
        var p :| p in provider.projects && p.id == id; Some(p)
      else None
    }

    /** The users of role `roleName` of the project `id`; none when either
        is missing. */
    ghost function MembersOf(id: string, roleName: string): set<string>
      reads this, provider, provider.projects, provider.projects
      requires Valid()
    {
      match ProjectById(id)
      case None => {}
      case Some(p) => p.RoleUsers(roleName)
    }

    /** The members of role `roleName` of the project `id`, when both exist. */
    ghost function RoleOf(id: string, roleName: string): Option<set<Principal>>
      reads this, provider, provider.projects, provider.projects
      requires Valid()
    {
      match ProjectById(id)
      case None => None
      case Some(p) => if roleName in p.roles then Some(p.roles[roleName]) else None
    }

    /** addRoleChangeListener */
    method AddRoleChangeListener(l: RoleListenerId)
      modifies this
      ensures roleChangeListeners == old(roleChangeListeners) + [l]
      ensures fired == old(fired)
    {
      roleChangeListeners := roleChangeListeners + [l];
    }

    /** changeProjectPermissions is not supported. */
    method ChangeProjectPermissions(id: string) returns (r: Outcome)
      ensures r == Failed(UnsupportedOperation)
    {
      return Failed(UnsupportedOperation);
    }

    /** createProjectPermissionChange is not supported. */
    method CreateProjectPermissionChange(id: string) returns (r: Outcome)
      ensures r == Failed(UnsupportedOperation)
    {
      return Failed(UnsupportedOperation);
    }

    /** getProjectMembersWithRoleById */
    method GetProjectMembersWithRoleById(id: string, roleName: string) returns (users: set<string>)
      requires Valid()
      ensures users == MembersOf(id, roleName)
    {
      var p := provider.FindById(id);
      if p.Some? {
        users := p.value.RoleUsers(roleName);
      } else {
        users := {};
      }
    }

    /** The calls of a stream forEach: each in turn, until one throws. */
    method Fire(events: seq<RoleEvent>) returns (r: Outcome)
      modifies this`fired
      ensures fired == old(fired) + Deliver(events, respond).0
      ensures r == Deliver(events, respond).1
    {
      var i := 0;
      assert events[0..] == events && events[..0] == [];
      while i < |events|
        invariant i <= |events|
        invariant fired == old(fired) + events[..i]
        invariant DeliveredUpTo(events, respond, i)
      {
        FiredStep(old(fired), events, i);
        fired := fired + [events[i]];
        var out := respond(events[i]);
        if out.Failed? {
          DeliverStop(events, respond, i);
          return out;
        }
        DeliverAdvance(events, respond, i);
        i := i + 1;
      }
      assert events[..i] == events && events[i..] == [];
      r := Done;
    }

    /** Tells every listener about every user in `users`. */
    method Notify(notice: Notice, users: set<string>, id: string, roleName: string)
      returns (order: seq<string>, r: Outcome)
      modifies this`fired
      ensures Enumerates(order, users)
      ensures var d := Deliver(Calls(notice, order, roleChangeListeners, id, roleName), respond);
              fired == old(fired) + d.0 && r == d.1
    {
      order := Enumerate(users);
      r := Fire(Calls(notice, order, roleChangeListeners, id, roleName));
    }

    /** usersGrantedRole then usersRevokedRole on the given sets; an
        exception from a listener ends the change there. */
    method NotifyChange(id: string, roleName: string, grantedUsers: set<string>, revokedUsers: set<string>)
      returns (r: Outcome, granted: seq<string>, revoked: seq<string>)
      modifies this`fired
      ensures Enumerates(granted, grantedUsers)
      ensures var g := Deliver(Calls(Granted, granted, roleChangeListeners, id, roleName), respond);
              (g.1.Failed? ==> r == g.1 && revoked == [] && fired == old(fired) + g.0)
              && (g.1.Done? ==>
                    Enumerates(revoked, revokedUsers)
                    && var v := Deliver(Calls(Revoked, revoked, roleChangeListeners, id, roleName), respond);
                       r == v.1 && fired == old(fired) + g.0 + v.0)
    {
      var out;
      granted, out := Notify(Granted, grantedUsers, id, roleName);
      if out.Failed? {
        return out, granted, [];
      }
      revoked, r := Notify(Revoked, revokedUsers, id, roleName);
    }

    /** changeProjectRoleMemberships as written: the users granted and
        revoked are computed as if the listed users were the role's new
        members, the listeners are told, then the change is applied. */
    method ChangeProjectRoleMemberships(id: string, change: RoleMembershipChange)
      returns (r: Result<Option<set<Principal>>>, granted: seq<string>, revoked: seq<string>)
      requires Valid()
      modifies this`fired, provider.projects
      ensures Valid()
      ensures Enumerates(granted, GrantedAsWritten(old(MembersOf(id, change.roleName)), change))
      ensures var g := Deliver(Calls(Granted, granted, roleChangeListeners, id, change.roleName), respond);
              (g.1.Failed? ==> revoked == [] && fired == old(fired) + g.0)
              && (g.1.Done? ==>
                    Enumerates(revoked, RevokedAsWritten(old(MembersOf(id, change.roleName)), change))
                    && fired == old(fired) + g.0
                               + Deliver(Calls(Revoked, revoked, roleChangeListeners, id, change.roleName), respond).0)
      ensures var g := Deliver(Calls(Granted, granted, roleChangeListeners, id, change.roleName), respond);
              (g.1.Failed? ==> r == Err(g.1.error))
              && (g.1.Done? ==>
                    var v := Deliver(Calls(Revoked, revoked, roleChangeListeners, id, change.roleName), respond);
                    (v.1.Failed? ==> r == Err(v.1.error)) && (v.1.Done? ==> r.Ok?))
      ensures r.Err? ==> forall p :: p in provider.projects ==> p.roles == old(p.roles)
      ensures r.Ok? ==> Applies(id, change, r.value)
    {
      var current := GetProjectMembersWithRoleById(id, change.roleName);
      var out;
      out, granted, revoked := NotifyChange(id, change.roleName, GrantedAsWritten(current, change),
                                            RevokedAsWritten(current, change));
      if out.Failed? {
        return Err(out.error), granted, revoked;
      }
      var m := ApplyChange(id, change);
      return Ok(m), granted, revoked;
    }

    /** changeProjectRoleMemberships telling the listeners about exactly
        the users the change adds to and takes out of the role. */
    method ChangeProjectRoleMembershipsCorrected(id: string, change: RoleMembershipChange)
      returns (r: Result<Option<set<Principal>>>, granted: seq<string>, revoked: seq<string>)
      requires Valid()
      modifies this`fired, provider.projects
      ensures Valid()
      ensures old(RoleOf(id, change.roleName)).None? ==> granted == [] && revoked == [] && fired == old(fired)
      ensures old(RoleOf(id, change.roleName)).Some? ==>
                var members := old(RoleOf(id, change.roleName)).value;
                Enumerates(granted, GrantedCorrected(members, change))
                && var g := Deliver(Calls(Granted, granted, roleChangeListeners, id, change.roleName), respond);
                   (g.1.Failed? ==> revoked == [] && fired == old(fired) + g.0)
                   && (g.1.Done? ==>
                         Enumerates(revoked, RevokedCorrected(members, change))
                         && fired == old(fired) + g.0
                                    + Deliver(Calls(Revoked, revoked, roleChangeListeners, id, change.roleName), respond).0)
      ensures var g := Deliver(Calls(Granted, granted, roleChangeListeners, id, change.roleName), respond);
              (g.1.Failed? ==> r == Err(g.1.error))
              && (g.1.Done? ==>
                    var v := Deliver(Calls(Revoked, revoked, roleChangeListeners, id, change.roleName), respond);
                    (v.1.Failed? ==> r == Err(v.1.error)) && (v.1.Done? ==> r.Ok?))
      ensures r.Err? ==> forall p :: p in provider.projects ==> p.roles == old(p.roles)
      ensures r.Ok? ==> Applies(id, change, r.value)
    {
      var found := provider.FindById(id);
      var grantedUsers, revokedUsers := {}, {};
      if found.Some? && change.roleName in found.value.roles {
        var members := found.value.roles[change.roleName];
        grantedUsers, revokedUsers := GrantedCorrected(members, change), RevokedCorrected(members, change);
      }
      var out;
      out, granted, revoked := NotifyChange(id, change.roleName, grantedUsers, revokedUsers);
      if out.Failed? {
        return Err(out.error), granted, revoked;
      }
      var m := ApplyChange(id, change);
      return Ok(m), granted, revoked;
    }

    /** What a completed change did to the store: the role of the project
        `id` holds the applied members and is returned, or nothing exists to
        change and nothing is returned; no other role or project changes. */
    twostate predicate Applies(id: string, change: RoleMembershipChange, new m: Option<set<Principal>>)
      reads this, provider, provider.projects
      requires old(Valid()) && provider.projects == old(provider.projects)
    {
      (old(RoleOf(id, change.roleName)).None? ==>
         m == None && forall p :: p in old(provider.projects) ==> p.roles == old(p.roles))
      && (old(RoleOf(id, change.roleName)).Some? ==>
            var after := Applied(change, old(RoleOf(id, change.roleName)).value);
            m == Some(after)
            && (forall p :: p in old(provider.projects) && p.id != id ==> p.roles == old(p.roles))
            && (forall p :: p in old(provider.projects) && p.id == id ==>
                  p.roles == old(p.roles)[change.roleName := after]))
    }

    /** changeRoleMemberships(change, supplyProjectRoleMembership(id, role)). */
    method ApplyChange(id: string, change: RoleMembershipChange) returns (m: Option<set<Principal>>)
      requires Valid()
      modifies provider.projects
      ensures Valid()
      ensures fired == old(fired)
      ensures Applies(id, change, m)
      ensures forall p :: p in provider.projects ==> OnlyRolesChanged(p)
    {
      var found := provider.FindById(id);
      m := ChangeRoleMemberships(change, found);
    }
  }
}
