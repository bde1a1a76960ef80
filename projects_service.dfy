// ProjectsService (browser side): the cache of project objects the project
// pages share, its in-place update after a save, the lookups by identifier
// and system name, the autocomplete filter and the new-project literal. The
// HTTP calls and the loading promise are not modelled; a reload is counted.

module UiProjects {
  import opened Wrappers

  /** The JavaScript values a project object's properties hold: a property
      the object does not have, undefined, null, a boolean or a string. */
  datatype JsValue = Absent | Undefined | Null | Bool(b: bool) | Str(s: string)

  /** Reading a property that is not there gives undefined. */
  function Read(v: JsValue): JsValue {
    if v == Absent then Undefined else v
  }

  /** `a === b` */
  predicate StrictEq(a: JsValue, b: JsValue) {
    Read(a) == Read(b)
  }

  /** `a == b`: null and undefined are equal to each other and to nothing
      else; values of one type compare by value. */
  predicate LooseEq(a: JsValue, b: JsValue) {
    if Read(a) in {Undefined, Null} then Read(b) in {Undefined, Null} else Read(a) == Read(b)
  }

  /** `a != b`, the negation of loose equality. */
  predicate LooseNe(a: JsValue, b: JsValue) {
    !LooseEq(a, b)
  }

  /** Loose equality is an equivalence, and strictly equal values are
      loosely equal; null and undefined are loosely but not strictly equal. */
  lemma EqualityFacts(a: JsValue, b: JsValue, c: JsValue)
    ensures LooseEq(a, a)
    ensures LooseEq(a, b) ==> LooseEq(b, a)
    ensures LooseEq(a, b) && LooseEq(b, c) ==> LooseEq(a, c)
    ensures StrictEq(a, b) ==> LooseEq(a, b)
    ensures LooseEq(Null, Undefined) && !StrictEq(Null, Undefined)
  {
  }

  /** angular.isDefined */
  predicate IsDefined(v: JsValue) {
    Read(v) != Undefined
  }

  /** angular.isString */
  predicate IsString(v: JsValue) {
    v.Str?
  }

  /** The truthiness of a value in a condition. */
  predicate Truthy(v: JsValue) {
    match v
    case Bool(b) => b
    case Str(s) => s != ""
    case _ => false
  }

  /** toLowerCase on one character; only the ASCII letters are mapped. */
  function LowerChar(c: char): (r: char)
    ensures 'A' <= c <= 'Z' ==> r as int == c as int + 32
    ensures !('A' <= c <= 'Z') ==> r == c
  {
    if 'A' <= c <= 'Z' then (c as int + 32) as char else c
  }

  /** String.prototype.toLowerCase and angular.lowercase on a string. */
  function Lower(s: string): (r: string)
    ensures |r| == |s|
    ensures forall i :: 0 <= i < |s| ==> r[i] == LowerChar(s[i])
  {
    seq(|s|, i requires 0 <= i < |s| => LowerChar(s[i]))
  }

  /** Lower-casing twice lower-cases once, and it keeps prefixes. */
  lemma LowerFacts(p: string, s: string)
    ensures Lower(Lower(s)) == Lower(s)
    ensures p <= s ==> Lower(p) <= Lower(s)
    ensures forall i :: 0 <= i < |s| ==> !('A' <= Lower(s)[i] <= 'Z')
  {
  }

  /** A project object of the pages; `lowerName` is its `_lowername`. */
  class ProjectModel {
    var id: JsValue
    var projectName: JsValue
    var systemName: JsValue
    var description: JsValue
    var icon: JsValue
    var iconColor: JsValue
    var notebookFolderEnabled: JsValue
    var owner: JsValue
    /** userProperties and roleMemberships, None when the object has none. */
    var userProperties: Option<seq<string>>
    var roleMemberships: Option<seq<string>>
    var lowerName: JsValue

    /** The empty object `{}`. */
    constructor ()
      ensures id == Absent && projectName == Absent && systemName == Absent && description == Absent
      ensures icon == Absent && iconColor == Absent && notebookFolderEnabled == Absent && owner == Absent
      ensures userProperties == None && roleMemberships == None && lowerName == Absent
    {
      id, projectName, systemName, description := Absent, Absent, Absent, Absent;
      icon, iconColor, notebookFolderEnabled, owner := Absent, Absent, Absent, Absent;
      userProperties, roleMemberships, lowerName := None, None, Absent;
    }
  }

  /** The properties of a project object, as one value. */
  datatype Fields = Fields(id: JsValue, projectName: JsValue, systemName: JsValue, description: JsValue,
                           icon: JsValue, iconColor: JsValue, notebookFolderEnabled: JsValue, owner: JsValue,
                           userProperties: Option<seq<string>>, roleMemberships: Option<seq<string>>)

  function FieldsOf(p: ProjectModel): Fields
    reads p
  {
    Fields(p.id, p.projectName, p.systemName, p.description, p.icon, p.iconColor, p.notebookFolderEnabled,
           p.owner, p.userProperties, p.roleMemberships)
  }

  /** angular.copy: a new object with the same properties. */
  method Copy(p: ProjectModel) returns (c: ProjectModel)
    ensures fresh(c)
    ensures FieldsOf(c) == FieldsOf(p) && c.lowerName == p.lowerName
  {
    c := new ProjectModel();
    c.id, c.projectName, c.systemName, c.description := p.id, p.projectName, p.systemName, p.description;
    c.icon, c.iconColor, c.notebookFolderEnabled, c.owner := p.icon, p.iconColor, p.notebookFolderEnabled, p.owner;
    c.userProperties, c.roleMemberships, c.lowerName := p.userProperties, p.roleMemberships, p.lowerName;
  }

  /** newProject: every descriptive property null, no user properties and
      no role memberships, the notebook folder off. */
  method NewProject() returns (p: ProjectModel)
    ensures fresh(p)
    ensures FieldsOf(p) == Fields(Null, Null, Absent, Null, Null, Null, Bool(false), Null, Some([]), Some([]))
    ensures p.lowerName == Absent
  {
    p := new ProjectModel();
    p.id, p.projectName, p.description := Null, Null, Null;
    p.icon, p.iconColor := Null, Null;
    p.userProperties, p.roleMemberships := Some([]), Some([]);
    p.notebookFolderEnabled, p.owner := Bool(false), Null;
  }

  /** The index of the first project whose id is loosely equal to `id`
      (`_.find` with `project.id == id`), or |ps| when there is none. */
  function FirstWithId(ps: seq<ProjectModel>, id: JsValue): (r: nat)
    reads ps
    ensures r <= |ps|
    ensures r < |ps| ==> LooseEq(ps[r].id, id)
    ensures forall j :: 0 <= j < r ==> !LooseEq(ps[j].id, id)
  {
    if ps == [] then 0
    else if LooseEq(ps[0].id, id) then 0
    else 1 + FirstWithId(ps[1..], id)
  }

  /** The index of the first occurrence of the object `p` (`_.indexOf`),
      or |ps| when it does not occur. */
  function IndexOf(ps: seq<ProjectModel>, p: ProjectModel): (r: nat)
    ensures r <= |ps|
    ensures r < |ps| ==> ps[r] == p
    ensures forall j :: 0 <= j < r ==> ps[j] != p
  {
    if ps == [] then 0
    else if ps[0] == p then 0
    else 1 + IndexOf(ps[1..], p)
  }

  /** The object `_.find` returns sits at the index `_.indexOf` gives for
      it: an earlier occurrence would have the same id and be found first. */
  lemma {:induction false} FoundIsIndexed(ps: seq<ProjectModel>, id: JsValue)
    requires FirstWithId(ps, id) < |ps|
    ensures IndexOf(ps, ps[FirstWithId(ps, id)]) == FirstWithId(ps, id)
  {
  }

  /** A cached project carries its lower-cased name, as loadAll and update
      set it. */
  predicate Indexed(p: ProjectModel)
    reads p
  {
    p.projectName.Str? && p.lowerName == Str(Lower(p.projectName.s))
  }

  /** createFilterFor(query) applied to one project whose `_lowername` is
      set: it starts with the lower-cased query. */
  predicate Matches(p: ProjectModel, query: string)
    reads p
    requires p.lowerName.Str?
  {
    Lower(query) <= p.lowerName.s
  }

  /** `ps.filter(createFilterFor(query))` */
  function Filter(ps: seq<ProjectModel>, query: string): (r: seq<ProjectModel>)
    reads ps
    requires forall i :: 0 <= i < |ps| ==> ps[i].lowerName.Str?
    ensures forall i :: 0 <= i < |r| ==> r[i] in ps && Matches(r[i], query)
    ensures forall i :: 0 <= i < |ps| && Matches(ps[i], query) ==> ps[i] in r
    ensures |r| <= |ps|
  {
    if ps == [] then []
    else (if Matches(ps[0], query) then [ps[0]] else []) + Filter(ps[1..], query)
  }

  /** The indices of the projects that match `query`, in increasing order:
      the positions `ps.filter` keeps. */
  ghost function Picked(ps: seq<ProjectModel>, query: string): (idx: seq<nat>)
    reads ps
    requires forall i :: 0 <= i < |ps| ==> ps[i].lowerName.Str?
    ensures forall j :: 0 <= j < |idx| ==> idx[j] < |ps|
    ensures forall j, k :: 0 <= j < k < |idx| ==> idx[j] < idx[k]
    ensures forall i :: 0 <= i < |ps| ==> (Matches(ps[i], query) <==> i in idx)
    decreases |ps|
  {
    if ps == [] then []
    else
      var n := |ps| - 1;
      assert forall i :: 0 <= i < n ==> ps[..n][i] == ps[i];
      Picked(ps[..n], query) + (if Matches(ps[n], query) then [n] else [])
  }

  /** Filtering a list with one more project at its end. */
  lemma {:induction false} FilterSnoc(ps: seq<ProjectModel>, query: string)
    requires ps != [] && forall i :: 0 <= i < |ps| ==> ps[i].lowerName.Str?
    ensures Filter(ps, query)
            == Filter(ps[..|ps| - 1], query) + (if Matches(ps[|ps| - 1], query) then [ps[|ps| - 1]] else [])
    decreases |ps|
  {
    if |ps| > 1 {
      FilterSnoc(ps[1..], query);
      assert ps[1..][..|ps| - 2] == ps[..|ps| - 1][1..];
    }
  }

  /** The filtered list holds the matching projects and only those, each as
      often as it occurs and in the order of the list. */
  lemma {:induction false} FilterKeepsOrder(ps: seq<ProjectModel>, query: string)
    requires forall i :: 0 <= i < |ps| ==> ps[i].lowerName.Str?
    ensures PickedBy(ps, query)
    decreases |ps|
  {
    if ps != [] {
      FilterKeepsOrder(ps[..|ps| - 1], query);
      PickedStep(ps, query);
    }
  }

  /** The filtered list is the list at the picked indices. */
  ghost predicate PickedBy(ps: seq<ProjectModel>, query: string)
    reads ps
    requires forall i :: 0 <= i < |ps| ==> ps[i].lowerName.Str?
  {
    |Filter(ps, query)| == |Picked(ps, query)|
    && forall j :: 0 <= j < |Filter(ps, query)| ==> Filter(ps, query)[j] == ps[Picked(ps, query)[j]]
  }

  /** The step from a list without its last project to the whole list. */
  lemma PickedStep(ps: seq<ProjectModel>, query: string)
    requires ps != [] && forall i :: 0 <= i < |ps| ==> ps[i].lowerName.Str?
    requires PickedBy(ps[..|ps| - 1], query)
    ensures PickedBy(ps, query)
  {
    var n := |ps| - 1;
    var pre := ps[..n];
    var f, fp := Filter(ps, query), Filter(pre, query);
    var picked, pp := Picked(ps, query), Picked(pre, query);
    var m := Matches(ps[n], query);
    assert f == fp + (if m then [ps[n]] else []) by {
      FilterSnoc(ps, query);
    }
    assert picked == pp + (if m then [n] else []);
    assert |fp| == |pp| && forall j :: 0 <= j < |fp| ==> pp[j] < n && fp[j] == ps[pp[j]] by {
      assert PickedBy(pre, query);
    }
    SelectSnoc(ps, f, fp, picked, pp, m);
  }

  /** A selection by increasing indices extends by the last element when
      it is selected too. */
  lemma SelectSnoc<T>(ps: seq<T>, f: seq<T>, fp: seq<T>, picked: seq<nat>, pp: seq<nat>, m: bool)
    requires ps != [] && |fp| == |pp|
    requires forall j :: 0 <= j < |fp| ==> pp[j] < |ps| - 1 && fp[j] == ps[pp[j]]
    requires f == fp + (if m then [ps[|ps| - 1]] else [])
    requires picked == pp + (if m then [|ps| - 1] else [])
    ensures |f| == |picked|
    ensures forall j :: 0 <= j < |f| ==> picked[j] < |ps| && f[j] == ps[picked[j]]
  {
    forall j | 0 <= j < |f|
      ensures picked[j] < |ps| && f[j] == ps[picked[j]]
    {
      if j < |fp| {
        assert f[j] == fp[j] && picked[j] == pp[j];
      }
    }
  }

  /** What querySearch resolves to: the cached list, filtered when the
      query is truthy; or a load, when the cache is empty. */
  datatype Search = Loading | Results(projects: seq<ProjectModel>)

  class ProjectsService {
    /** data.projects, the cached list. */
    var projects: seq<ProjectModel>
    /** data.model, the project the pages show. */
    var model: ProjectModel
    /** The reloads requested so far. */
    var reloads: nat

    ghost predicate Valid()
      reads this, projects
    {
      forall i :: 0 <= i < |projects| ==> Indexed(projects[i])
    }

    constructor ()
      ensures Valid() && projects == [] && reloads == 0 && fresh(model)
    {
      projects := [];
      reloads := 0;
      model := new ProjectModel();
    }

    /** update(savedProject): a saved project with an id replaces the cached
        project with a loosely equal id, at the same index, or is appended
        when there is none, and the answer is true; its `_lowername` is set
        first, which throws when it has no string name. Without an id the
        cache is left to a reload and the answer is false. */
    method Update(saved: ProjectModel) returns (r: Result<bool>)
      requires Valid()
      modifies this, saved
      ensures Valid()
      ensures model == old(model)
      ensures FieldsOf(saved) == old(FieldsOf(saved))
      ensures !IsDefined(saved.id) ==>
                r == Ok(false) && projects == old(projects) && reloads == old(reloads) + 1
                && saved.lowerName == old(saved.lowerName)
      ensures IsDefined(saved.id) && !saved.projectName.Str? ==>
                r == Err(Type) && projects == old(projects) && reloads == old(reloads)
                && saved.lowerName == old(saved.lowerName)
      ensures IsDefined(saved.id) && saved.projectName.Str? ==>
                r == Ok(true) && reloads == old(reloads) && Indexed(saved) && saved in projects
                && var k := old(FirstWithId(projects, saved.id));
                   (k < |old(projects)| ==> projects == old(projects)[k := saved])
                   && (k == |old(projects)| ==> projects == old(projects) + [saved])
    {
      if !IsDefined(saved.id) {
        reloads := reloads + 1;
        return Ok(false);
      }
      var k := FirstWithId(projects, saved.id);
      if !saved.projectName.Str? {
        return Err(Type);
      }
      if k < |projects| {
        FoundIsIndexed(projects, saved.id);
        assert IndexOf(projects, projects[k]) == k;
      }
      saved.lowerName := Str(Lower(saved.projectName.s));
      if k < |projects| {
        var idx := IndexOf(projects, projects[k]);
        projects := projects[idx := saved];
        assert projects[idx] == saved;
      } else {
        projects := projects + [saved];
        assert projects[|projects| - 1] == saved;
      }
      return Ok(true);
    }

    /** findProject(id): the first cached project whose id is loosely equal
        to `id`, or undefined (None). */
    function FindProject(id: JsValue): (r: Option<ProjectModel>)
      reads this, projects
      ensures r.Some? <==> exists i :: 0 <= i < |projects| && LooseEq(projects[i].id, id)
      ensures r.Some? ==> exists k :: 0 <= k < |projects| && projects[k] == r.value && LooseEq(r.value.id, id)
                                     && forall j :: 0 <= j < k ==> !LooseEq(projects[j].id, id)
    {
      var k := FirstWithId(projects, id);
      if k < |projects| then Some(projects[k]) else None
    }

    /** findProjectBySystemName: null when the name is null or undefined,
        otherwise the first cached project whose system name is loosely
        equal to it, or undefined. */
    function FindProjectBySystemName(systemName: JsValue): (r: JsLookup)
      reads this, projects
      ensures !LooseNe(systemName, Undefined) <==> r == NullResult
      ensures r.Found? ==> r.project in projects && LooseEq(r.project.systemName, systemName)
      ensures r.Found? ==> exists k :: 0 <= k < |projects| && projects[k] == r.project
                                     && forall j :: 0 <= j < k ==> !LooseEq(projects[j].systemName, systemName)
      ensures r == NotFound ==> forall p :: p in projects ==> !LooseEq(p.systemName, systemName)
      ensures LooseNe(systemName, Undefined) && (exists p :: p in projects && LooseEq(p.systemName, systemName)) ==>
                r.Found?
    {
      if !LooseNe(systemName, Undefined) then NullResult
      else
        var k := FirstWithSystemName(projects, systemName);
        if k < |projects| then Found(projects[k]) else NotFound
    }

    /** querySearch(query); a query that is null, undefined or empty is
        falsy and keeps the whole list. */
    function QuerySearch(query: Option<string>): (r: Search)
      reads this, projects
      requires Valid()
      ensures |projects| == 0 <==> r == Loading
      ensures r.Results? && (query == None || query == Some("")) ==> r.projects == projects
      ensures r.Results? && query.Some? && query.value != "" ==>
                (forall i :: 0 <= i < |r.projects| ==>
                   r.projects[i] in projects && Lower(query.value) <= r.projects[i].lowerName.s)
                && (forall i :: 0 <= i < |projects| && Lower(query.value) <= Lower(projects[i].projectName.s) ==>
                      projects[i] in r.projects)
      ensures r.Results? && query.Some? && query.value != "" ==> r.projects == Filter(projects, query.value)
    {
      if |projects| == 0 then Loading
      else if query.Some? && query.value != "" then Results(Filter(projects, query.value))
      else Results(projects)
    }
  }

  /** What findProjectBySystemName returns: null, undefined, or a project. */
  datatype JsLookup = NullResult | NotFound | Found(project: ProjectModel)

  /** The index of the first project whose system name is loosely equal to
      `name`, or |ps|. */
  function FirstWithSystemName(ps: seq<ProjectModel>, name: JsValue): (r: nat)
    reads ps
    ensures r <= |ps|
    ensures r < |ps| ==> LooseEq(ps[r].systemName, name)
    ensures forall j :: 0 <= j < r ==> !LooseEq(ps[j].systemName, name)
  {
    if ps == [] then 0
    else if LooseEq(ps[0].systemName, name) then 0
    else 1 + FirstWithSystemName(ps[1..], name)
  }
}
