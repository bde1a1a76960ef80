// The definition section of the project details page: whether the project
// is new, the system-name description, the delete permission, the checks of
// display and system names against the cached projects and the reserved
// names, and the create-or-update choice on save. Toasts, dialogs, focus and
// the access-permission check are not modelled; the system name the server
// generates for a display name is a parameter of the checks.

module ProjectDefinition {
  import opened Wrappers
  import opened UiProjects

  /** Names no project may take, in lower case. */
  const ReservedProjectNames: seq<string> := ["thinkbig"]

  /** The validity key the form shares between both name fields. */
  const ReservedKey: string := "reservedProjectName"

  /** getSystemNameDescription over isNewProject(), isSystemNameEditable()
      and hasNoFeeds() (hasFeeds() is its negation). */
  function SystemNameDescription(isNew: bool, editable: bool, noFeeds: bool): (r: string)
    ensures r == "" <==> !noFeeds && (isNew || editable)
    ensures editable && noFeeds ==> r == "System name is now editable"
    ensures !editable && noFeeds ==>
              r == (if isNew then "Auto generated from Project Name, can be customised" else "Can be customised")
    ensures !isNew && !editable && !noFeeds ==> r == "Cannot be customised because Project has Feeds"
  {
    var hasFeeds := !noFeeds;
    if !isNew && !editable && noFeeds then "Can be customised"
    else if !isNew && !editable && hasFeeds then "Cannot be customised because Project has Feeds"
    else if !isNew && editable && noFeeds then "System name is now editable"
    else if !isNew && editable && hasFeeds then ""
    else if isNew && !editable && noFeeds then "Auto generated from Project Name, can be customised"
    else if isNew && !editable && hasFeeds then ""
    else if isNew && editable && noFeeds then "System name is now editable"
    else ""
  }

  /** hasNoFeeds: always true. */
  function HasNoFeeds(): (r: bool)
    ensures r
  {
    true
  }

  /** hasFeeds: the negation of hasNoFeeds, so never true. */
  function HasFeeds(): (r: bool)
    ensures !r
  {
    !HasNoFeeds()
  }

  /** With hasNoFeeds fixed, the description depends only on whether the
      system name is editable and, when it is not, whether the project is
      new; it is never empty. */
  lemma DescriptionWithoutFeeds(isNew: bool, editable: bool)
    ensures SystemNameDescription(isNew, editable, HasNoFeeds()) != ""
    ensures SystemNameDescription(isNew, true, HasNoFeeds()) == SystemNameDescription(!isNew, true, HasNoFeeds())
    ensures SystemNameDescription(true, false, HasNoFeeds()) != SystemNameDescription(false, false, HasNoFeeds())
  {
  }

  /** isNewProject: `id == undefined`, true for a missing, undefined or null id. */
  predicate IsNewId(id: JsValue) {
    LooseEq(id, Undefined)
  }

  /** onSave's test: `hasOwnProperty('id')`. */
  predicate HasOwnId(id: JsValue) {
    id != Absent
  }

  /** The two tests disagree exactly on an own id that is undefined or null:
      such a project is new, yet onSave sends it as an update. */
  lemma NewAndUpdated(id: JsValue)
    ensures IsNewId(id) <==> id in {Absent, Undefined, Null}
    ensures IsNewId(id) && HasOwnId(id) <==> id in {Undefined, Null}
    ensures !IsNewId(id) ==> HasOwnId(id)
  {
  }

  /** A name is reserved when it is a non-empty string whose lower-cased
      form is in the reserved list; a falsy name is never reserved. A truthy
      value that is not a string (`true`, a number) has no toLowerCase in
      JavaScript and raises TypeError there; the model answers false. The
      names checked are the form's text fields, which hold strings, null or
      undefined, so that case does not arise from the controller. */
  function Reserved(name: JsValue): (r: bool)
    ensures r <==> name.Str? && Lower(name.s) == "thinkbig"
  {
    match name
    case Str(s) => s != "" && Lower(s) in ReservedProjectNames
    case _ => false
  }

  /** The reserved name is caught whatever its case. */
  lemma ReservedAnyCase()
    ensures Reserved(Str("ThinkBig")) && Reserved(Str("THINKBIG")) && !Reserved(Str("thinkbig2"))
  {
    assert Lower("ThinkBig") == "thinkbig";
    assert Lower("THINKBIG") == "thinkbig";
    assert |Lower("thinkbig2")| != |"thinkbig"|;
  }

  /** The property of a cached project a name check compares. */
  datatype NameProperty = DisplayName | SystemName

  function PropertyOf(p: ProjectModel, prop: NameProperty): JsValue
    reads p
  {
    match prop
    case DisplayName => p.projectName
    case SystemName => p.systemName
  }

  /** The project a name check counts against: any project while the
      edited one has no id, otherwise one with a different id. */
  predicate Other(p: ProjectModel, editId: JsValue)
    reads p
  {
    LooseEq(editId, Null) || (LooseNe(editId, Null) && LooseNe(p.id, editId))
  }

  /** The `_.some` of the name checks: some other project has exactly
      (`===`) this name. */
  function Taken(ps: seq<ProjectModel>, editId: JsValue, prop: NameProperty, name: JsValue): bool
    reads ps
  {
    if ps == [] then false
    else (Other(ps[0], editId) && StrictEq(PropertyOf(ps[0], prop), name)) || Taken(ps[1..], editId, prop, name)
  }

  /** A name is taken exactly when some other cached project has it. */
  lemma {:induction false} TakenMeaning(ps: seq<ProjectModel>, editId: JsValue, prop: NameProperty, name: JsValue)
    ensures Taken(ps, editId, prop, name) <==>
              exists i :: 0 <= i < |ps| && Other(ps[i], editId) && StrictEq(PropertyOf(ps[i], prop), name)
  {
    if ps != [] {
      TakenMeaning(ps[1..], editId, prop, name);
      assert forall i :: 1 <= i < |ps| ==> ps[i] == ps[1..][i - 1];
    }
  }

  /** A project already saved never counts against its own name, and a new
      one counts against every cached project. */
  lemma OtherFacts(p: ProjectModel, q: ProjectModel)
    ensures LooseNe(p.id, Null) ==> !Other(p, p.id)
    ensures LooseEq(p.id, Null) ==> Other(q, p.id)
  {
  }

  /** How onSave sends the project: doUpdate (PUT) or save (POST). */
  datatype SaveRequest = DoUpdate | Save

  class ProjectDefinitionController {
    /** The project being edited, a copy. */
    var editModel: ProjectModel
    /** The project shown, ProjectsService.model. */
    var model: ProjectModel
    var allowEdit: bool
    var allowDelete: bool
    var isEditable: bool
    var systemNameEditable: bool
    /** Whether the form shows the display-name and system-name fields. */
    const hasNameField: bool
    const hasSystemNameField: bool
    /** The validity flags `$setValidity` sets on each field. */
    var nameValidity: map<string, bool>
    var systemNameValidity: map<string, bool>

    constructor (service: ProjectsService, hasNameField: bool, hasSystemNameField: bool)
      ensures fresh(editModel) && FieldsOf(editModel) == FieldsOf(service.model)
      ensures model == service.model && isEditable == !IsString(service.model.id)
      ensures !allowEdit && !allowDelete && !systemNameEditable
      ensures this.hasNameField == hasNameField && this.hasSystemNameField == hasSystemNameField
      ensures nameValidity == map[] && systemNameValidity == map[]
    {
      var copy := Copy(service.model);
      editModel := copy;
      model := service.model;
      isEditable := !IsString(service.model.id);
      allowEdit, allowDelete, systemNameEditable := false, false, false;
      this.hasNameField, this.hasSystemNameField := hasNameField, hasSystemNameField;
      nameValidity, systemNameValidity := map[], map[];
    }

    /** isNewProject */
    function IsNewProject(): (r: bool)
      reads this, editModel
      ensures r <==> editModel.id in {Absent, Undefined, Null}
    {
      IsNewId(editModel.id)
    }

    /** getSystemNameDescription */
    function GetSystemNameDescription(): (r: string)
      reads this, editModel
      ensures r != ""
      ensures systemNameEditable ==> r == "System name is now editable"
      ensures !systemNameEditable && IsNewProject() ==> r == "Auto generated from Project Name, can be customised"
      ensures !systemNameEditable && !IsNewProject() ==> r == "Can be customised"
    {
      SystemNameDescription(IsNewProject(), systemNameEditable, HasNoFeeds())
    }

    /** canDelete: the user may delete and the project has a string id. */
    function CanDelete(): (r: bool)
      reads this, model
      ensures r <==> allowDelete && model.id.Str?
    {
      allowDelete && (IsString(model.id) && HasNoFeeds())
    }

    /** allowEditSystemName (the focus on the field is not modelled). */
    method AllowEditSystemName()
      modifies this
      ensures systemNameEditable
      ensures editModel == old(editModel) && model == old(model)
      ensures nameValidity == old(nameValidity) && systemNameValidity == old(systemNameValidity)
    {
      systemNameEditable := true;
    }

    /** onEdit: the edited project becomes a copy of the shown one. */
    method OnEdit()
      modifies this
      ensures fresh(editModel) && FieldsOf(editModel) == FieldsOf(model)
      ensures model == old(model) && systemNameEditable == old(systemNameEditable)
    {
      editModel := Copy(model);
    }

    /** onCancel: the answer is whether the page goes back to the project
        list, which it does for a project without a string id. */
    method OnCancel() returns (leave: bool)
      modifies this
      ensures !systemNameEditable
      ensures leave <==> !model.id.Str?
      ensures editModel == old(editModel) && model == old(model)
    {
      systemNameEditable := false;
      leave := !IsString(model.id);
    }

    /** The system name a display-name check leaves on the edited project:
        a new project whose system name is not being edited takes the
        generated one. */
    function CheckedSystemName(generated: JsValue): JsValue
      reads this, editModel
    {
      if IsNewProject() && !systemNameEditable then generated else editModel.systemName
    }

    /** The response of validateDisplayAndSystemName: the display name and
        the system name are marked duplicate when another cached project has
        them and reserved when they are reserved. The cache is read as it
        was when the response came. */
    method ValidateDisplayAndSystemName(projects: seq<ProjectModel>, generated: JsValue)
      modifies this, editModel
      ensures editModel == old(editModel) && model == old(model) && systemNameEditable == old(systemNameEditable)
      ensures FieldsOf(editModel) == old(FieldsOf(editModel)).(systemName := old(CheckedSystemName(generated)))
      ensures hasNameField ==>
                nameValidity == old(nameValidity)
                  ["duplicateDisplayName" := !old(Taken(projects, editModel.id, DisplayName, editModel.projectName))]
                  [ReservedKey := !Reserved(editModel.projectName)]
      ensures !hasNameField ==> nameValidity == old(nameValidity)
      ensures hasSystemNameField ==>
                var name := editModel.systemName;
                systemNameValidity == old(systemNameValidity)
                  ["duplicateSystemName" := !old(Taken(projects, editModel.id, SystemName, name))]
                  [ReservedKey := !Reserved(name)]
      ensures !hasSystemNameField ==> systemNameValidity == old(systemNameValidity)
    {
      var newDisplayName := editModel.projectName;
      var systemName := CheckedSystemName(generated);
      var displayNameExists := Taken(projects, editModel.id, DisplayName, newDisplayName);
      var systemNameExists := Taken(projects, editModel.id, SystemName, systemName);
      var reservedDisplayName := Reserved(newDisplayName);
      var reservedSystemName := Reserved(systemName);
      editModel.systemName := systemName;
      if hasNameField {
        nameValidity := nameValidity["duplicateDisplayName" := !displayNameExists];
        nameValidity := nameValidity[ReservedKey := !reservedDisplayName];
      }
      if hasSystemNameField {
        systemNameValidity := systemNameValidity["duplicateSystemName" := !systemNameExists];
        systemNameValidity := systemNameValidity[ReservedKey := !reservedSystemName];
      }
    }

    /** The response of validateDisplayName: the same for the display name
        alone. */
    method ValidateDisplayName(projects: seq<ProjectModel>, generated: JsValue)
      modifies this, editModel
      ensures editModel == old(editModel) && model == old(model) && systemNameEditable == old(systemNameEditable)
      ensures FieldsOf(editModel) == old(FieldsOf(editModel)).(systemName := old(CheckedSystemName(generated)))
      ensures hasNameField ==>
                nameValidity == old(nameValidity)
                  ["duplicateDisplayName" := !old(Taken(projects, editModel.id, DisplayName, editModel.projectName))]
                  [ReservedKey := !Reserved(editModel.projectName)]
      ensures !hasNameField ==> nameValidity == old(nameValidity)
      ensures systemNameValidity == old(systemNameValidity)
    {
      var newName := editModel.projectName;
      var systemName := CheckedSystemName(generated);
      var nameExists := Taken(projects, editModel.id, DisplayName, newName);
      var reservedDisplayName := Reserved(newName);
      editModel.systemName := systemName;
      if hasNameField {
        nameValidity := nameValidity["duplicateDisplayName" := !nameExists];
        nameValidity := nameValidity[ReservedKey := !reservedDisplayName];
      }
    }

    /** The response of validateSystemName: the entered system name is
        invalid when it is not the normalised one the server returns, a
        duplicate when another cached project has the normalised one, and
        reserved when it is reserved. The edited project does not change. */
    method ValidateSystemName(projects: seq<ProjectModel>, normalised: JsValue)
      modifies this
      ensures editModel == old(editModel) && model == old(model) && systemNameEditable == old(systemNameEditable)
      ensures nameValidity == old(nameValidity)
      ensures hasSystemNameField ==>
                systemNameValidity == old(systemNameValidity)
                  ["invalidName" := StrictEq(editModel.systemName, normalised)]
                  ["duplicateSystemName" := !old(Taken(projects, editModel.id, SystemName, normalised))]
                  [ReservedKey := !Reserved(editModel.systemName)]
      ensures !hasSystemNameField ==> systemNameValidity == old(systemNameValidity)
    {
      var newName := editModel.systemName;
      var nameExists := Taken(projects, editModel.id, SystemName, normalised);
      var reservedSystemName := Reserved(editModel.systemName);
      var invalidName := !StrictEq(newName, normalised);
      if hasSystemNameField {
        systemNameValidity := systemNameValidity["invalidName" := !invalidName];
        systemNameValidity := systemNameValidity["duplicateSystemName" := !nameExists];
        systemNameValidity := systemNameValidity[ReservedKey := !reservedSystemName];
      }
    }

    /** onSave: a copy of the shown project carrying the edited project's
        six fields, sent as an update when the edited project has an own id
        property, even an undefined or null one, and as a creation otherwise. */
    method OnSave(service: ProjectsService) returns (request: SaveRequest, sent: ProjectModel)
      ensures fresh(sent)
      ensures request == DoUpdate <==> HasOwnId(editModel.id)
      ensures var f := FieldsOf(service.model);
              FieldsOf(sent) == f.(projectName := editModel.projectName, systemName := editModel.systemName,
                                   description := editModel.description, icon := editModel.icon,
                                   iconColor := editModel.iconColor,
                                   notebookFolderEnabled := editModel.notebookFolderEnabled)
    {
      sent := Copy(service.model);
      sent.projectName := editModel.projectName;
      sent.systemName := editModel.systemName;
      sent.description := editModel.description;
      sent.icon := editModel.icon;
      sent.iconColor := editModel.iconColor;
      sent.notebookFolderEnabled := editModel.notebookFolderEnabled;
      if HasOwnId(editModel.id) {
        request := DoUpdate;
      } else {
        request := Save;
      }
    }

    /** The response of a save: the saved project goes into the cache and
        becomes the shown project. */
    method OnSaved(service: ProjectsService, saved: ProjectModel) returns (r: Result<bool>)
      requires service.Valid()
      modifies this, service, saved
      ensures service.Valid() && !systemNameEditable
      ensures r.Ok? ==> model == saved && service.model == saved
      ensures r.Err? ==> r.error == Type && model == old(model) && service.model == old(service.model)
      ensures r == Ok(true) ==> saved in service.projects && Indexed(saved)
      ensures r == Ok(false) ==> service.projects == old(service.projects)
    {
      systemNameEditable := false;
      r := service.Update(saved);
      if r.Err? {
        return;
      }
      model := saved;
      service.model := saved;
    }
  }
}
