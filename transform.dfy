// ProjectsTransform: the field copies between the REST project and the
// domain project. The access-control part of domainToRest is not modelled.

module Transform {
  import opened Wrappers
  import opened Metadata

  /** The REST model's project (com.thinkbiganalytics.metadata.rest.model.Project). */
  class RestProject {
    var id: Option<string>
    var systemName: string
    var projectName: string
    var description: string
    var icon: string
    var iconColor: string
    var notebookFolderEnabled: bool

    constructor ()
      ensures id == None && systemName == "" && projectName == "" && description == ""
      ensures icon == "" && iconColor == "" && !notebookFolderEnabled
    {
      id := None;
      systemName := "";
      projectName := "";
      description := "";
      icon := "";
      iconColor := "";
      notebookFolderEnabled := false;
    }
  }

  /** The six fields both transforms copy. */
  datatype Fields = Fields(systemName: string, projectName: string, description: string,
                           icon: string, iconColor: string, notebookFolderEnabled: bool)

  function RestFields(rest: RestProject): Fields
    reads rest
  {
    Fields(rest.systemName, rest.projectName, rest.description, rest.icon, rest.iconColor, rest.notebookFolderEnabled)
  }

  function DomainFields(domain: Project): Fields
    reads domain
  {
    Fields(domain.systemName, domain.projectName, domain.description, domain.icon, domain.iconColor,
           domain.notebookFolderEnabled)
  }

  /** domainToRest: a new REST object with the domain's identifier and its
      six fields. */
  method DomainToRest(domain: Project) returns (rest: RestProject)
    ensures fresh(rest)
    ensures rest.id == Some(domain.id) && RestFields(rest) == DomainFields(domain)
  {
    rest := new RestProject();
    rest.id := Some(domain.id);
    rest.systemName := domain.systemName;
    rest.projectName := domain.projectName;
    rest.description := domain.description;
    rest.icon := domain.icon;
    rest.iconColor := domain.iconColor;
    rest.notebookFolderEnabled := domain.notebookFolderEnabled;
  }

  /** restToDomain: the six fields are copied onto `domain`, which is
      returned; its identifier, owner and role memberships stay. */
  method RestToDomain(rest: RestProject, domain: Project) returns (r: Project)
    modifies domain
    ensures r == domain
    ensures DomainFields(domain) == RestFields(rest)
    ensures domain.roles == old(domain.roles)
  {
    domain.systemName := rest.systemName;
    domain.projectName := rest.projectName;
    domain.description := rest.description;
    domain.icon := rest.icon;
    domain.iconColor := rest.iconColor;
    domain.notebookFolderEnabled := rest.notebookFolderEnabled;
    return domain;
  }

  /** restToDomain followed by domainToRest gives back the REST object's
      fields, with the domain's identifier. */
  method RoundTrip(rest: RestProject, domain: Project) returns (back: RestProject)
    modifies domain
    ensures fresh(back)
    ensures RestFields(back) == RestFields(rest) && back.id == Some(domain.id)
  {
    var d := RestToDomain(rest, domain);
    back := DomainToRest(d);
  }
}
