/** The git configuration check and the local permission decorator of
    `sls_api/endpoints/digital_edition_tools.py`. */
module DeTools {
  import opened Wrappers
  import opened Json
  import opened ProjectFiles

  const NoGitConfig := "git_config (SSH config) not in project config."
  // The source's message ends in "-" rather than ".".
  const NoGitBranch := "git_branch information not in project config-"

  /** `check_project_git_config`: the configuration must exist and hold
      git_repository, git_config, git_branch and file_root; the first of
      them that is missing is reported. */
  function CheckProjectGitConfig(config: Option<Config>): (r: (bool, string))
    ensures config.None? ==> r == (false, NotFound)
    ensures config.Some? ==> var c := config.value;
      (r == (false, NoRepository) <==> !HasKey(c, "git_repository"))
      && (r == (false, NoGitConfig) <==> HasKey(c, "git_repository") && !HasKey(c, "git_config"))
      && (r == (false, NoGitBranch) <==>
            HasKey(c, "git_repository") && HasKey(c, "git_config") && !HasKey(c, "git_branch"))
      && (r == (false, NoFileRoot) <==>
            HasKey(c, "git_repository") && HasKey(c, "git_config") && HasKey(c, "git_branch") && !HasKey(c, "file_root"))
    ensures r == (true, ConfigOk) <==> config.Some? && HasKey(config.value, "git_repository") && HasKey(config.value, "git_config")
                                       && HasKey(config.value, "git_branch") && HasKey(config.value, "file_root")
  {
    if config.None? then (false, NotFound)
    else
      var c := config.value;
      if !HasKey(c, "git_repository") then (false, NoRepository)
      else if !HasKey(c, "git_config") then (false, NoGitConfig)
      else if !HasKey(c, "git_branch") then (false, NoGitBranch)
      else if !HasKey(c, "file_root") then (false, NoFileRoot)
      else (true, ConfigOk)
  }

  /** How the decorated view is called: its positional arguments' first
      element, if any, and its keyword arguments (Flask passes the URL's
      `<project>` as the keyword "project"). */
  datatype Call = Call(firstPositional: Option<string>, keywords: map<string, string>)

  /** What the decorator does: run the view, answer with an error, or
      return nothing (which Flask turns into a server error). */
  datatype Decision = Proceed | Deny(status: int, msg: string) | NoResponse

  const NoAccess := "No access to this project."

  /** `project in identity["projects"]`. */
  function Permits(identity: Json, project: string): Result<bool, PyError> {
    var projects :- Index(identity, "projects");
    Membership(projects, project)
  }

  /** The local `project_permission_required` as written: it looks for the
      keyword "projects", and a project that is not permitted falls off
      the end of the wrapper. */
  function PermissionAsWritten(call: Call, identity: Json): (r: Result<Decision, PyError>)
    ensures r == Success(Deny(403, NoAccess)) <==> call.firstPositional.None? && "projects" !in call.keywords
    ensures r.Success? && r.value.Deny? ==> r.value == Deny(403, NoAccess)
    ensures call.firstPositional.Some? ==>
      r == (match Permits(identity, call.firstPositional.value)
            case Success(ok) => Success(if ok then Proceed else NoResponse)
            case Failure(e) => Failure(e))
  {
    if call.firstPositional.Some? then
      var ok :- Permits(identity, call.firstPositional.value);
      Success(if ok then Proceed else NoResponse)
    else if "projects" in call.keywords then
      var ok :- Permits(identity, call.keywords["projects"]);
      Success(if ok then Proceed else NoResponse)
    else Success(Deny(403, NoAccess))
  }

  /** A Flask call, with the project as the keyword "project", is refused
      even for a user the project is granted to. */
  lemma FlaskCallRefused(project: string, identity: Json)
    ensures PermissionAsWritten(Call(None, map["project" := project]), identity) == Success(Deny(403, NoAccess))
  {
  }

  /** The decorator as intended: the project is the first positional
      argument or the keyword "project"; it runs the view when the
      identity's projects hold the project and answers 403 otherwise. */
  function Permission(call: Call, identity: Json): (r: Result<Decision, PyError>)
    ensures r.Success? ==> r.value.Proceed? || r.value == Deny(403, NoAccess)
    ensures call.firstPositional.None? && "project" !in call.keywords ==> r == Success(Deny(403, NoAccess))
    ensures call.firstPositional.Some? ==>
      (r == Success(Proceed) <==> Permits(identity, call.firstPositional.value) == Success(true))
    ensures call.firstPositional.None? && "project" in call.keywords ==>
      (r == Success(Proceed) <==> Permits(identity, call.keywords["project"]) == Success(true))
  {
    var project := if call.firstPositional.Some? then call.firstPositional
                   else if "project" in call.keywords then Some(call.keywords["project"]) else None;
    if project.None? then Success(Deny(403, NoAccess))
    else
      var ok :- Permits(identity, project.value);
      Success(if ok then Proceed else Deny(403, NoAccess))
  }

  /** The intended decorator lets a granted user through a Flask call. */
  lemma FlaskCallGranted(project: string)
    ensures Permission(Call(None, map["project" := project]), JObj([("projects", JArr([JStr(project)]))])) == Success(Proceed)
  {
    var identity := JObj([("projects", JArr([JStr(project)]))]);
    assert identity.fields[0].0 == "projects";
    assert Lookup(identity.fields, "projects") == Some(JArr([JStr(project)]));
  }
}
