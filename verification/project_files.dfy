/** The request checks of the editor's file tools in
    `sls_api/endpoints/tools/files.py`: the project configuration check,
    the test-mode switch, the commit author string and the `.xml` path
    guard of `update_file`. */
module ProjectFiles {
  import opened Wrappers
  import opened PyStrings
  import opened Json
  import opened Http

  /** A project's configuration as loaded from YAML. */
  type Config = seq<(string, Json)>

  const NotFound := "Project config not found."
  const NoRepository := "git_repository not in project config."
  const NoBranch := "git_branch information not in project config."
  const NoFileRoot := "file_root information not in project config."
  const ConfigOk := "Project config OK."

  /** The configuration check, given the project's configuration (`None`
      when it has none) and the outcome of `is_a_test` for it. The
      checks run in order: configuration present, git_repository (not
      needed in a test), git_branch, file_root. */
  function CheckConfig(config: Option<Config>, test: Result<bool, PyError>): (r: Result<(bool, string), PyError>)
    ensures config.None? ==> r == Success((false, NotFound))
    ensures config.Some? && test.Failure? ==> r == Failure(test.error)
    ensures config.Some? && test.Success? ==> r.Success? && var c := config.value;
      (r.value == (false, NoRepository) <==> !test.value && !HasKey(c, "git_repository"))
      && (r.value == (false, NoBranch) <==> (test.value || HasKey(c, "git_repository")) && !HasKey(c, "git_branch"))
      && (r.value == (false, NoFileRoot) <==>
            (test.value || HasKey(c, "git_repository")) && HasKey(c, "git_branch") && !HasKey(c, "file_root"))
      && (r.value == (true, ConfigOk) <==>
            (test.value || HasKey(c, "git_repository")) && HasKey(c, "git_branch") && HasKey(c, "file_root"))
  {
    if config.None? then Success((false, NotFound))
    else
      var c := config.value;
      var isTest :- test;
      if !isTest && !HasKey(c, "git_repository") then Success((false, NoRepository))
      else if !HasKey(c, "git_branch") then Success((false, NoBranch))
      else if !HasKey(c, "file_root") then Success((false, NoFileRoot))
      else Success((true, ConfigOk))
  }

  /** `is_a_test` as written: in debug mode a project without
      configuration, or one whose git_repository is `None`, is a test; but
      the key is looked up with `config["git_repository"]`, so a
      configuration without it raises `KeyError` before the debug flag is
      consulted. `flaskDebug` is `int(FLASK_DEBUG)`. */
  function IsATestAsWritten(config: Option<Config>, flaskDebug: int): (r: Result<bool, PyError>)
    ensures config.None? ==> r == Success(flaskDebug == 1)
    ensures config.Some? ==> (r.Failure? <==> !HasKey(config.value, "git_repository"))
    ensures r.Failure? ==> r.error == KeyError
    ensures config.Some? && r.Success? ==>
      (r.value <==> Lookup(config.value, "git_repository") == Some(JNull) && flaskDebug == 1)
  {
    if config.None? then Success(flaskDebug == 1)
    else
      var repository :- Index(JObj(config.value), "git_repository");
      Success(repository == JNull && flaskDebug == 1)
  }

  /** `check_project_config` as written. */
  function CheckProjectConfigAsWritten(config: Option<Config>, flaskDebug: int): (r: Result<(bool, string), PyError>)
    ensures r.Failure? <==> config.Some? && !HasKey(config.value, "git_repository")
    ensures r.Failure? ==> r.error == KeyError
    ensures r.Success? && r.value.0 ==> config.Some? && HasKey(config.value, "git_branch") && HasKey(config.value, "file_root")
  {
    CheckConfig(config, IsATestAsWritten(config, flaskDebug))
  }

  /** The missing-repository message can never be returned: a
      configuration without git_repository makes `is_a_test` raise first. */
  lemma RepositoryMessageUnreachable(config: Option<Config>, flaskDebug: int)
    ensures CheckProjectConfigAsWritten(config, flaskDebug) != Success((false, NoRepository))
    ensures config.Some? && !HasKey(config.value, "git_repository") ==>
      CheckProjectConfigAsWritten(config, flaskDebug) == Failure(KeyError)
  {
  }

  /** `is_a_test` as its documentation states it: debug mode with the
      project's git_repository not configured, whether the key is absent
      or `None`. */
  function IsATest(config: Option<Config>, flaskDebug: int): (r: bool)
    ensures r ==> flaskDebug == 1
    ensures flaskDebug == 1 && config.Some? && !HasKey(config.value, "git_repository") ==> r
    ensures config.Some? && HasKey(config.value, "git_repository") ==>
      (r <==> IsATestAsWritten(config, flaskDebug) == Success(true))
  {
    flaskDebug == 1 && (config.None? || Lookup(config.value, "git_repository") in {None, Some(JNull)})
  }

  /** `check_project_config` with the intended `is_a_test`: it never
      raises, and outside debug mode a missing git_repository is
      reported. */
  function CheckProjectConfig(config: Option<Config>, flaskDebug: int): (r: (bool, string))
    ensures config.None? ==> r == (false, NotFound)
    ensures config.Some? && flaskDebug != 1 && !HasKey(config.value, "git_repository") ==> r == (false, NoRepository)
    ensures r == (false, NoRepository) ==> flaskDebug != 1
    ensures r.0 <==> config.Some? && HasKey(config.value, "git_branch") && HasKey(config.value, "file_root")
                     && (HasKey(config.value, "git_repository") || flaskDebug == 1)
  {
    CheckConfig(config, Success(IsATest(config, flaskDebug))).value
  }

  /** Where the configuration has git_repository, the intended check
      agrees with the code as written. */
  lemma CheckProjectConfigAgrees(config: Option<Config>, flaskDebug: int)
    requires config.Some? ==> HasKey(config.value, "git_repository")
    ensures CheckProjectConfigAsWritten(config, flaskDebug) == Success(CheckProjectConfig(config, flaskDebug))
  {
  }

  /** Outside debug mode a configuration with a branch and a file root
      but no repository: the code raises, the intended check reports. */
  lemma MissingRepositoryExample()
    ensures var c := Some([("git_branch", JStr("main")), ("file_root", JStr("/srv/web"))]);
      CheckProjectConfigAsWritten(c, 0) == Failure(KeyError)
      && CheckProjectConfig(c, 0) == (false, NoRepository)
  {
    var c := [("git_branch", JStr("main")), ("file_root", JStr("/srv/web"))];
    assert c[0].0 == "git_branch" && c[1].0 == "file_root";
    assert !HasKey(c, "git_repository");
  }

  // ---------------------------------------------------------------------
  // update_file

  /** The commit author "name <email>", the name being the text of the
      address before its first "@" (all of it when there is none). */
  function Author(email: string): (a: string)
    ensures FindFrom(email, "@", 0) < 0 ==> a == email + " <" + email + ">"
    ensures FindFrom(email, "@", 0) >= 0 ==> a == email[..FindFrom(email, "@", 0)] + " <" + email + ">"
    ensures exists name :: a == name + " <" + email + ">" && '@' !in name
  {
    var parts := Split(email, "@");
    SplitPiecesFree(email, "@");
    ContainsChar(parts[0], '@');
    parts[0] + " <" + email + ">"
  }

  /** The author of a request: its "author" value, defaulting to the
      token's subject; a value that is not a string has no `split`. */
  function AuthorOf(author: Option<Json>, subject: string): (r: Result<string, PyError>)
    ensures author.None? ==> r == Success(Author(subject))
    ensures author.Some? && author.value.JStr? ==> r == Success(Author(author.value.s))
    ensures author.Some? && !author.value.JStr? ==> r == Failure(AttributeError)
  {
    match author
    case None => Success(Author(subject))
    case Some(JStr(s)) => Success(Author(s))
    case Some(_) => Failure(AttributeError)
  }

  /** The path guard of `update_file`: `file_path.find(".xml") > 0`, that
      is, ".xml" occurs and its first occurrence does not open the path. */
  function XmlPathOk(filePath: string): (ok: bool)
    ensures ok <==> Contains(filePath, ".xml") && !OccursAt(filePath, ".xml", 0)
  {
    FoundAt(filePath, ".xml", 0);
    Find(filePath, ".xml", 0) > 0
  }

  /** A plain XML path passes; a path that merely starts with ".xml" fails,
      even when a later segment is an XML file. */
  lemma XmlPathExamples()
    ensures XmlPathOk("a.xml") && !XmlPathOk(".xml/b.xml") && !XmlPathOk("a.txt")
  {
    assert OccursAt("a.xml", ".xml", 1) by { assert "a.xml"[1..5] == ".xml"; }
    assert OccursAt(".xml/b.xml", ".xml", 0) by { assert ".xml/b.xml"[0..4] == ".xml"; }
    assert !Contains("a.txt", ".xml") by {
      FoundAt("a.txt", ".xml", 0);
      forall i | 0 <= i <= 1
        ensures !OccursAt("a.txt", ".xml", i)
      {
        assert "a.txt"[i..i + 4][3] != 'l';
      }
    }
  }

  const GitConfigError := "Error in git configuration, check configuration file."

  /** The checks `update_file` makes, given the outcome of the
      configuration check: a known project, a body, a "file" in it, the
      author, the base64 decoding of the file and the configuration check,
      all before its git work; then the ".xml" path guard, which the code
      reaches only after that git work (not modelled). The path guard's
      answer is therefore the one a request gets when the git steps
      succeed or, in a test, are skipped. On success it gives the author
      string of the commit. `fileDecodes` says whether
      `base64.b64decode` accepts the "file" string; a string it refuses
      raises `binascii.Error`, a `ValueError`. */
  function UpdateFileWith(body: Json, subject: string, config: Option<Config>, fileDecodes: bool,
                          check: Result<(bool, string), PyError>, filePath: string)
    : Result<string, Failure>
  {
    if config.None? then Failure(Rejected(400, "No such project."))
    else if !Truthy(body) then Failure(Rejected(400, "No JSON in PUT request."))
    else match Membership(body, "file")
      case Failure(e) => Failure(Raised(e))
      case Success(false) => Failure(Rejected(400, "No file in JSON data."))
      case Success(true) =>
        if !body.JObj? then Failure(Raised(AttributeError))
        else match AuthorOf(Lookup(body.fields, "author"), subject)
          case Failure(e) => Failure(Raised(e))
          case Success(author) =>
            if !Lookup(body.fields, "file").value.JStr? then Failure(Raised(TypeError))
            else if !fileDecodes then Failure(Raised(ValueError))
            else match check
              case Failure(e) => Failure(Raised(e))
              case Success(c) =>
                if !c.0 then Failure(Rejected(500, GitConfigError))
                else if !XmlPathOk(filePath) then Failure(Rejected(500, "File path error"))
                else Success(author)
  }

  /** A request that reaches the configuration check: a known project and
      an object body whose "file" string decodes, with a usable author. */
  predicate ReachesConfigCheck(body: Json, subject: string, config: Option<Config>, fileDecodes: bool) {
    config.Some? && body.JObj? && HasKey(body.fields, "file") && Lookup(body.fields, "file").value.JStr?
    && AuthorOf(Lookup(body.fields, "author"), subject).Success? && fileDecodes
  }

  /** `update_file`'s checks with the intended configuration check. */
  function UpdateFileChecks(body: Json, subject: string, config: Option<Config>, fileDecodes: bool,
                            flaskDebug: int, filePath: string)
    : (r: Result<string, Failure>)
    ensures config.None? ==> r == Failure(Rejected(400, "No such project."))
    ensures config.Some? && !Truthy(body) ==> r == Failure(Rejected(400, "No JSON in PUT request."))
    ensures config.Some? && Truthy(body) && body.JObj? && !HasKey(body.fields, "file") ==> r == Failure(Rejected(400, "No file in JSON data."))
    ensures config.Some? && body.JObj? && HasKey(body.fields, "file") && Lookup(body.fields, "file").value.JStr?
            && AuthorOf(Lookup(body.fields, "author"), subject).Success? && !fileDecodes
            ==> r == Failure(Raised(ValueError))
    ensures r.Success? ==> ReachesConfigCheck(body, subject, config, fileDecodes)
    ensures r.Success? ==> CheckProjectConfig(config, flaskDebug).0 && XmlPathOk(filePath)
    ensures r.Success? ==> AuthorOf(Lookup(body.fields, "author"), subject) == Success(r.value)
    ensures ReachesConfigCheck(body, subject, config, fileDecodes) && !CheckProjectConfig(config, flaskDebug).0
            ==> r == Failure(Rejected(500, GitConfigError))
    ensures ReachesConfigCheck(body, subject, config, fileDecodes)
            && CheckProjectConfig(config, flaskDebug).0 && !XmlPathOk(filePath)
            ==> r == Failure(Rejected(500, "File path error"))
  {
    UpdateFileWith(body, subject, config, fileDecodes, Success(CheckProjectConfig(config, flaskDebug)), filePath)
  }

  /** `update_file`'s checks as written, with the raising
      `check_project_config`. */
  function UpdateFileChecksAsWritten(body: Json, subject: string, config: Option<Config>, fileDecodes: bool,
                                     flaskDebug: int, filePath: string)
    : (r: Result<string, Failure>)
    ensures ReachesConfigCheck(body, subject, config, fileDecodes) && !HasKey(config.value, "git_repository")
            ==> r == Failure(Raised(KeyError))
  {
    UpdateFileWith(body, subject, config, fileDecodes, CheckProjectConfigAsWritten(config, flaskDebug), filePath)
  }

  /** Where the configuration has git_repository, the intended checks and
      the code as written answer alike. */
  lemma UpdateFileAgrees(body: Json, subject: string, config: Option<Config>, fileDecodes: bool,
                         flaskDebug: int, filePath: string)
    requires config.Some? ==> HasKey(config.value, "git_repository")
    ensures UpdateFileChecksAsWritten(body, subject, config, fileDecodes, flaskDebug, filePath)
            == UpdateFileChecks(body, subject, config, fileDecodes, flaskDebug, filePath)
  {
    CheckProjectConfigAgrees(config, flaskDebug);
  }

  /** Outside debug mode, a valid request for a project configured without
      a repository: the code fails with `KeyError`, the intended checks
      report the configuration error. Both are answered with 500. */
  lemma UpdateFileMissingRepository(subject: string, filePath: string)
    ensures var c := Some([("git_branch", JStr("main")), ("file_root", JStr("/srv/web"))]);
      var body := JObj([("file", JStr("PHhtbC8+"))]);
      UpdateFileChecksAsWritten(body, subject, c, true, 0, filePath) == Failure(Raised(KeyError))
      && UpdateFileChecks(body, subject, c, true, 0, filePath) == Failure(Rejected(500, GitConfigError))
  {
    var c := [("git_branch", JStr("main")), ("file_root", JStr("/srv/web"))];
    var body := JObj([("file", JStr("PHhtbC8+"))]);
    MissingRepositoryExample();
    assert body.fields[0].0 == "file";
    assert HasKey(body.fields, "file");
    assert Lookup(body.fields, "file") == Some(JStr("PHhtbC8+"));
    assert Lookup(body.fields, "author") == None;
    assert Truthy(body);
  }
}
