/** The web-repository file tools of `sls_api/endpoints/tools_files.py`:
    their own `is_a_test` and configuration check over the web-files
    configuration. */
module WebFiles {
  import opened Wrappers
  import opened Json
  import opened ProjectFiles

  /** `is_a_test` as written: `web_files_config[project]["git_repository"]`
      raises `KeyError` when the project's configuration lacks the key;
      otherwise it is a test in debug mode with git_repository `None`
      (and the function returns `None`, which is falsy, when not). */
  function WebIsATestAsWritten(config: Config, flaskDebug: int): (r: Result<bool, PyError>)
    ensures r.Failure? <==> !HasKey(config, "git_repository")
    ensures r.Failure? ==> r.error == KeyError
    ensures r.Success? ==> (r.value <==> Lookup(config, "git_repository") == Some(JNull) && flaskDebug == 1)
  {
    var repository :- Index(JObj(config), "git_repository");
    Success(repository == JNull && flaskDebug == 1)
  }

  /** `check_project_web_repo_config` as written; `config` is the
      project's entry of the web-files configuration, `None` when the
      project has none. */
  function CheckWebRepoConfigAsWritten(config: Option<Config>, flaskDebug: int): (r: Result<(bool, string), PyError>)
    ensures r.Failure? <==> config.Some? && !HasKey(config.value, "git_repository")
    ensures r.Failure? ==> r.error == KeyError
    ensures r.Success? && r.value.0 ==> config.Some? && HasKey(config.value, "git_branch") && HasKey(config.value, "file_root")
  {
    CheckConfig(config, if config.Some? then WebIsATestAsWritten(config.value, flaskDebug) else Success(false))
  }

  /** As in the file tools, the missing-repository message is never
      returned; where git_repository is configured the check agrees with
      the intended `ProjectFiles.CheckProjectConfig`. */
  lemma WebRepositoryMessageUnreachable(config: Option<Config>, flaskDebug: int)
    ensures CheckWebRepoConfigAsWritten(config, flaskDebug) != Success((false, NoRepository))
    ensures config.Some? && !HasKey(config.value, "git_repository") ==>
      CheckWebRepoConfigAsWritten(config, flaskDebug) == Failure(KeyError)
    ensures (config.Some? ==> HasKey(config.value, "git_repository")) ==>
      CheckWebRepoConfigAsWritten(config, flaskDebug) == Success(CheckProjectConfig(config, flaskDebug))
  {
  }
}
