/** The project rights of a `User` in `sls_api/models.py`: the `projects`
    column holds a comma-separated list of project names. Password hashing
    and the database session are not part of this model. */
module Users {
  import opened Wrappers
  import opened PyStrings

  /** A user row: its email and its `projects` column (NULL is `None`). */
  datatype User = User(email: string, projects: Option<string>)

  /** The column holds a list: it is neither NULL nor empty. */
  predicate HasProjects(u: User) {
    u.projects.Some? && u.projects.value != ""
  }

  /** `get_projects`: the comma-separated entries, or `None` for a NULL or
      empty column. */
  function GetProjects(u: User): (r: Option<seq<string>>)
    ensures r.None? <==> !HasProjects(u)
    ensures r.Some? ==> |r.value| >= 1 && Join(r.value, ",") == u.projects.value
    ensures r.Some? ==> forall k :: 0 <= k < |r.value| ==> ',' !in r.value[k]
  {
    if HasProjects(u) then
      var p := u.projects.value;
      JoinSplit(p, ",");
      SplitPiecesFree(p, ",");
      assert forall k :: 0 <= k < |Split(p, ",")| ==> (Contains(Split(p, ",")[k], [',']) <==> ',' in Split(p, ",")[k]) by {
        forall k | 0 <= k < |Split(p, ",")| {
          ContainsChar(Split(p, ",")[k], ',');
        }
      }
      Some(Split(p, ","))
    else None
  }

  /** `can_edit_project`: the name is one of the entries, compared
      exactly. */
  function CanEditProject(u: User, project: string): (r: bool)
    ensures !HasProjects(u) ==> !r
  {
    if HasProjects(u) then project in Split(u.projects.value, ",") else false
  }

  /** A user may edit a project exactly when `get_projects` lists it. */
  lemma CanEditIffListed(u: User, project: string)
    ensures CanEditProject(u, project) <==> GetProjects(u).Some? && project in GetProjects(u).value
  {
  }

  /** For a column written as the comma-join of names free of commas, the
      rights are exactly those names. */
  lemma RightsOfJoinedList(email: string, names: seq<string>, project: string)
    requires |names| >= 1 && Join(names, ",") != ""
    requires forall k :: 0 <= k < |names| ==> ',' !in names[k]
    ensures CanEditProject(User(email, Some(Join(names, ","))), project) <==> project in names
  {
    SplitJoinChar(names, ',');
  }

  /** Entries are not trimmed: with "a, b" the second entry is " b". */
  lemma NoTrimming()
    ensures !CanEditProject(User("x", Some("a, b")), "b")
    ensures CanEditProject(User("x", Some("a, b")), " b")
  {
    SplitAtChar("a", ',', " b");
    ContainsChar("a", ',');
    SplitWithoutSep("a", ",");
    ContainsChar(" b", ',');
    SplitWithoutSep(" b", ",");
    assert "a" + [','] + " b" == "a, b";
  }
}
