/** Three rules of `sls_api/endpoints/metadata.py`: the glob pattern a
    markdown file id becomes, the query `get_tooltip` builds, and who may
    upload a table of contents. Files, globbing and the database are not
    part of this model. */
module Metadata {
  import opened Wrappers
  import opened PyStrings
  import opened Json
  import opened DeTools

  // ---------------------------------------------------------------------
  // Markdown file ids

  /** The path pattern of `get_md_contents_as_json`: an id of more than
      four dash-separated parts is first rebuilt from parts 0, 1, 2 and a
      "0" before part 4; then every dash becomes "*\/" and a "*" ends it. */
  function MdPattern(fileid: string): (r: string)
    ensures |r| > 0 && r[|r| - 1] == '*'
  {
    var parts := Split(fileid, "-");
    var path := if |parts| > 4 then parts[0] + "-" + parts[1] + "-" + parts[2] + "-0" + parts[4] else fileid;
    Join(Split(path, "-"), "*/") + "*"
  }

  /** A piece of a split on "-" holds no dash. */
  lemma DashFree(s: string, k: int)
    requires 0 <= k < |Split(s, "-")|
    ensures '-' !in Split(s, "-")[k]
  {
    SplitPiecesFree(s, "-");
    ContainsChar(Split(s, "-")[k], '-');
  }

  /** A short id keeps all its parts. */
  lemma MdPatternShort(fileid: string)
    requires |Split(fileid, "-")| <= 4
    ensures MdPattern(fileid) == Join(Split(fileid, "-"), "*/") + "*"
  {
  }

  /** A long id keeps parts 0, 1 and 2, drops part 3 and everything after
      part 4, and puts a "0" before part 4. */
  lemma MdPatternRebuilt(fileid: string)
    requires |Split(fileid, "-")| > 4
    ensures var p := Split(fileid, "-");
            MdPattern(fileid) == Join([p[0], p[1], p[2], "0" + p[4]], "*/") + "*"
  {
    var p := Split(fileid, "-");
    var kept := [p[0], p[1], p[2], "0" + p[4]];
    DashFree(fileid, 0);
    DashFree(fileid, 1);
    DashFree(fileid, 2);
    DashFree(fileid, 4);
    assert '-' !in "0" + p[4];
    assert Join(kept, "-") == p[0] + "-" + p[1] + "-" + p[2] + "-0" + p[4] by {
      assert Join(kept[3..], "-") == "0" + p[4];
      assert Join(kept[2..], "-") == p[2] + "-" + ("0" + p[4]);
      assert Join(kept[1..], "-") == p[1] + "-" + (p[2] + "-" + ("0" + p[4]));
    }
    SplitJoinChar(kept, '-');
  }

  lemma MdPatternExample()
    ensures MdPattern("1-2-3-4-5") == "1*/2*/3*/05*"
  {
    SplitFive();
    MdPatternRebuilt("1-2-3-4-5");
    assert "0" + "5" == "05";
    JoinKept(["1", "2", "3", "05"]);
  }

  lemma SplitFive()
    ensures Split("1-2-3-4-5", "-") == ["1", "2", "3", "4", "5"]
  {
    var parts := ["1", "2", "3", "4", "5"];
    JoinFive(parts);
    assert forall k :: 0 <= k < |parts| ==> '-' !in parts[k];
    SplitJoinChar(parts, '-');
  }

  lemma JoinFive(parts: seq<string>)
    requires parts == ["1", "2", "3", "4", "5"]
    ensures Join(parts, "-") == "1-2-3-4-5"
  {
    assert Join(parts[4..], "-") == "5" by { assert parts[4..] == ["5"]; }
    assert Join(parts[3..], "-") == "4-5" by { assert parts[3..][1..] == parts[4..]; }
    assert Join(parts[2..], "-") == "3-4-5" by { assert parts[2..][1..] == parts[3..]; }
    assert Join(parts[1..], "-") == "2-3-4-5" by { assert parts[1..][1..] == parts[2..]; }
  }

  lemma JoinKept(kept: seq<string>)
    requires kept == ["1", "2", "3", "05"]
    ensures Join(kept, "*/") + "*" == "1*/2*/3*/05*"
  {
    assert Join(kept[3..], "*/") == "05" by { assert kept[3..] == ["05"]; }
    assert Join(kept[2..], "*/") == "3*/05" by { assert kept[2..][1..] == kept[3..]; }
    assert Join(kept[1..], "*/") == "2*/3*/05" by { assert kept[1..][1..] == kept[2..]; }
  }

  // ---------------------------------------------------------------------
  // Tooltip queries

  /** The id a tooltip is looked up by. */
  datatype Ident = NumericId(n: int) | LegacyId(s: string)

  /** The statement `get_tooltip` runs: its SQL text, the `id` parameter
      and the project whose id fills `project_id`, if any. */
  datatype TooltipQuery = TooltipQuery(sql: string, ident: Ident, project: Option<string>)

  const ProjectSql := " AND project_id = :project_id "

  /** The SQL text for a table and kind of id, before the project
      clause. */
  function TooltipBase(table: string, legacy: bool): string {
    if legacy then
      if table == "subject" then "SELECT id, legacy_id, full_name, description FROM subject WHERE legacy_id=:id"
      else "SELECT id, legacy_id, name, description FROM " + table + " WHERE legacy_id=:id "
    else
      if table == "subject" then "SELECT id, legacy_id, full_name, description FROM subject WHERE id=:id"
      else "SELECT id, legacy_id, name, description FROM " + table + " WHERE id=:id"
  }

  /** `get_tooltip`: a row id `int()` accepts is a numeric id, anything
      else a legacy id, and `use_legacy` forces the legacy reading. */
  function Tooltip(table: string, rowId: string, project: Option<string>, useLegacy: bool): (r: TooltipQuery)
    ensures r.ident.LegacyId? <==> useLegacy || ParseInt(rowId).None?
    ensures r.ident.LegacyId? ==> r.ident.s == rowId
    ensures r.ident.NumericId? ==> ParseInt(rowId) == Some(r.ident.n)
    ensures r.project == project
    ensures r.sql == TooltipBase(table, r.ident.LegacyId?) + (if project.Some? then ProjectSql else "")
  {
    var parsed := ParseInt(rowId);
    var ident := if parsed.Some? && !useLegacy then NumericId(parsed.value) else LegacyId(rowId);
    TooltipQuery(TooltipBase(table, ident.LegacyId?) + (if project.Some? then ProjectSql else ""), ident, project)
  }

  /** The decimal form of an integer is looked up as that number, unless
      the legacy reading is forced. */
  lemma NumericRowId(table: string, n: int, project: Option<string>)
    ensures Tooltip(table, IntToString(n), project, false).ident == NumericId(n)
    ensures Tooltip(table, IntToString(n), project, true).ident == LegacyId(IntToString(n))
  {
    ParseIntToString(n);
  }

  lemma LegacyRowId(table: string, project: Option<string>)
    ensures Tooltip(table, "pe1", project, false).ident == LegacyId("pe1")
  {
    NotAnInt();
  }

  lemma NotAnInt()
    ensures ParseInt("pe1").None?
  {
    StripsToItself();
    assert !ValidDigitRun("pe1") by { assert !IsDigitChar("pe1"[0]); }
  }

  lemma StripsToItself()
    ensures Strip("pe1") == "pe1"
  {
    assert LStripSpace("pe1") == "pe1" by { assert !IsSpace("pe1"[0]); }
    assert !IsSpace("pe1"[2]);
  }

  // ---------------------------------------------------------------------
  // Table of contents upload

  const TestUser := "test@test.com"

  /** The authorization of `handle_toc`'s PUT branch: in debug mode the
      test user may edit every project (reading `identity["sub"]` only in
      debug mode); otherwise the project must be in `identity["projects"]`. */
  function TocAuthorized(identity: Json, flaskDebug: int, project: string): Result<bool, PyError> {
    if flaskDebug == 1 then
      var sub :- Index(identity, "sub");
      if sub == JStr(TestUser) then Success(true) else Permits(identity, project)
    else Permits(identity, project)
  }

  /** `handle_toc` for PUT, up to writing the file: the project must be
      known, the request authenticated and authorized, and the body
      truthy. `flaskDebug` is `int(FLASK_DEBUG)`. */
  function TocPut(projectKnown: bool, identity: Option<Json>, flaskDebug: int, project: string, body: Json)
    : (r: Result<Decision, PyError>)
    ensures !projectKnown ==> r == Success(Deny(400, "No such project."))
    ensures projectKnown && identity.None? ==> r == Success(Deny(403, "Missing Authorization Header"))
    ensures r.Success? && r.value.Deny? ==> r.value.status == 400 || r.value.status == 403
  {
    if !projectKnown then Success(Deny(400, "No such project."))
    else if identity.None? then Success(Deny(403, "Missing Authorization Header"))
    else
      var ok :- TocAuthorized(identity.value, flaskDebug, project);
      if !ok then Success(Deny(403, NoAccess))
      else if !Truthy(body) then Success(Deny(400, "No JSON in payload."))
      else Success(Proceed)
  }

  /** An upload goes ahead exactly when the debug test user asks, or the
      identity lists the project (and, in debug mode, has a "sub"); and
      the body is truthy. */
  lemma TocPutIff(projectKnown: bool, identity: Option<Json>, flaskDebug: int, project: string, body: Json)
    ensures TocPut(projectKnown, identity, flaskDebug, project, body) == Success(Proceed) <==>
              projectKnown && identity.Some? && Truthy(body) &&
              ((flaskDebug == 1 && Index(identity.value, "sub") == Success(JStr(TestUser)))
               || ((flaskDebug == 1 ==> Index(identity.value, "sub").Success?)
                   && Permits(identity.value, project) == Success(true)))
  {
  }

  /** Outside debug mode the test user has no special rights. */
  lemma TestUserNeedsDebug(project: string, body: Json)
    requires Truthy(body)
    ensures TocPut(true, Some(JObj([("sub", JStr(TestUser)), ("projects", JArr([]))])), 0, project, body)
            == Success(Deny(403, NoAccess))
    ensures TocPut(true, Some(JObj([("sub", JStr(TestUser)), ("projects", JArr([]))])), 1, project, body)
            == Success(Proceed)
  {
    var id := JObj([("sub", JStr(TestUser)), ("projects", JArr([]))]);
    assert id.fields[1].0 == "projects";
    assert Lookup(id.fields, "projects") == Some(JArr([]));
    assert id.fields[0].0 == "sub";
    assert Lookup(id.fields, "sub") == Some(JStr(TestUser));
  }
}
