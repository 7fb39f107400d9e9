/** The configuration-driven OAI-PMH handler of
    `sls_api/endpoints/oai_library.py`: the shared first-error validation
    over the configured sets and the one format `oai_dc`, the composition
    of the record query's date clauses and bind parameters, and the
    status of the answer. */
module OaiLibrary {
  import opened Wrappers
  import opened PyStrings
  import opened OaiCommon

  /** The `sets` table of the configuration, `(setSpec, setName)` in file
      order. */
  type SetConfig = seq<(string, string)>

  /** The name the set loop records for a set spec: that of the last
      configured entry with the spec, if any. */
  function ConfigSetName(sets: SetConfig, spec: string): (r: Option<string>)
    ensures r.None? <==> forall i :: 0 <= i < |sets| ==> sets[i].0 != spec
    ensures r.Some? ==> exists i :: (0 <= i < |sets| && sets[i] == (spec, r.value)
                                     && forall j :: i < j < |sets| ==> sets[j].0 != spec)
    decreases |sets|
  {
    if |sets| == 0 then None
    else if sets[|sets| - 1].0 == spec then Some(sets[|sets| - 1].1)
    else
      var init := sets[..|sets| - 1];
      var r := ConfigSetName(init, spec);
      assert r.Some? ==> exists i :: (0 <= i < |sets| - 1 && sets[i] == (spec, r.value)
                                      && forall j :: i < j < |sets| ==> sets[j].0 != spec) by {
        if r.Some? {
          var k :| 0 <= k < |init| && init[k] == (spec, r.value) && forall j :: k < j < |init| ==> init[j].0 != spec;
          assert sets[k] == init[k];
          forall j | k < j < |sets|
            ensures sets[j].0 != spec
          {
            if j < |sets| - 1 {
              assert sets[j] == init[j];
            }
          }
        }
      }
      assert r.None? ==> forall i :: 0 <= i < |sets| ==> sets[i].0 != spec by {
        assert forall i :: 0 <= i < |sets| - 1 ==> sets[i] == init[i];
      }
      r
  }

  const Prefixes: seq<string> := ["oai_dc"]

  /** `validate_request` over the configured sets. A request that passes
      names a configured set, if any, with the configured name recorded,
      and asks for `oai_dc`, if for any format. */
  function ValidateRequest(args: Args, parse: string -> Option<string>, sets: SetConfig): (r: Validation)
    ensures HasUnknownArg(args) ==> r == (EmptyParams, Some(UnknownArgument))
    ensures r.1.None? && HasArg(args, "set") ==>
      (exists i :: 0 <= i < |sets| && sets[i].0 == Arg(args, "set").value)
      && r.0.setSpec == Arg(args, "set") && r.0.setName == ConfigSetName(sets, Arg(args, "set").value)
    ensures r.1.None? && HasArg(args, "metadataPrefix") ==> r.0.metadataPrefix == Some("oai_dc")
    ensures !HasUnknownArg(args) && VerbCheck(args).None? && HasArg(args, "set")
            && ConfigSetName(sets, Arg(args, "set").value).None? && FirstSome(Checks(args, parse, (spec: string) => ConfigSetName(sets, spec), Prefixes)[..3]).None?
            ==> r.1 == Some(UnknownSet)
    ensures !HasUnknownArg(args) && HasArg(args, "metadataPrefix") && Arg(args, "metadataPrefix").value != "oai_dc"
            && FirstSome(Checks(args, parse, (spec: string) => ConfigSetName(sets, spec), Prefixes)[..4]).None?
            ==> r.1 == Some(UnknownPrefix)
  {
    var names := (spec: string) => ConfigSetName(sets, spec);
    var r := Validate(args, parse, names, Prefixes);
    var es := Checks(args, parse, names, Prefixes);
    FirstSome5(es);
    FirstSomePrefix(es, 3);
    FirstSomePrefix(es, 4);
    r
  }

  /** No error among the first `n` checks means none of them failed. */
  lemma FirstSomePrefix(es: seq<Option<OaiError>>, n: nat)
    requires n <= |es|
    ensures FirstSome(es[..n]).None? <==> forall i :: 0 <= i < n ==> es[i].None?
  {
    assert forall i :: 0 <= i < n ==> es[..n][i] == es[i];
  }

  // ---------------------------------------------------------------------
  // The record query

  /** The query templates of ListIdentifiers, ListRecords and GetRecord. */
  const ListIdentifiersQuery := "SELECT {ident}, {date} FROM {table}"
  const ListRecordsQuery := "SELECT * FROM {table}"
  const GetRecordQuery := "SELECT * FROM {table} WHERE {ident} = :ident"

  function FromClause(date: string): string {
    date + " >= :from_date"
  }

  function UntilClause(date: string): string {
    date + " <= :until_date"
  }

  /** `statement.split(" ")[-1]`. */
  function LastWord(s: string): string {
    var words := Split(s, " ");
    words[|words| - 1]
  }

  /** The last word after a space is the text after it, when that holds
      no space. */
  lemma LastWordAfterSpace(a: string, b: string)
    requires ' ' !in b
    ensures LastWord(a + " " + b) == b
  {
    assert a + " " + b == a + [' '] + b;
    SplitAtChar(a, ' ', b);
    ContainsChar(b, ' ');
    SplitWithoutSep(b, " ");
  }

  /** One step of the clause loop: nothing for an absent clause, else
      the clause after " " when the statement ends in "WHERE" and after
      " AND " otherwise. */
  function AddClause(statement: string, clause: string): string {
    if |clause| == 0 then statement
    else if LastWord(statement) == "WHERE" then statement + " " + clause
    else statement + " AND " + clause
  }

  /** The date clauses of `build_sql_statement`: " WHERE" is added exactly
      when a date is given, the from-clause comes before the
      until-clause, and two clauses are joined by " AND ". */
  function WhereClauses(base: string, p: Params, date: string): (statement: string)
    ensures p.from.None? && p.until.None? ==> statement == base
    ensures p.from.Some? && p.until.None? ==> statement == base + " WHERE " + FromClause(date)
    ensures p.from.None? && p.until.Some? ==> statement == base + " WHERE " + UntilClause(date)
    ensures p.from.Some? && p.until.Some? ==>
      statement == base + " WHERE " + FromClause(date) + " AND " + UntilClause(date)
  {
    var fromSql := if p.from.Some? then FromClause(date) else "";
    var untilSql := if p.until.Some? then UntilClause(date) else "";
    if |fromSql| > 0 || |untilSql| > 0 then
      var w := AddClause(base + " WHERE", fromSql);
      if p.from.Some? then
        AddAfterWhere(base, fromSql);
        if p.until.Some? then AddAfterFrom(base, date, untilSql); AddClause(w, untilSql) else AddClause(w, untilSql)
      else
        AddAfterWhere(base, untilSql);
        AddClause(w, untilSql)
    else base
  }

  /** The first clause follows " WHERE" after a space. */
  lemma AddAfterWhere(base: string, clause: string)
    requires |clause| > 0
    ensures AddClause(base + " WHERE", clause) == base + " WHERE " + clause
  {
    assert base + " " + "WHERE" == base + " WHERE";
    LastWordAfterSpace(base, "WHERE");
    assert base + " WHERE" + " " + clause == base + " WHERE " + clause;
  }

  /** The until-clause follows a from-clause after " AND ". */
  lemma AddAfterFrom(base: string, date: string, clause: string)
    requires |clause| > 0
    ensures AddClause(base + " WHERE " + FromClause(date), clause) == base + " WHERE " + FromClause(date) + " AND " + clause
  {
    assert base + " WHERE " + FromClause(date) == base + " WHERE " + date + " >=" + " " + ":from_date";
    LastWordAfterSpace(base + " WHERE " + date + " >=", ":from_date");
  }

  /** The parameters bound into the statement: each placeholder that occurs
      in it, with the value of the corresponding parameter (`None` when
      the parameter is absent). */
  function BindParams(statement: string, p: Params): (binds: seq<(string, Option<string>)>)
    ensures ("from_date", p.from) in binds <==> Contains(statement, ":from_date")
    ensures ("until_date", p.until) in binds <==> Contains(statement, ":until_date")
    ensures ("ident", p.identifier) in binds <==> Contains(statement, ":ident")
    ensures |binds| <= 3
  {
    (if Contains(statement, ":from_date") then [("from_date", p.from)] else [])
    + (if Contains(statement, ":until_date") then [("until_date", p.until)] else [])
    + (if Contains(statement, ":ident") then [("ident", p.identifier)] else [])
  }

  /** `build_sql_statement`: the statement and its bind parameters. */
  function BuildSqlStatement(base: string, p: Params, date: string): (r: (string, seq<(string, Option<string>)>))
    ensures |r.1| <= 3
    ensures forall k :: 0 <= k < |r.1| ==> Contains(r.0, ":" + r.1[k].0)
    ensures Contains(r.0, ":ident") ==> ("ident", p.identifier) in r.1
  {
    var statement := WhereClauses(base, p, date);
    assert ":" + "from_date" == ":from_date" && ":" + "until_date" == ":until_date" && ":" + "ident" == ":ident";
    (statement, BindParams(statement, p))
  }

  /** For a template without placeholders and a date column without ':',
      exactly the given dates are bound, the from-date first. */
  lemma BindsFollowDates(base: string, p: Params, date: string)
    requires ':' !in base && ':' !in date
    ensures BuildSqlStatement(base, p, date).1 ==
      (if p.from.Some? then [("from_date", p.from)] else []) + (if p.until.Some? then [("until_date", p.until)] else [])
  {
    var statement := WhereClauses(base, p, date);
    var f := Contains(statement, ":from_date");
    var u := Contains(statement, ":until_date");
    var i := Contains(statement, ":ident");
    PlaceholdersFollowDates(base, p, date);
    assert BindParams(statement, p) ==
      (if f then [("from_date", p.from)] else []) + (if u then [("until_date", p.until)] else [])
      + (if i then [("ident", p.identifier)] else []);
  }

  /** The placeholders in the date clauses are those of the given dates. */
  lemma PlaceholdersFollowDates(base: string, p: Params, date: string)
    requires ':' !in base && ':' !in date
    ensures var statement := WhereClauses(base, p, date);
      (Contains(statement, ":from_date") <==> p.from.Some?)
      && (Contains(statement, ":until_date") <==> p.until.Some?)
      && !Contains(statement, ":ident")
  {
    if p.from.Some? && p.until.Some? {
      var a := base + " WHERE " + date + " >= ";
      var m := " AND " + date + " <= ";
      BothDates(a, m);
      StatementBoth(base, p, date);
    } else if p.from.Some? {
      OneDate(base + " WHERE " + date + " >= ", ":from_date", ":until_date");
      StatementFrom(base, p, date);
    } else if p.until.Some? {
      OneDate(base + " WHERE " + date + " <= ", ":until_date", ":from_date");
      StatementUntil(base, p, date);
    } else {
      NoDate(base);
    }
  }

  lemma StatementBoth(base: string, p: Params, date: string)
    requires p.from.Some? && p.until.Some?
    ensures WhereClauses(base, p, date) ==
      (base + " WHERE " + date + " >= ") + (":from_date" + ((" AND " + date + " <= ") + ":until_date"))
  {
  }

  lemma StatementFrom(base: string, p: Params, date: string)
    requires p.from.Some? && p.until.None?
    ensures WhereClauses(base, p, date) == (base + " WHERE " + date + " >= ") + ":from_date"
  {
  }

  lemma StatementUntil(base: string, p: Params, date: string)
    requires p.from.None? && p.until.Some?
    ensures WhereClauses(base, p, date) == (base + " WHERE " + date + " <= ") + ":until_date"
  {
  }

  lemma NoDate(a: string)
    requires ':' !in a
    ensures !Contains(a, ":from_date") && !Contains(a, ":until_date") && !Contains(a, ":ident")
  {
    assert a + "" == a;
    ContainsAfter(a, "", ":from_date");
    ContainsAfter(a, "", ":until_date");
    ContainsAfter(a, "", ":ident");
  }

  lemma OneDate(a: string, d: string, other: string)
    requires ':' !in a
    requires (d == ":from_date" && other == ":until_date") || (d == ":until_date" && other == ":from_date")
    ensures Contains(a + d, d) && !Contains(a + d, other) && !Contains(a + d, ":ident")
  {
    assert ':' !in d[1..];
    HasPlaceholder(a, d);
    LacksPlaceholder(a, d, other);
    LacksPlaceholder(a, d, ":ident");
  }

  /** A placeholder after colon-free text is found. */
  lemma HasPlaceholder(a: string, d: string)
    requires ':' !in a && |d| > 0 && d[0] == ':'
    ensures Contains(a + d, d)
  {
    ContainsAfter(a, d, d);
    ContainsAt(d, d, 0);
  }

  /** After colon-free text, a single placeholder holds no other one. */
  lemma LacksPlaceholder(a: string, d: string, x: string)
    requires ':' !in a && |d| >= 2 && |x| >= 2
    requires d[0] == ':' && x[0] == ':' && d[1] != x[1] && ':' !in d[1..]
    ensures !Contains(a + d, x)
  {
    ContainsAfter(a, d, x);
    assert d + "" == d;
    ContainsPastHead(d, "", x);
  }

  lemma BothDates(a: string, m: string)
    requires ':' !in a && ':' !in m
    ensures var s := a + (":from_date" + (m + ":until_date"));
      Contains(s, ":from_date") && Contains(s, ":until_date") && !Contains(s, ":ident")
  {
    var f := ":from_date";
    var u := ":until_date";
    var i := ":ident";
    ContainsAfter(a, f + (m + u), f);
    ContainsAt(f + (m + u), f, 0);
    ContainsAfter(a, f + (m + u), u);
    ContainsPastHead(f, m + u, u);
    ContainsAfter(m, u, u);
    ContainsAt(u, u, 0);
    ContainsAfter(a, f + (m + u), i);
    ContainsPastHead(f, m + u, i);
    ContainsAfter(m, u, i);
    assert u + "" == u;
    ContainsPastHead(u, "", i);
  }

  /** The GetRecord query without dates binds the identifier alone. */
  lemma GetRecordBindsIdentifier(p: Params, date: string)
    requires p.from.None? && p.until.None?
    ensures BuildSqlStatement(GetRecordQuery, p, date).1 == [("ident", p.identifier)]
  {
    var a := "SELECT * FROM {table} WHERE {ident} = ";
    var i := ":ident";
    assert GetRecordQuery == a + i;
    ContainsAfter(a, i, i);
    ContainsAt(i, i, 0);
    ContainsAfter(a, i, ":from_date");
    ContainsAfter(a, i, ":until_date");
  }

  /** The template the handler queries with for a record verb. */
  function RecordQuery(verb: string): string {
    if verb == "ListIdentifiers" then ListIdentifiersQuery
    else if verb == "ListRecords" then ListRecordsQuery
    else GetRecordQuery
  }

  /** For a request that passed validation, the record query binds the
      request's dates for the list verbs and the identifier alone for
      GetRecord, which admits no dates. */
  lemma QueryBindsRequest(args: Args, parse: string -> Option<string>, sets: SetConfig, date: string)
    requires ':' !in date
    requires ValidateRequest(args, parse, sets).1.None?
    ensures var p := ValidateRequest(args, parse, sets).0;
      p.verb.Some? && (p.verb.value == "ListIdentifiers" || p.verb.value == "ListRecords") ==>
        BuildSqlStatement(RecordQuery(p.verb.value), p, date).1 ==
          (if p.from.Some? then [("from_date", p.from)] else []) + (if p.until.Some? then [("until_date", p.until)] else [])
    ensures var p := ValidateRequest(args, parse, sets).0;
      p.verb == Some("GetRecord") ==>
        p.identifier.Some? && BuildSqlStatement(GetRecordQuery, p, date).1 == [("ident", p.identifier)]
  {
    var p := ValidateRequest(args, parse, sets).0;
    if p.verb.Some? && (p.verb.value == "ListIdentifiers" || p.verb.value == "ListRecords") {
      ListQueryWithoutColon(p.verb.value);
      BindsFollowDates(RecordQuery(p.verb.value), p, date);
    }
    if p.verb == Some("GetRecord") {
      GetRecordWithoutDates(ValidateRequest(args, parse, sets));
      GetRecordBindsIdentifier(p, date);
    }
  }

  /** The list templates hold no placeholder. */
  lemma ListQueryWithoutColon(verb: string)
    requires verb == "ListIdentifiers" || verb == "ListRecords"
    ensures ':' !in RecordQuery(verb)
  {
  }

  /** A GetRecord request that passes validation names an identifier and
      no dates. */
  lemma GetRecordWithoutDates(r: Validation)
    requires r.1.None? ==> r.0.verb.Some? && VerbRulesHold(r.0)
    requires r.1.None? && r.0.verb == Some("GetRecord")
    ensures r.0.identifier.Some? && r.0.from.None? && r.0.until.None?
  {
    assert GroupOf("GetRecord") == Single;
  }

  // ---------------------------------------------------------------------
  // The answer

  /** What the database step came to: the number of rows fetched, or an
      exception. */
  datatype Outcome = Rows(count: nat) | DatabaseFailure

  /** The error code the handler gives an exception in the database step. */
  const ExceptionCode := "InternalError"

  const DatabaseMessage := "Could not retrieve metadata from database."
  const NoRecordsMessage := "No records match the given query."
  const NoIdMessage := "The given ID could not be found in the database."

  /** The error of the database step for a validated verb. */
  function BackendError(verb: string, outcome: Outcome, exceptionCode: string): (e: Option<OaiError>)
    ensures outcome.DatabaseFailure? ==> e == Some(OaiError(exceptionCode, DatabaseMessage))
    ensures outcome.Rows? && outcome.count > 0 ==> e.None?
    ensures outcome == Rows(0) && (verb == "ListIdentifiers" || verb == "ListRecords") ==> e.Some? && e.value.code == "noRecordsMatch"
    ensures outcome == Rows(0) && verb == "GetRecord" ==> e.Some? && e.value.code == "idDoesNotExist"
    ensures outcome.Rows? && verb !in {"ListIdentifiers", "ListRecords", "GetRecord"} ==> e.None?
  {
    match outcome
    case DatabaseFailure => Some(OaiError(exceptionCode, DatabaseMessage))
    case Rows(n) =>
      if n == 0 && (verb == "ListIdentifiers" || verb == "ListRecords") then Some(OaiError("noRecordsMatch", NoRecordsMessage))
      else if n == 0 && verb == "GetRecord" then Some(OaiError("idDoesNotExist", NoIdMessage))
      else None
  }

  /** What the view function returns: a response with a status, or nothing. */
  datatype Reply = Reply(status: int) | NoResponse

  /** `process_oai_request` as written: all of its work sits under
      `if error is None`, so a request that fails validation gets no
      response at all, and an exception's code "InternalError" is not
      among the codes answered with 500. */
  function ProcessAsWritten(args: Args, parse: string -> Option<string>, sets: SetConfig, outcome: Outcome): (r: Reply)
    ensures r.NoResponse? <==> ValidateRequest(args, parse, sets).1.Some?
    ensures r.Reply? && outcome.DatabaseFailure? ==> r.status == 400
    ensures r.Reply? && outcome.Rows? && outcome.count > 0 ==> r.status == 200
  {
    var v := ValidateRequest(args, parse, sets);
    if v.1.Some? then NoResponse
    else Reply(StatusFor(BackendError(v.0.verb.value, outcome, ExceptionCode)))
  }

  /** A bad verb gets no response, and a database failure on a valid
      Identify request is answered as a client error. */
  lemma ProcessAsWrittenFails(parse: string -> Option<string>, sets: SetConfig)
    ensures ProcessAsWritten([("verb", "Bogus")], parse, sets, Rows(1)) == NoResponse
    ensures ProcessAsWritten([("verb", "Identify")], parse, sets, DatabaseFailure) == Reply(400)
  {
    BogusVerbFails(parse, sets);
    IdentifyPasses(parse, sets);
  }

  lemma BogusVerbFails(parse: string -> Option<string>, sets: SetConfig)
    ensures ValidateRequest([("verb", "Bogus")], parse, sets).1.Some?
  {
    var bad: Args := [("verb", "Bogus")];
    assert bad[0].0 == "verb";
    assert !HasUnknownArg(bad);
    assert Arg(bad, "verb") == Some("Bogus");
  }

  lemma IdentifyPasses(parse: string -> Option<string>, sets: SetConfig)
    ensures var v := ValidateRequest([("verb", "Identify")], parse, sets);
      v.1.None? && v.0.verb == Some("Identify")
  {
    var good: Args := [("verb", "Identify")];
    assert good[0].0 == "verb";
    assert !HasUnknownArg(good);
    assert Arg(good, "verb") == Some("Identify");
    assert !HasArg(good, "from") && !HasArg(good, "until") && !HasArg(good, "identifier");
    assert !HasArg(good, "set") && !HasArg(good, "metadataPrefix");
    var names := (spec: string) => ConfigSetName(sets, spec);
    FirstSome5(Checks(good, parse, names, Prefixes));
    assert Accepted(good, parse, names).Size() == 1;
  }

  /** The answer the handler evidently intends: a failed validation is
      answered with its error's status, and an exception in the database
      step carries the "internalError" code of section 3.6 of OAI-PMH 2.0,
      so it is answered with 500. */
  function Process(args: Args, parse: string -> Option<string>, sets: SetConfig, outcome: Outcome): (status: int)
    ensures ValidateRequest(args, parse, sets).1.Some? ==> status == 400
    ensures ValidateRequest(args, parse, sets).1.None? && outcome.DatabaseFailure? ==> status == 500
    ensures ValidateRequest(args, parse, sets).1.None? && outcome.Rows? && outcome.count > 0 ==> status == 200
    ensures ValidateRequest(args, parse, sets).1.None? && outcome == Rows(0) ==>
      var verb := ValidateRequest(args, parse, sets).0.verb.value;
      (verb in {"ListIdentifiers", "ListRecords", "GetRecord"} ==> status == 404)
      && (verb !in {"ListIdentifiers", "ListRecords", "GetRecord"} ==> status == 200)
  {
    var v := ValidateRequest(args, parse, sets);
    ValidationFailureIs400(args, parse, (spec: string) => ConfigSetName(sets, spec), Prefixes, None);
    if v.1.Some? then StatusFor(v.1)
    else StatusFor(BackendError(v.0.verb.value, outcome, "internalError"))
  }

  /** Where the two disagree: every request the handler answers gets the
      same status from both, except a database failure. */
  lemma ProcessAgreesWhenAnswered(args: Args, parse: string -> Option<string>, sets: SetConfig, outcome: Outcome)
    ensures ProcessAsWritten(args, parse, sets, outcome).Reply? && outcome.Rows? ==>
      ProcessAsWritten(args, parse, sets, outcome).status == Process(args, parse, sets, outcome)
  {
  }
}
