/** The OAI-PMH handler of `sls_api/endpoints/oai.py`: request validation
    that stops at the first failing check, the response status, and the
    record-building rules for publishers, EAD archive levels and
    "name (role)" person lists. */
module OaiSls {
  import opened Wrappers
  import opened PyStrings
  import opened Json
  import opened OaiCommon
  import Http

  const Prefixes: seq<string> := ["oai_dc", "europeana", "ead"]

  /** The two sets the handler publishes and their names. */
  function SetName(spec: string): Option<string> {
    if spec == "SLSeuropeana" then Some("SLS material till Europeana")
    else if spec == "SLSfinna" then Some("SLS material till Finna/NDB")
    else None
  }

  /** `validate_request`, with its loop over the arguments read as
      `req.args.items()`: the shared first-error validation with this
      handler's two sets and three metadata formats. A request that passes
      names one of the two sets, if any, with its name recorded, and one
      of the three formats, if any. */
  function ValidateRequest(args: Args, parse: string -> Option<string>): (r: Validation)
    ensures r.1.None? && HasArg(args, "set") ==>
      Arg(args, "set").value in {"SLSeuropeana", "SLSfinna"} && r.0.setSpec == Arg(args, "set")
      && r.0.setName == SetName(Arg(args, "set").value)
    ensures r.1.None? && HasArg(args, "metadataPrefix") ==>
      Arg(args, "metadataPrefix").value in Prefixes && r.0.metadataPrefix == Arg(args, "metadataPrefix")
    ensures HasArg(args, "set") && SetName(Arg(args, "set").value).None? ==> r.1.Some?
    ensures HasArg(args, "metadataPrefix") && Arg(args, "metadataPrefix").value !in Prefixes ==> r.1.Some?
  {
    var r := Validate(args, parse, SetName, Prefixes);
    var es := Checks(args, parse, SetName, Prefixes);
    assert HasArg(args, "set") && SetName(Arg(args, "set").value).None? ==> es[3].Some?;
    assert HasArg(args, "metadataPrefix") && Arg(args, "metadataPrefix").value !in Prefixes ==> es[4].Some?;
    r
  }

  /** The HTTP status of the answer: the validation error if there is one,
      else the error of the database step (`None` when it succeeded). */
  function ResponseStatus(args: Args, parse: string -> Option<string>, backend: Option<OaiError>): (status: int)
    ensures ValidateRequest(args, parse).1.Some? ==> status == 400
    ensures ValidateRequest(args, parse).1.None? ==> status == StatusFor(backend)
  {
    ValidationFailureIs400(args, parse, SetName, Prefixes, backend);
    var v := ValidateRequest(args, parse);
    StatusFor(if v.1.Some? then v.1 else backend)
  }

  // ---------------------------------------------------------------------
  // The argument loop as written

  /** The iteration methods of werkzeug's `MultiDict` under Python 3. The
      Python 2 names `iteritems`, `iterkeys` and `itervalues` are gone. */
  const MultiDictIterators: set<string> := {"items", "keys", "values", "lists", "listvalues"}

  /** `validate_request` as written: its first statement looks up
      `req.args.iteritems`, which raises `AttributeError` when the
      arguments have no such method; only past that lookup would the
      validation of `ValidateRequest` run. */
  function ValidateRequestAsWritten(args: Args, parse: string -> Option<string>): (r: Result<Validation, PyError>)
    ensures r.Failure? <==> "iteritems" !in MultiDictIterators
    ensures r.Failure? ==> r.error == AttributeError
    ensures r.Success? ==> r.value == ValidateRequest(args, parse)
  {
    if "iteritems" !in MultiDictIterators then Failure(AttributeError)
    else Success(ValidateRequest(args, parse))
  }

  /** The status as written: the call to `validate_request` in
      `process_oai_request` is outside every `try`, so its exception
      reaches Flask, which answers 500, whatever the request. */
  function ResponseStatusAsWritten(args: Args, parse: string -> Option<string>, backend: Option<OaiError>): (status: int)
    ensures status == 500
  {
    match ValidateRequestAsWritten(args, parse)
    case Failure(e) => Http.Raised(e).Status()
    case Success(v) => StatusFor(if v.1.Some? then v.1 else backend)
  }

  /** As written the handler answers no request as intended: one the
      validation refuses gets 500 instead of 400, and one it accepts
      whose database step succeeds gets 500 instead of 200. */
  lemma AsWrittenNeverAnswers(args: Args, parse: string -> Option<string>, backend: Option<OaiError>)
    ensures ValidateRequest(args, parse).1.Some? ==>
      ResponseStatusAsWritten(args, parse, backend) == 500 && ResponseStatus(args, parse, backend) == 400
    ensures ValidateRequest(args, parse).1.None? && backend.None? ==>
      ResponseStatusAsWritten(args, parse, backend) == 500 && ResponseStatus(args, parse, backend) == 200
  {
  }

  /** An Identify request, which the intended handler answers with 200
      once its database step succeeds, raises as written. */
  lemma IdentifyRaises(parse: string -> Option<string>)
    ensures ValidateRequestAsWritten([("verb", "Identify")], parse) == Failure(AttributeError)
    ensures ResponseStatusAsWritten([("verb", "Identify")], parse, None) == 500
  {
  }

  // ---------------------------------------------------------------------
  // Record content

  /** The dc:publisher elements of a record: the two publisher fields
      joined, and no element when both are empty. */
  function PublisherElements(publisher1: string, publisher2: string): (texts: seq<string>)
    ensures |publisher1| > 0 && |publisher2| > 0 ==> texts == [publisher1 + ", " + publisher2]
    ensures |publisher1| > 0 && |publisher2| == 0 ==> texts == [publisher1]
    ensures |publisher1| == 0 && |publisher2| > 0 ==> texts == [publisher2]
    ensures |publisher1| == 0 && |publisher2| == 0 ==> texts == []
  {
    CreateElement(JoinPublishers(publisher1, publisher2))
  }

  /** The EAD `level` attribute: "fonds" for an archive, "collection"
      for a collection, "" otherwise, after `str()` and lower-casing the
      archive type. */
  function EadLevel(archiveType: Json): (level: string)
    ensures level == "fonds" <==> Lower(Str(archiveType)) == "arkiv"
    ensures level == "collection" <==> Lower(Str(archiveType)) == "samling"
    ensures level == "" <==> Lower(Str(archiveType)) != "arkiv" && Lower(Str(archiveType)) != "samling"
  {
    var t := Lower(Str(archiveType));
    if t == "arkiv" then "fonds" else if t == "samling" then "collection" else ""
  }

  /** An archive type given in capitals is recognised too. */
  lemma EadLevelIgnoresCase()
    ensures EadLevel(JStr("ARKIV")) == "fonds" && EadLevel(JStr("Samling")) == "collection"
    ensures EadLevel(JNull) == ""
  {
    assert Lower("ARKIV") == "arkiv";
    assert Lower("Samling") == "samling";
    assert Lower("None") == "none";
  }

  /** An ead:persname element: the name and, when given, the role. */
  datatype Person = Person(name: string, role: Option<string>)

  /** One entry of a person list: the text before the first " (" is the
      name, the text between the first and second " (" with every ")"
      removed is the role; no element is made for an empty name. */
  function PersonOf(entry: string): (p: Option<Person>)
    ensures var parts := Split(entry, " (");
      && (p.Some? <==> |parts[0]| > 0)
      && (p.Some? ==> p.value.name == parts[0] && (p.value.role.Some? <==> |parts| > 1))
      && (p.Some? && |parts| > 1 ==> p.value.role == Some(PyStrings.Replace(parts[1], ")", "")))
    ensures p.Some? ==> |p.value.name| > 0 && !Contains(p.value.name, " (")
    ensures p.Some? && p.value.role.Some? ==> ')' !in p.value.role.value
  {
    var parts := Split(entry, " (");
    SplitPiecesFree(entry, " (");
    var role := if |parts| > 1 then RemoveCharGone(parts[1], ')'); Some(PyStrings.Replace(parts[1], ")", "")) else None;
    if |parts[0]| > 0 then Some(Person(parts[0], role)) else None
  }

  /** An entry written "name (role)" reads back as that name and role. */
  lemma PersonWithRole(name: string, role: string)
    requires |name| > 0 && '(' !in name
    requires '(' !in role && ')' !in role
    ensures PersonOf(name + " (" + role + ")") == Some(Person(name, Some(role)))
  {
    var rest := role + ")";
    var entry := name + " (" + role + ")";
    assert entry == name + " (" + rest;
    NoSepInHeadSecond(name, " (", rest);
    FirstSepAt(name, " (", rest);
    assert '(' !in rest;
    LacksSepChar(rest, " (", 1);
    SplitWithoutSep(rest, " (");
    assert Split(entry, " (") == [name, rest];
    NoSepInHead(role, ")", "");
    FirstSepAt(role, ")", "");
    assert role + ")" + "" == rest;
    assert Split("", ")") == [""];
    assert Split(rest, ")") == [role, ""];
    assert Join([role, ""], "") == role;
  }

  /** An entry without " (" is a name without a role. */
  lemma PersonWithoutRole(name: string)
    requires |name| > 0 && '(' !in name
    ensures PersonOf(name) == Some(Person(name, None))
  {
    LacksSepChar(name, " (", 1);
    SplitWithoutSep(name, " (");
  }

  /** The persons of a list of entries, in entry order. */
  function PersonsOf(entries: seq<string>): (ps: seq<Person>)
    ensures |ps| <= |entries|
    ensures forall i :: 0 <= i < |ps| ==> |ps[i].name| > 0 && !Contains(ps[i].name, " (")
    ensures forall i :: 0 <= i < |ps| ==> ps[i].role.Some? ==> ')' !in ps[i].role.value
    decreases |entries|
  {
    if |entries| == 0 then []
    else
      var p := PersonOf(entries[0]);
      (if p.Some? then [p.value] else []) + PersonsOf(entries[1..])
  }

  /** One entry gives its person, or nothing for an empty name. */
  lemma PersonsOfOne(entry: string)
    ensures PersonsOf([entry]) == if PersonOf(entry).Some? then [PersonOf(entry).value] else []
  {
    assert [entry][1..] == [];
  }

  /** The persons of two lists of entries are those of the first followed
      by those of the second: one element per entry with a name, in entry
      order. */
  lemma {:induction false} PersonsOfAppend(a: seq<string>, b: seq<string>)
    ensures PersonsOf(a + b) == PersonsOf(a) + PersonsOf(b)
    decreases |a|
  {
    if |a| == 0 {
      assert a + b == b;
    } else {
      var h := if PersonOf(a[0]).Some? then [PersonOf(a[0]).value] else [];
      assert (a + b)[0] == a[0];
      assert (a + b)[1..] == a[1..] + b;
      assert PersonsOf(a + b) == h + PersonsOf(a[1..] + b);
      PersonsOfAppend(a[1..], b);
      assert PersonsOf(a) == h + PersonsOf(a[1..]);
    }
  }

  /** The ead:persname elements for a "; "-separated list of
      "name (role)" entries, in order. */
  function Persons(list: string): (ps: seq<Person>)
    ensures ps == PersonsOf(Split(list, "; "))
    ensures |list| == 0 ==> ps == []
  {
    if |list| == 0 then
      assert Split(list, "; ") == [""];
      assert PersonOf("") == None by { assert Split("", " (") == [""]; }
      []
    else PersonsOf(Split(list, "; "))
  }

  /** Entries without ';', joined with "; ", give their persons in order. */
  lemma PersonsOfJoined(entries: seq<string>)
    requires |entries| >= 1
    requires forall k :: 0 <= k < |entries| ==> ';' !in entries[k]
    ensures Persons(Join(entries, "; ")) == PersonsOf(entries)
  {
    SplitJoinHead(entries, "; ");
  }

  /** "name (role); other" names the first person with the role and the
      second without one. */
  lemma PersonsOfTwo(name: string, role: string, other: string)
    requires |name| > 0 && '(' !in name && ';' !in name
    requires '(' !in role && ')' !in role && ';' !in role
    requires |other| > 0 && '(' !in other && ';' !in other
    ensures Persons(name + " (" + role + "); " + other) == [Person(name, Some(role)), Person(other, None)]
  {
    var first := name + " (" + role + ")";
    var entries := [first, other];
    assert Join(entries, "; ") == name + " (" + role + "); " + other;
    PersonsOfJoined(entries);
    PersonWithRole(name, role);
    PersonWithoutRole(other);
    assert entries == [first] + [other];
    PersonsOfAppend([first], [other]);
    PersonsOfOne(first);
    PersonsOfOne(other);
  }
}
