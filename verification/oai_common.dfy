/** What the three OAI-PMH handlers share: the request parameters they
    accept, the error conditions of section 3.6 of the OAI-PMH 2.0
    specification they report, the per-verb argument rules of sections
    4.1 to 4.6 as the code applies them, the mapping from error code to
    HTTP status, and the two element helpers of `sls_api/endpoints/oai.py`. */
module OaiCommon {
  import opened Wrappers
  import opened PyStrings

  /** The query string as `(name, value)` pairs in request order. */
  type Args = seq<(string, string)>

  /** `name in req.args`. */
  predicate HasArg(args: Args, name: string) {
    exists i :: 0 <= i < |args| && args[i].0 == name
  }

  /** `req.args[name]`: the first value given for the name. */
  function Arg(args: Args, name: string): (r: Option<string>)
    ensures r.Some? <==> HasArg(args, name)
    ensures r.Some? ==> exists i :: (0 <= i < |args| && args[i] == (name, r.value)
                                     && forall j :: 0 <= j < i ==> args[j].0 != name)
    decreases |args|
  {
    if |args| == 0 then None
    else if args[0].0 == name then Some(args[0].1)
    else
      var r := Arg(args[1..], name);
      assert r.Some? ==> exists i :: (1 <= i < |args| && args[i] == (name, r.value)
                                      && forall j :: 0 <= j < i ==> args[j].0 != name) by {
        if r.Some? {
          var k :| 0 <= k < |args[1..]| && args[1..][k] == (name, r.value)
            && forall j :: 0 <= j < k ==> args[1..][j].0 != name;
          assert args[k + 1] == (name, r.value);
          forall j | 0 <= j < k + 1
            ensures args[j].0 != name
          {
            if j > 0 {
              assert args[j] == args[1..][j - 1];
            }
          }
        }
      }
      r
  }

  const AllowedArgs: set<string> := {"verb", "from", "until", "identifier", "set", "metadataPrefix"}

  const Verbs: seq<string> :=
    ["Identify", "ListSets", "ListMetadataFormats", "ListIdentifiers", "ListRecords", "GetRecord"]

  /** Some query argument is not one of the six the handlers know. */
  predicate HasUnknownArg(args: Args) {
    exists i :: 0 <= i < |args| && args[i].0 !in AllowedArgs
  }

  /** The `valid_params` dictionary, one optional entry per key. */
  datatype Params = Params(
    verb: Option<string>,
    from: Option<string>,
    until: Option<string>,
    identifier: Option<string>,
    setSpec: Option<string>,
    setName: Option<string>,
    metadataPrefix: Option<string>)
  {
    /** `len(valid_params)`. */
    function Size(): (n: nat)
      ensures n <= 7
    {
      Count(verb) + Count(from) + Count(until) + Count(identifier)
      + Count(setSpec) + Count(setName) + Count(metadataPrefix)
    }
  }

  function Count(o: Option<string>): nat {
    if o.Some? then 1 else 0
  }

  const EmptyParams := Params(None, None, None, None, None, None, None)

  /** An OAI-PMH error condition: the code and the human-readable text. */
  datatype OaiError = OaiError(code: string, message: string)

  const UnknownArgument := OaiError("badArgument", "Unknown argument")
  const BadVerb := OaiError("badVerb", "Bad OAI verb")
  const FromMalformed := OaiError("badArgument", "From-date malformed")
  const UntilMalformed := OaiError("badArgument", "Until-date malformed")
  const UnknownSet := OaiError("badArgument", "Unknown set")
  const UnknownPrefix := OaiError("cannotDisseminateFormat", "Unknown metadata prefix")

  /** The outcome of validating the query string so far. */
  type Validation = (Params, Option<OaiError>)

  /** The verbs grouped by the argument rules they share. */
  datatype VerbGroup = Bare | Formats | Listing | Single | Unruled

  function GroupOf(v: string): VerbGroup {
    if v == "Identify" || v == "ListSets" then Bare
    else if v == "ListMetadataFormats" then Formats
    else if v == "ListIdentifiers" || v == "ListRecords" then Listing
    else if v == "GetRecord" then Single
    else Unruled
  }

  /** The argument rules of each verb as a predicate on the accepted
      parameters (the set name recorded for a set counts as a parameter):
      Identify and ListSets take nothing else, ListMetadataFormats at most
      an identifier, ListIdentifiers and ListRecords need a metadata
      prefix and no identifier, GetRecord exactly a prefix and an
      identifier. */
  predicate VerbRulesHold(p: Params)
    requires p.verb.Some?
  {
    match GroupOf(p.verb.value)
    case Bare => p.Size() == 1
    case Formats => p.Size() == 1 + Count(p.identifier)
    case Listing => p.metadataPrefix.Some? && p.identifier.None?
    case Single => p.metadataPrefix.Some? && p.identifier.Some? && p.Size() == 3
    case Unruled => true
  }

  // The messages of the sanity checks.
  const GetRecordArgs := "metadataPrefix and identifier parameters are required, no other parameters are valid"
  const NoOtherArgs := "No other parameters with "
  const OnlyIdentifier := "Only identifier is a valid parameter for "
  const NoIdentifier := "The identifier parameter is not allowed for "
  const PrefixMissing := "metadataPrefix is missing"

  /** The sanity checks run after the arguments have been accepted. */
  function SanityCheck(p: Params): (e: Option<OaiError>)
    ensures e.None? <==> p.verb.None? || VerbRulesHold(p)
    ensures e.Some? ==> e.value.code == "badArgument"
  {
    if p.verb.None? then None
    else
      var v := p.verb.value;
      SizeCountsVerb(p);
      match GroupOf(v)
      case Bare =>
        if p.Size() > 1 then Some(OaiError("badArgument", NoOtherArgs + v)) else None
      case Formats =>
        if (p.identifier.None? && p.Size() > 1) || (p.identifier.Some? && p.Size() > 2)
        then Some(OaiError("badArgument", OnlyIdentifier + v))
        else None
      case Listing =>
        if p.metadataPrefix.None? then Some(OaiError("badArgument", PrefixMissing))
        else if p.identifier.Some? then Some(OaiError("badArgument", NoIdentifier + v))
        else None
      case Single =>
        if p.metadataPrefix.None? || p.identifier.None? || p.Size() != 3
        then Some(OaiError("badArgument", GetRecordArgs))
        else None
      case Unruled => None
  }

  /** With a verb, the parameter count includes the verb and any
      identifier. */
  lemma SizeCountsVerb(p: Params)
    requires p.verb.Some?
    ensures p.Size() >= 1 + Count(p.identifier)
  {
  }

  /** The verb check: a known verb is recorded, anything else is badVerb. */
  function VerbCheck(args: Args): Option<OaiError> {
    var v := Arg(args, "verb");
    if v.Some? && v.value in Verbs then None else Some(BadVerb)
  }

  /** A date argument that the date parser rejects. `parse` stands for
      `dateutil.parser.parse` followed by `strftime("%Y-%m-%d")`, `None`
      where it raises. */
  function DateCheck(args: Args, name: string, parse: string -> Option<string>, err: OaiError): Option<OaiError> {
    var a := Arg(args, name);
    if a.Some? && parse(a.value).None? then Some(err) else None
  }

  /** The sets a handler publishes: the name recorded for a set spec,
      `None` for an unknown set. */
  type SetTable = string -> Option<string>

  function SetCheck(args: Args, names: SetTable): Option<OaiError> {
    var a := Arg(args, "set");
    if a.Some? && names(a.value).None? then Some(UnknownSet) else None
  }

  function PrefixCheck(args: Args, prefixes: seq<string>): Option<OaiError> {
    var a := Arg(args, "metadataPrefix");
    if a.Some? && a.value !in prefixes then Some(UnknownPrefix) else None
  }

  /** The argument checks in the order the handlers run them, each judged
      on the query string alone. */
  function Checks(args: Args, parse: string -> Option<string>, names: SetTable, prefixes: seq<string>): seq<Option<OaiError>> {
    [VerbCheck(args),
     DateCheck(args, "from", parse, FromMalformed),
     DateCheck(args, "until", parse, UntilMalformed),
     SetCheck(args, names),
     PrefixCheck(args, prefixes)]
  }

  /** The parameters a query string without errors is read into. */
  function Accepted(args: Args, parse: string -> Option<string>, names: SetTable): Params {
    var spec := Arg(args, "set");
    Params(Arg(args, "verb"),
           if HasArg(args, "from") then parse(Arg(args, "from").value) else None,
           if HasArg(args, "until") then parse(Arg(args, "until").value) else None,
           Arg(args, "identifier"),
           spec,
           if spec.Some? then names(spec.value) else None,
           Arg(args, "metadataPrefix"))
  }

  // The steps of a `validate_request` that stops at the first error:
  // each runs only while no error is set.

  function VerbStep(args: Args): Validation {
    var v := Arg(args, "verb");
    if v.Some? && v.value in Verbs then (EmptyParams.(verb := v), None) else (EmptyParams, Some(BadVerb))
  }

  function FromStep(s: Validation, args: Args, parse: string -> Option<string>): Validation {
    if HasArg(args, "from") && s.1.None? then
      match parse(Arg(args, "from").value)
      case None => (s.0, Some(FromMalformed))
      case Some(d) => (s.0.(from := Some(d)), None)
    else s
  }

  function UntilStep(s: Validation, args: Args, parse: string -> Option<string>): Validation {
    if HasArg(args, "until") && s.1.None? then
      match parse(Arg(args, "until").value)
      case None => (s.0, Some(UntilMalformed))
      case Some(d) => (s.0.(until := Some(d)), None)
    else s
  }

  function IdentifierStep(s: Validation, args: Args): Validation {
    if HasArg(args, "identifier") && s.1.None? then (s.0.(identifier := Arg(args, "identifier")), None)
    else s
  }

  function SetStep(s: Validation, args: Args, names: SetTable): Validation {
    if HasArg(args, "set") && s.1.None? then
      var spec := Arg(args, "set").value;
      match names(spec)
      case Some(name) => (s.0.(setSpec := Some(spec), setName := Some(name)), None)
      case None => (s.0, Some(UnknownSet))
    else s
  }

  function PrefixStep(s: Validation, args: Args, prefixes: seq<string>): Validation {
    if HasArg(args, "metadataPrefix") && s.1.None? then
      var prefix := Arg(args, "metadataPrefix").value;
      if prefix in prefixes then (s.0.(metadataPrefix := Some(prefix)), None) else (s.0, Some(UnknownPrefix))
    else s
  }

  /** `validate_request` of the handlers that stop at the first error. An
      unknown argument ends validation at once with no parameters;
      otherwise the reported error is the first failing argument check,
      and only when there is none do the per-verb rules decide. A request
      that passes satisfies its verb's rules and its parameters are
      exactly the arguments given. */
  function Validate(args: Args, parse: string -> Option<string>, names: SetTable, prefixes: seq<string>): (r: Validation)
    ensures HasUnknownArg(args) ==> r == (EmptyParams, Some(UnknownArgument))
    ensures !HasUnknownArg(args) && FirstSome(Checks(args, parse, names, prefixes)).Some? ==>
      r.1 == FirstSome(Checks(args, parse, names, prefixes))
    ensures !HasUnknownArg(args) && FirstSome(Checks(args, parse, names, prefixes)).None? ==>
      r.0 == Accepted(args, parse, names) && r.1 == SanityCheck(r.0)
    ensures r.1.None? ==> r.0.verb.Some? && VerbRulesHold(r.0)
    ensures r.0.verb.Some? <==> !HasUnknownArg(args) && VerbCheck(args).None?
  {
    if HasUnknownArg(args) then (EmptyParams, Some(UnknownArgument))
    else
      ArgStepsError(args, parse, names, prefixes);
      ArgStepsParams(args, parse, names, prefixes);
      var s := ArgSteps(args, parse, names, prefixes);
      if s.1.None? then (s.0, SanityCheck(s.0)) else s
  }

  /** The argument steps, in the handlers' order. */
  function ArgSteps(args: Args, parse: string -> Option<string>, names: SetTable, prefixes: seq<string>): Validation {
    var s0 := VerbStep(args);
    var s1 := FromStep(s0, args, parse);
    var s2 := UntilStep(s1, args, parse);
    var s3 := IdentifierStep(s2, args);
    var s4 := SetStep(s3, args, names);
    PrefixStep(s4, args, prefixes)
  }

  /** Because every step is skipped once an error is set, the error after
      the steps is the first failing check. */
  lemma ArgStepsError(args: Args, parse: string -> Option<string>, names: SetTable, prefixes: seq<string>)
    ensures ArgSteps(args, parse, names, prefixes).1 == FirstSome(Checks(args, parse, names, prefixes))
    ensures ArgSteps(args, parse, names, prefixes).0.verb.Some? <==> VerbCheck(args).None?
  {
    var s0 := VerbStep(args);
    var s1 := FromStep(s0, args, parse);
    var s2 := UntilStep(s1, args, parse);
    var s3 := IdentifierStep(s2, args);
    var s4 := SetStep(s3, args, names);
    var es := Checks(args, parse, names, prefixes);
    assert s0.1 == es[0];
    FromStepError(s0, args, parse);
    UntilStepError(s1, args, parse);
    assert s3.1 == s2.1 && s3.0.verb == s2.0.verb;
    SetStepError(s3, args, names);
    PrefixStepError(s4, args, prefixes);
    FirstSome5(es);
  }

  lemma FromStepError(s: Validation, args: Args, parse: string -> Option<string>)
    ensures FromStep(s, args, parse).1 == if s.1.Some? then s.1 else DateCheck(args, "from", parse, FromMalformed)
    ensures FromStep(s, args, parse).0.verb == s.0.verb
  {
  }

  lemma UntilStepError(s: Validation, args: Args, parse: string -> Option<string>)
    ensures UntilStep(s, args, parse).1 == if s.1.Some? then s.1 else DateCheck(args, "until", parse, UntilMalformed)
    ensures UntilStep(s, args, parse).0.verb == s.0.verb
  {
  }

  lemma SetStepError(s: Validation, args: Args, names: SetTable)
    ensures SetStep(s, args, names).1 == if s.1.Some? then s.1 else SetCheck(args, names)
    ensures SetStep(s, args, names).0.verb == s.0.verb
  {
  }

  lemma PrefixStepError(s: Validation, args: Args, prefixes: seq<string>)
    ensures PrefixStep(s, args, prefixes).1 == if s.1.Some? then s.1 else PrefixCheck(args, prefixes)
    ensures PrefixStep(s, args, prefixes).0.verb == s.0.verb
  {
  }

  /** Without an error the steps record exactly the given arguments. */
  lemma ArgStepsParams(args: Args, parse: string -> Option<string>, names: SetTable, prefixes: seq<string>)
    ensures ArgSteps(args, parse, names, prefixes).1.None? ==>
      ArgSteps(args, parse, names, prefixes).0 == Accepted(args, parse, names)
  {
    var a := Accepted(args, parse, names);
    var s0 := VerbStep(args);
    var s1 := FromStep(s0, args, parse);
    var s2 := UntilStep(s1, args, parse);
    var s3 := IdentifierStep(s2, args);
    var s4 := SetStep(s3, args, names);
    var s5 := PrefixStep(s4, args, prefixes);
    if s5.1.None? {
      FromStepError(s0, args, parse);
      UntilStepError(s1, args, parse);
      assert s3.1 == s2.1;
      SetStepError(s3, args, names);
      PrefixStepError(s4, args, prefixes);
      assert s0.0 == EmptyParams.(verb := a.verb);
      FromStepOk(s0, args, parse);
      UntilStepOk(s1, args, parse);
      IdentifierStepOk(s2, args);
      SetStepOk(s3, args, names);
      PrefixStepOk(s4, args, prefixes);
    }
  }

  lemma FromStepOk(s: Validation, args: Args, parse: string -> Option<string>)
    requires FromStep(s, args, parse).1.None? && s.0.from.None?
    ensures s.1.None?
    ensures FromStep(s, args, parse).0 == s.0.(from := if HasArg(args, "from") then parse(Arg(args, "from").value) else None)
  {
  }

  lemma UntilStepOk(s: Validation, args: Args, parse: string -> Option<string>)
    requires UntilStep(s, args, parse).1.None? && s.0.until.None?
    ensures s.1.None?
    ensures UntilStep(s, args, parse).0 == s.0.(until := if HasArg(args, "until") then parse(Arg(args, "until").value) else None)
  {
  }

  lemma IdentifierStepOk(s: Validation, args: Args)
    requires IdentifierStep(s, args).1.None? && s.0.identifier.None?
    ensures s.1.None?
    ensures IdentifierStep(s, args).0 == s.0.(identifier := Arg(args, "identifier"))
  {
  }

  lemma SetStepOk(s: Validation, args: Args, names: SetTable)
    requires SetStep(s, args, names).1.None? && s.0.setSpec.None? && s.0.setName.None?
    ensures s.1.None?
    ensures SetStep(s, args, names).0 == s.0.(setSpec := Arg(args, "set"),
                                              setName := if HasArg(args, "set") then names(Arg(args, "set").value) else None)
  {
  }

  lemma PrefixStepOk(s: Validation, args: Args, prefixes: seq<string>)
    requires PrefixStep(s, args, prefixes).1.None? && s.0.metadataPrefix.None?
    ensures s.1.None?
    ensures PrefixStep(s, args, prefixes).0 == s.0.(metadataPrefix := Arg(args, "metadataPrefix"))
  {
  }

  lemma FirstSome5(es: seq<Option<OaiError>>)
    requires |es| == 5
    ensures FirstSome(es) ==
      if es[0].Some? then es[0] else if es[1].Some? then es[1] else if es[2].Some? then es[2]
      else if es[3].Some? then es[3] else es[4]
  {
    assert es[1..][1..][1..][1..][1..] == [];
  }

  /** A request that fails validation is answered with 400; one that
      passes takes its status from the database step (`None` when that
      succeeded). */
  lemma ValidationFailureIs400(args: Args, parse: string -> Option<string>, names: SetTable, prefixes: seq<string>,
                               backend: Option<OaiError>)
    ensures Validate(args, parse, names, prefixes).1.Some? ==> StatusFor(Validate(args, parse, names, prefixes).1) == 400
  {
    var r := Validate(args, parse, names, prefixes);
    var es := Checks(args, parse, names, prefixes);
    if r.1.Some? {
      if HasUnknownArg(args) {
        ClientCodeIs400(r.1);
      } else if FirstSome(es).Some? {
        var i :| 0 <= i < |es| && es[i] == r.1 && forall j :: 0 <= j < i ==> es[j].None?;
        CheckIsClientError(args, parse, names, prefixes, i);
        ClientCodeIs400(r.1);
      } else {
        ClientCodeIs400(r.1);
      }
    }
  }

  /** The codes the argument checks and the sanity checks report. */
  predicate IsClientCode(code: string) {
    code == "badVerb" || code == "badArgument" || code == "cannotDisseminateFormat"
  }

  lemma ClientCodeIs400(e: Option<OaiError>)
    requires e.Some? && IsClientCode(e.value.code)
    ensures StatusFor(e) == 400
  {
  }

  lemma CheckIsClientError(args: Args, parse: string -> Option<string>, names: SetTable, prefixes: seq<string>, i: int)
    requires 0 <= i < 5 && Checks(args, parse, names, prefixes)[i].Some?
    ensures IsClientCode(Checks(args, parse, names, prefixes)[i].value.code)
  {
  }

  /** The first error in the list, if any. */
  function FirstSome(es: seq<Option<OaiError>>): (r: Option<OaiError>)
    ensures r.None? <==> forall i :: 0 <= i < |es| ==> es[i].None?
    ensures r.Some? ==> exists i :: (0 <= i < |es| && es[i] == r
                                     && forall j :: 0 <= j < i ==> es[j].None?)
    decreases |es|
  {
    if |es| == 0 then None
    else if es[0].Some? then es[0]
    else
      var r := FirstSome(es[1..]);
      assert r.Some? ==> exists i :: (1 <= i < |es| && es[i] == r
                                      && forall j :: 0 <= j < i ==> es[j].None?) by {
        if r.Some? {
          var k :| 0 <= k < |es[1..]| && es[1..][k] == r && forall j :: 0 <= j < k ==> es[1..][j].None?;
          assert es[k + 1] == r;
          forall j | 0 <= j < k + 1
            ensures es[j].None?
          {
            if j > 0 {
              assert es[j] == es[1..][j - 1];
            }
          }
        }
      }
      r
  }

  /** The last error in the list, if any. */
  function LastSome(es: seq<Option<OaiError>>): (r: Option<OaiError>)
    ensures r.None? <==> forall i :: 0 <= i < |es| ==> es[i].None?
    ensures r.Some? ==> exists i :: (0 <= i < |es| && es[i] == r
                                     && forall j :: i < j < |es| ==> es[j].None?)
    decreases |es|
  {
    if |es| == 0 then None
    else if es[|es| - 1].Some? then es[|es| - 1]
    else
      var init := es[..|es| - 1];
      var r := LastSome(init);
      assert r.Some? ==> exists i :: (0 <= i < |es| - 1 && es[i] == r
                                      && forall j :: i < j < |es| ==> es[j].None?) by {
        if r.Some? {
          var k :| 0 <= k < |init| && init[k] == r && forall j :: k < j < |init| ==> init[j].None?;
          assert es[k] == r;
          forall j | k < j < |es|
            ensures es[j].None?
          {
            if j < |es| - 1 {
              assert es[j] == init[j];
            }
          }
        }
      }
      r
  }

  // ---------------------------------------------------------------------
  // HTTP status

  /** The status `process_oai_request` answers with: 200 without an error,
      500 for internalError and databaseError, 404 for idDoesNotExist and
      noRecordsMatch, 400 for every other code. */
  function StatusFor(e: Option<OaiError>): (status: int)
    ensures e.None? <==> status == 200
    ensures status in {200, 400, 404, 500}
    ensures e.Some? && e.value.code in {"internalError", "databaseError"} ==> status == 500
    ensures e.Some? && e.value.code in {"idDoesNotExist", "noRecordsMatch"} ==> status == 404
    ensures e.Some? && e.value.code !in {"internalError", "databaseError", "idDoesNotExist", "noRecordsMatch"}
      ==> status == 400
  {
    if e.None? then 200
    else if e.value.code == "internalError" || e.value.code == "databaseError" then 500
    else if e.value.code == "idDoesNotExist" || e.value.code == "noRecordsMatch" then 404
    else 400
  }

  /** Every error the request validation can report is a client error. */
  lemma ValidationErrorsAre400(p: Params)
    ensures SanityCheck(p).Some? ==> StatusFor(SanityCheck(p)) == 400
    ensures StatusFor(Some(UnknownArgument)) == 400 && StatusFor(Some(BadVerb)) == 400
    ensures StatusFor(Some(FromMalformed)) == 400 && StatusFor(Some(UntilMalformed)) == 400
    ensures StatusFor(Some(UnknownSet)) == 400 && StatusFor(Some(UnknownPrefix)) == 400
  {
  }

  // ---------------------------------------------------------------------
  // Element helpers

  /** `create_element`: the texts of the elements created, one for
      non-empty contents and none for empty (or missing) contents. */
  function CreateElement(contents: string): (texts: seq<string>)
    ensures |contents| > 0 <==> texts == [contents]
    ensures |contents| == 0 <==> texts == []
  {
    if |contents| > 0 then [contents] else []
  }

  /** The non-empty strings of `s`, in order. */
  function NonEmpty(s: seq<string>): (r: seq<string>)
    ensures forall i :: 0 <= i < |r| ==> |r[i]| > 0
    ensures |r| <= |s|
    decreases |s|
  {
    if |s| == 0 then [] else (if |s[0]| > 0 then [s[0]] else []) + NonEmpty(s[1..])
  }

  /** `create_split_element(parent, tag, contents, delimiter=delimiter)`:
      the texts of the elements created. */
  function CreateSplitElement(contents: string, delimiter: string): seq<string>
    requires |delimiter| > 0
  {
    if |contents| == 0 then []
    else if Contains(contents, delimiter) then NonEmpty(Split(contents, delimiter))
    else [contents]
  }

  /** The elements are the non-empty pieces between delimiters, in order,
      whether or not the delimiter occurs; none of them holds the
      delimiter, and joining the pieces gives back the contents. */
  lemma CreateSplitElementPieces(contents: string, delimiter: string)
    requires |delimiter| > 0
    ensures CreateSplitElement(contents, delimiter) == NonEmpty(Split(contents, delimiter))
    ensures Join(Split(contents, delimiter), delimiter) == contents
    ensures forall i :: 0 <= i < |Split(contents, delimiter)| ==> !Contains(Split(contents, delimiter)[i], delimiter)
  {
    if !Contains(contents, delimiter) {
      SplitWithoutSep(contents, delimiter);
    }
    JoinSplit(contents, delimiter);
    SplitPiecesFree(contents, delimiter);
  }

  /** The two publisher fields joined with ", ", skipping empty ones. */
  function JoinPublishers(p1: string, p2: string): (r: string)
    ensures |p1| > 0 && |p2| > 0 ==> r == p1 + ", " + p2
    ensures |p1| > 0 && |p2| == 0 ==> r == p1
    ensures |p1| == 0 ==> r == p2
    ensures |r| == 0 <==> |p1| == 0 && |p2| == 0
  {
    var publisher := if |p1| > 0 then p1 else "";
    if |p2| > 0 then (if |publisher| > 0 then publisher + ", " else publisher) + p2
    else publisher
  }
}
