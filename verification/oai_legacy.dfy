/** The legacy OAI-PMH handler of `endpoints/oai.py`. Its `validate_request`
    runs every argument check without stopping, so a later failure
    overwrites an earlier one, and every accepted argument is recorded
    whatever the error; the per-verb rules run only when no check failed. */
module OaiLegacy {
  import opened Wrappers
  import opened PyStrings
  import opened OaiCommon
  import OaiSls

  /** The argument checks in the handler's order, the unknown-argument
      check first. */
  function LegacyChecks(args: Args, parse: string -> Option<string>): seq<Option<OaiError>> {
    [if HasUnknownArg(args) then Some(UnknownArgument) else None,
     VerbCheck(args),
     DateCheck(args, "from", parse, FromMalformed),
     DateCheck(args, "until", parse, UntilMalformed),
     SetCheck(args, OaiSls.SetName),
     PrefixCheck(args, OaiSls.Prefixes)]
  }

  // The statements of the legacy `validate_request`, each run whatever
  // the error so far; a failing check replaces the error.

  function CheckUnknown(args: Args): Validation {
    (EmptyParams, if HasUnknownArg(args) then Some(UnknownArgument) else None)
  }

  function CheckVerb(s: Validation, args: Args): Validation {
    var v := Arg(args, "verb");
    if v.Some? && v.value in Verbs then (s.0.(verb := v), s.1) else (s.0, Some(BadVerb))
  }

  function CheckFrom(s: Validation, args: Args, parse: string -> Option<string>): Validation {
    if HasArg(args, "from") then
      match parse(Arg(args, "from").value)
      case None => (s.0, Some(FromMalformed))
      case Some(d) => (s.0.(from := Some(d)), s.1)
    else s
  }

  function CheckUntil(s: Validation, args: Args, parse: string -> Option<string>): Validation {
    if HasArg(args, "until") then
      match parse(Arg(args, "until").value)
      case None => (s.0, Some(UntilMalformed))
      case Some(d) => (s.0.(until := Some(d)), s.1)
    else s
  }

  function CheckIdentifier(s: Validation, args: Args): Validation {
    if HasArg(args, "identifier") then (s.0.(identifier := Arg(args, "identifier")), s.1) else s
  }

  function CheckSet(s: Validation, args: Args): Validation {
    if HasArg(args, "set") then
      var spec := Arg(args, "set").value;
      match OaiSls.SetName(spec)
      case Some(name) => (s.0.(setSpec := Some(spec), setName := Some(name)), s.1)
      case None => (s.0, Some(UnknownSet))
    else s
  }

  function CheckPrefix(s: Validation, args: Args): Validation {
    if HasArg(args, "metadataPrefix") then
      var prefix := Arg(args, "metadataPrefix").value;
      if prefix in OaiSls.Prefixes then (s.0.(metadataPrefix := Some(prefix)), s.1) else (s.0, Some(UnknownPrefix))
    else s
  }

  function RunChecks(args: Args, parse: string -> Option<string>): Validation {
    var s0 := CheckUnknown(args);
    var s1 := CheckVerb(s0, args);
    var s2 := CheckFrom(s1, args, parse);
    var s3 := CheckUntil(s2, args, parse);
    var s4 := CheckIdentifier(s3, args);
    var s5 := CheckSet(s4, args);
    CheckPrefix(s5, args)
  }

  /** The legacy `validate_request`. The error is the last failing argument
      check, or, when none failed, the verdict of the per-verb rules. Each
      parameter is recorded exactly when its own check passes, so without
      an argument error the parameters are those the newer handler
      accepts. */
  function ValidateRequest(args: Args, parse: string -> Option<string>): (r: Validation)
    ensures LastSome(LegacyChecks(args, parse)).Some? ==> r.1 == LastSome(LegacyChecks(args, parse))
    ensures LastSome(LegacyChecks(args, parse)).None? ==> r.1 == SanityCheck(r.0)
    ensures r.0.verb.Some? <==> VerbCheck(args).None?
    ensures r.0.verb.Some? ==> r.0.verb == Arg(args, "verb")
    ensures r.0.from == Accepted(args, parse, OaiSls.SetName).from && r.0.until == Accepted(args, parse, OaiSls.SetName).until
    ensures r.0.identifier == Arg(args, "identifier")
    ensures r.0.setSpec == (if SetCheck(args, OaiSls.SetName).None? then Arg(args, "set") else None)
    ensures r.0.setName == Accepted(args, parse, OaiSls.SetName).setName
    ensures r.0.metadataPrefix == (if PrefixCheck(args, OaiSls.Prefixes).None? then Arg(args, "metadataPrefix") else None)
    ensures r.1.None? ==> r.0.verb.Some? && VerbRulesHold(r.0)
  {
    RunChecksError(args, parse);
    RunChecksParams(args, parse);
    var s := RunChecks(args, parse);
    if s.1.None? then (s.0, SanityCheck(s.0)) else s
  }

  /** Every step overwrites the error with its own failure, if any. */
  lemma RunChecksError(args: Args, parse: string -> Option<string>)
    ensures RunChecks(args, parse).1 == LastSome(LegacyChecks(args, parse))
  {
    var s0 := CheckUnknown(args);
    var s1 := CheckVerb(s0, args);
    var s2 := CheckFrom(s1, args, parse);
    var s3 := CheckUntil(s2, args, parse);
    var s4 := CheckIdentifier(s3, args);
    var s5 := CheckSet(s4, args);
    var es := LegacyChecks(args, parse);
    assert s0.1 == es[0];
    assert s1.1 == if es[1].Some? then es[1] else s0.1;
    assert s2.1 == if es[2].Some? then es[2] else s1.1;
    assert s3.1 == if es[3].Some? then es[3] else s2.1;
    assert s4.1 == s3.1;
    assert s5.1 == if es[4].Some? then es[4] else s4.1;
    assert CheckPrefix(s5, args).1 == if es[5].Some? then es[5] else s5.1;
    LastSome6(es);
  }

  lemma LastSome6(es: seq<Option<OaiError>>)
    requires |es| == 6
    ensures LastSome(es) ==
      if es[5].Some? then es[5] else if es[4].Some? then es[4] else if es[3].Some? then es[3]
      else if es[2].Some? then es[2] else if es[1].Some? then es[1] else es[0]
  {
    assert es[..5][..4][..3][..2][..1][..0] == [];
  }

  /** Each parameter is recorded by its own step alone. */
  lemma RunChecksParams(args: Args, parse: string -> Option<string>)
    ensures RunChecks(args, parse).0 ==
      Params(if VerbCheck(args).None? then Arg(args, "verb") else None,
             Accepted(args, parse, OaiSls.SetName).from,
             Accepted(args, parse, OaiSls.SetName).until,
             Arg(args, "identifier"),
             if SetCheck(args, OaiSls.SetName).None? then Arg(args, "set") else None,
             Accepted(args, parse, OaiSls.SetName).setName,
             if PrefixCheck(args, OaiSls.Prefixes).None? then Arg(args, "metadataPrefix") else None)
  {
    var s0 := CheckUnknown(args);
    var s1 := CheckVerb(s0, args);
    var s2 := CheckFrom(s1, args, parse);
    var s3 := CheckUntil(s2, args, parse);
    var s4 := CheckIdentifier(s3, args);
    var s5 := CheckSet(s4, args);
    CheckVerbParams(s0, args);
    CheckFromParams(s1, args, parse);
    CheckUntilParams(s2, args, parse);
    CheckSetParams(s4, args);
    CheckPrefixParams(s5, args);
  }

  lemma CheckVerbParams(s: Validation, args: Args)
    ensures CheckVerb(s, args).0 == s.0.(verb := if VerbCheck(args).None? then Arg(args, "verb") else s.0.verb)
  {
  }

  lemma CheckFromParams(s: Validation, args: Args, parse: string -> Option<string>)
    requires s.0.from.None?
    ensures CheckFrom(s, args, parse).0 == s.0.(from := Accepted(args, parse, OaiSls.SetName).from)
  {
  }

  lemma CheckUntilParams(s: Validation, args: Args, parse: string -> Option<string>)
    requires s.0.until.None?
    ensures CheckUntil(s, args, parse).0 == s.0.(until := Accepted(args, parse, OaiSls.SetName).until)
  {
  }

  lemma CheckSetParams(s: Validation, args: Args)
    requires s.0.setSpec.None? && s.0.setName.None?
    ensures CheckSet(s, args).0 == s.0.(setSpec := if SetCheck(args, OaiSls.SetName).None? then Arg(args, "set") else None,
                                       setName := if HasArg(args, "set") then OaiSls.SetName(Arg(args, "set").value) else None)
  {
  }

  lemma CheckPrefixParams(s: Validation, args: Args)
    requires s.0.metadataPrefix.None?
    ensures CheckPrefix(s, args).0 == s.0.(metadataPrefix := if PrefixCheck(args, OaiSls.Prefixes).None? then Arg(args, "metadataPrefix") else None)
  {
  }

  /** Both handlers accept the same requests, with the same parameters:
      failing one check is failing it in either order, and the per-verb
      rules see the same parameters. */
  lemma AgreesWithNewerHandler(args: Args, parse: string -> Option<string>)
    ensures ValidateRequest(args, parse).1.None? <==> OaiSls.ValidateRequest(args, parse).1.None?
    ensures ValidateRequest(args, parse).1.None? ==> ValidateRequest(args, parse).0 == OaiSls.ValidateRequest(args, parse).0
  {
    var cs := Checks(args, parse, OaiSls.SetName, OaiSls.Prefixes);
    SameChecksPass(args, parse);
    var a := Accepted(args, parse, OaiSls.SetName);
    if !HasUnknownArg(args) && FirstSome(cs).None? {
      assert cs[0].None? && cs[3].None? && cs[4].None?;
      assert ValidateRequest(args, parse).0 == a;
    }
  }

  /** The legacy checks all pass exactly when no argument is unknown and
      the newer handler's checks all pass. */
  lemma SameChecksPass(args: Args, parse: string -> Option<string>)
    ensures LastSome(LegacyChecks(args, parse)).None? <==>
      !HasUnknownArg(args) && FirstSome(Checks(args, parse, OaiSls.SetName, OaiSls.Prefixes)).None?
  {
    var es := LegacyChecks(args, parse);
    var cs := Checks(args, parse, OaiSls.SetName, OaiSls.Prefixes);
    assert forall i :: 1 <= i < 6 ==> es[i] == cs[i - 1];
    if LastSome(es).None? {
      assert es[0].None?;
      forall i | 0 <= i < 5
        ensures cs[i].None?
      {
        assert cs[i] == es[i + 1];
      }
    }
  }

  /** Where the newer handler reports the first failure, the legacy one
      reports the last: a bad verb together with an unknown set. */
  lemma ReportsLastFailure(parse: string -> Option<string>)
    ensures ValidateRequest([("verb", "Bogus"), ("set", "x")], parse).1 == Some(UnknownSet)
    ensures OaiSls.ValidateRequest([("verb", "Bogus"), ("set", "x")], parse).1 == Some(BadVerb)
  {
    LegacyReportsSet(parse);
    NewerReportsVerb(parse);
  }

  lemma LegacyReportsSet(parse: string -> Option<string>)
    ensures ValidateRequest([("verb", "Bogus"), ("set", "x")], parse).1 == Some(UnknownSet)
  {
    var args := [("verb", "Bogus"), ("set", "x")];
    assert args[0].0 == "verb" && args[1].0 == "set";
    assert !HasUnknownArg(args);
    assert Arg(args, "verb") == Some("Bogus");
    assert Arg(args, "set") == Some("x");
    assert !HasArg(args, "from") && !HasArg(args, "until") && !HasArg(args, "metadataPrefix");
    var es := LegacyChecks(args, parse);
    assert es[4] == Some(UnknownSet) && es[5] == None;
    LastSome6(es);
  }

  lemma NewerReportsVerb(parse: string -> Option<string>)
    ensures OaiSls.ValidateRequest([("verb", "Bogus"), ("set", "x")], parse).1 == Some(BadVerb)
  {
    var args := [("verb", "Bogus"), ("set", "x")];
    assert args[0].0 == "verb" && args[1].0 == "set";
    assert !HasUnknownArg(args);
    assert Arg(args, "verb") == Some("Bogus");
    BogusIsNoVerb();
    assert VerbCheck(args) == Some(BadVerb);
    FirstSome5(Checks(args, parse, OaiSls.SetName, OaiSls.Prefixes));
  }

  lemma BogusIsNoVerb()
    ensures "Bogus" !in Verbs
  {
    assert forall i :: 0 <= i < |Verbs| ==> Verbs[i][0] != 'B';
  }

  // ---------------------------------------------------------------------
  // Record content

  /** The dc:subject elements of a record: none for an empty subject; one
      per comma-separated piece, stripped, when the subject holds a comma;
      else the subject itself. */
  function SubjectElements(subject: string): (texts: seq<string>)
    ensures |subject| == 0 ==> texts == []
    ensures |subject| > 0 && ',' !in subject ==> texts == [subject]
    ensures ',' in subject ==> |texts| == |Split(subject, ",")| >= 2
    ensures ',' in subject ==> forall i :: 0 <= i < |texts| ==> texts[i] == Strip(Split(subject, ",")[i])
    ensures ',' in subject ==> forall i :: 0 <= i < |texts| ==>
      ',' !in texts[i] && (|texts[i]| > 0 ==> !IsSpace(texts[i][0]) && !IsSpace(texts[i][|texts[i]| - 1]))
  {
    if |subject| == 0 then []
    else if ',' in subject then
      var parts := Split(subject, ",");
      SplitPiecesFree(subject, ",");
      CommaSplitsInTwo(subject);
      var texts := seq(|parts|, i requires 0 <= i < |parts| => Strip(parts[i]));
      assert forall i :: 0 <= i < |texts| ==> texts[i] == Strip(parts[i]);
      StripPieces(parts, texts);
      texts
    else [subject]
  }

  lemma StripPieces(parts: seq<string>, texts: seq<string>)
    requires |texts| == |parts|
    requires forall i :: 0 <= i < |parts| ==> !Contains(parts[i], ",")
    requires forall i :: 0 <= i < |texts| ==> texts[i] == Strip(parts[i])
    ensures forall i :: 0 <= i < |texts| ==>
      ',' !in texts[i] && (|texts[i]| > 0 ==> !IsSpace(texts[i][0]) && !IsSpace(texts[i][|texts[i]| - 1]))
  {
    forall i | 0 <= i < |texts|
      ensures ',' !in texts[i]
      ensures |texts[i]| > 0 ==> !IsSpace(texts[i][0]) && !IsSpace(texts[i][|texts[i]| - 1])
    {
      StripShape(parts[i]);
      ContainsChar(parts[i], ',');
    }
  }

  /** Comma-free pieces (at least two), joined with commas, give one
      element per piece, each piece stripped. */
  lemma SubjectsJoined(pieces: seq<string>)
    requires |pieces| >= 2
    requires forall k :: 0 <= k < |pieces| ==> ',' !in pieces[k]
    ensures SubjectElements(Join(pieces, ",")) == seq(|pieces|, i requires 0 <= i < |pieces| => Strip(pieces[i]))
  {
    var subject := Join(pieces, ",");
    SplitJoinChar(pieces, ',');
    assert subject == pieces[0] + "," + Join(pieces[1..], ",");
    assert subject[|pieces[0]|] == ',';
  }

  /** A comma splits the text into at least two pieces. */
  lemma CommaSplitsInTwo(s: string)
    requires ',' in s
    ensures |Split(s, ",")| >= 2
  {
    ContainsChar(s, ',');
    assert FindFrom(s, ",", 0) >= 0;
  }

  /** The dc:publisher elements: the two fields joined, none when the
      joined text is empty. */
  function PublisherElements(publisher1: string, publisher2: string): (texts: seq<string>)
    ensures |texts| <= 1
    ensures |texts| == 0 <==> |publisher1| == 0 && |publisher2| == 0
    ensures |texts| == 1 ==> texts[0] == JoinPublishers(publisher1, publisher2)
  {
    var publisher := JoinPublishers(publisher1, publisher2);
    if |publisher| > 0 then [publisher] else []
  }
}
