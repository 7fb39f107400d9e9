/** The request validation of the editor endpoints in
    `sls_api/endpoints/tools/publishing.py`: each endpoint checks its URL
    ids and body, then folds the body over a fixed, ordered list of fields;
    the result is the first field's error or the dictionary of values the
    update or insert statement is built from. The database work is not
    modelled; the project id the name resolves to and the current time are
    parameters. */
module Publishing {
  import opened Wrappers
  import opened PyStrings
  import opened Json
  import opened Http
  import opened Generics

  /** How one field's value is checked: `validate_int` with the given
      bounds and its error message, or conversion with `str()`. */
  datatype Rule = IntRule(lo: Option<int>, hi: Option<int>, msg: string) | TextRule

  datatype Field = Field(name: string, rule: Rule)

  /** The values of an update or insert statement, `values` in the source. */
  type Values = map<string, Json>

  const NoData := "No data provided."
  const NoValidFields := "No valid fields provided to update."
  const InvalidProjectName := "Invalid project name."

  function FieldMsg(name: string, tail: string): string {
    "Field '" + name + "' " + tail
  }

  const PublishedRange := "Field 'published' must be an integer with value 0, 1 or 2."
  const DeletedRange := "Field 'deleted' must be an integer with value 0 or 1."

  function Published(): Field {
    Field("published", IntRule(Some(0), Some(2), PublishedRange))
  }

  function Deleted(): Field {
    Field("deleted", IntRule(Some(0), Some(1), DeletedRange))
  }

  function Positive(name: string, tail: string): Field {
    Field(name, IntRule(Some(1), None, FieldMsg(name, tail)))
  }

  function NonNegative(name: string): Field {
    Field(name, IntRule(Some(0), None, FieldMsg(name, "must be a non-negative integer.")))
  }

  /** Whether a present value passes its field. With `nullable` (the
      endpoints that write `None` straight through) a null passes every
      field but "deleted". */
  predicate Admits(f: Field, v: Json, nullable: bool) {
    (nullable && v.JNull? && f.name != "deleted")
    || (f.rule.IntRule? ==> ValidateInt(v, f.rule.lo, f.rule.hi))
  }

  /** The value stored for an admitted field: integers and nulls as given,
      anything else of a text field through `str()`. */
  function Stored(f: Field, v: Json): Json {
    if f.rule.TextRule? && !v.JNull? then JStr(Str(v)) else v
  }

  /** The object body does not hold field `f`, or holds a value `f` admits. */
  predicate Passes(body: seq<(string, Json)>, f: Field, nullable: bool) {
    HasKey(body, f.name) ==> Admits(f, Lookup(body, f.name).value, nullable)
  }

  /** The names of the fields from `i` on that the object body holds. */
  ghost function PresentFrom(body: seq<(string, Json)>, fields: seq<Field>, i: nat): set<string> {
    set j | i <= j < |fields| && HasKey(body, fields[j].name) :: fields[j].name
  }

  /** The `for field in fields` loop from field `i` on, with the values
      gathered so far: on an object body `in` is key membership and `[]`
      the key's value; any other body fails the way Python's `in` and
      `[]` do on it. */
  function Fold(body: Json, fields: seq<Field>, nullable: bool, i: nat, acc: Values): (r: Result<Values, Failure>)
    requires i <= |fields|
    ensures body.JObj? ==> r == FoldObject(body.fields, fields, nullable, i, acc)
    ensures !(body.JObj? || body.JArr? || body.JStr?) && i < |fields| ==> r == Failure(Raised(TypeError))
    ensures !body.JObj? && r.Success? ==> r.value == acc
  {
    if body.JObj? then FoldObject(body.fields, fields, nullable, i, acc)
    else FoldOther(body, fields, i, acc)
  }

  /** The loop on an array or string body, where `field in body` tests
      elements or substrings and `body[field]` raises a `TypeError`, and
      on a number, boolean or null, where `in` raises it. */
  function FoldOther(body: Json, fields: seq<Field>, i: nat, acc: Values): (r: Result<Values, Failure>)
    requires i <= |fields| && !body.JObj?
    ensures !(body.JArr? || body.JStr?) && i < |fields| ==> r == Failure(Raised(TypeError))
    ensures r.Success? ==> r.value == acc
    decreases |fields| - i
  {
    if i == |fields| then Success(acc)
    else
      match Membership(body, fields[i].name)
      case Failure(e) => Failure(Raised(e))
      case Success(false) => FoldOther(body, fields, i + 1, acc)
      case Success(true) => Failure(Raised(TypeError))
  }

  /** The loop on an object body. */
  function FoldObject(body: seq<(string, Json)>, fields: seq<Field>, nullable: bool, i: nat, acc: Values): (r: Result<Values, Failure>)
    requires i <= |fields|
    ensures r.Failure? ==> r.error.Rejected? && r.error.status == 400
    decreases |fields| - i
  {
    if i == |fields| then Success(acc)
    else
      var f := fields[i];
      if !HasKey(body, f.name) then FoldObject(body, fields, nullable, i + 1, acc)
      else
        var v := Lookup(body, f.name).value;
        if !Admits(f, v, nullable) then Failure(BadRequest(f.rule.msg))
        else FoldObject(body, fields, nullable, i + 1, acc[f.name := Stored(f, v)])
  }

  /** One step of the fold over an object body. */
  lemma FoldStep(body: seq<(string, Json)>, fields: seq<Field>, nullable: bool, i: nat, acc: Values)
    requires i < |fields|
    ensures !HasKey(body, fields[i].name) ==>
      FoldObject(body, fields, nullable, i, acc) == FoldObject(body, fields, nullable, i + 1, acc)
    ensures HasKey(body, fields[i].name) && !Admits(fields[i], Lookup(body, fields[i].name).value, nullable) ==>
      FoldObject(body, fields, nullable, i, acc) == Failure(BadRequest(fields[i].rule.msg))
    ensures HasKey(body, fields[i].name) && Admits(fields[i], Lookup(body, fields[i].name).value, nullable) ==>
      FoldObject(body, fields, nullable, i, acc) ==
      FoldObject(body, fields, nullable, i + 1, acc[fields[i].name := Stored(fields[i], Lookup(body, fields[i].name).value)])
  {
  }

  /** The fold over an object body from field `i` on, with every `Fold`
      step unfolded. */
  function Next(body: seq<(string, Json)>, f: Field, acc: Values): Values {
    if HasKey(body, f.name) then acc[f.name := Stored(f, Lookup(body, f.name).value)] else acc
  }

  /** On an object body the fold succeeds exactly when every field it
      holds passes. */
  lemma {:induction false} FoldSucceeds(body: seq<(string, Json)>, fields: seq<Field>, nullable: bool, i: nat, acc: Values)
    requires i <= |fields|
    ensures FoldObject(body, fields, nullable, i, acc).Success? <==>
      forall j :: i <= j < |fields| ==> Passes(body, fields[j], nullable)
    decreases |fields| - i
  {
    if i < |fields| {
      FoldStep(body, fields, nullable, i, acc);
      FoldSucceeds(body, fields, nullable, i + 1, Next(body, fields[i], acc));
      FoldSucceeds(body, fields, nullable, i + 1, acc);
    }
  }

  /** A failing fold over an object body reports the message of the first
      field that does not pass. */
  lemma {:induction false} FoldFirstError(body: seq<(string, Json)>, fields: seq<Field>, nullable: bool, i: nat, acc: Values)
    requires i <= |fields|
    requires FoldObject(body, fields, nullable, i, acc).Failure?
    ensures exists j :: (i <= j < |fields| && !Passes(body, fields[j], nullable)
                         && fields[j].rule.IntRule?
                         && FoldObject(body, fields, nullable, i, acc).error == BadRequest(fields[j].rule.msg)
                         && forall j' :: i <= j' < j ==> Passes(body, fields[j'], nullable))
    decreases |fields| - i
  {
    FoldStep(body, fields, nullable, i, acc);
    var f := fields[i];
    if !Passes(body, f, nullable) {
      assert !Passes(body, fields[i], nullable);
    } else {
      var acc' := Next(body, f, acc);
      FoldFirstError(body, fields, nullable, i + 1, acc');
      var j :| i + 1 <= j < |fields| && !Passes(body, fields[j], nullable)
        && fields[j].rule.IntRule?
        && FoldObject(body, fields, nullable, i + 1, acc').error == BadRequest(fields[j].rule.msg)
        && forall j' :: i + 1 <= j' < j ==> Passes(body, fields[j'], nullable);
      assert forall j' :: i <= j' < j ==> Passes(body, fields[j'], nullable);
    }
  }

  /** On success the values hold the earlier values and one entry per
      field the body holds. */
  lemma {:induction false} FoldKeys(body: seq<(string, Json)>, fields: seq<Field>, nullable: bool, i: nat, acc: Values)
    requires i <= |fields|
    requires FoldObject(body, fields, nullable, i, acc).Success?
    ensures FoldObject(body, fields, nullable, i, acc).value.Keys == acc.Keys + PresentFrom(body, fields, i)
    decreases |fields| - i
  {
    if i < |fields| {
      var f := fields[i];
      FoldStep(body, fields, nullable, i, acc);
      FoldKeys(body, fields, nullable, i + 1, Next(body, f, acc));
      assert PresentFrom(body, fields, i) ==
        PresentFrom(body, fields, i + 1) + (if HasKey(body, f.name) then {f.name} else {});
    }
  }

  /** On success every earlier value under a name not listed from `i` on
      is kept. */
  lemma {:induction false} FoldKeeps(body: seq<(string, Json)>, fields: seq<Field>, nullable: bool, i: nat, acc: Values)
    requires i <= |fields|
    requires FoldObject(body, fields, nullable, i, acc).Success?
    ensures forall k :: k in acc && (forall j :: i <= j < |fields| ==> fields[j].name != k) ==>
      k in FoldObject(body, fields, nullable, i, acc).value && FoldObject(body, fields, nullable, i, acc).value[k] == acc[k]
    decreases |fields| - i
  {
    if i < |fields| {
      var f := fields[i];
      FoldStep(body, fields, nullable, i, acc);
      FoldKeeps(body, fields, nullable, i + 1, Next(body, f, acc));
    }
  }

  /** On success each field the body holds and that is not listed again
      later takes its stored value. */
  lemma {:induction false} FoldStores(body: seq<(string, Json)>, fields: seq<Field>, nullable: bool, i: nat, acc: Values)
    requires i <= |fields|
    requires FoldObject(body, fields, nullable, i, acc).Success?
    ensures forall j :: i <= j < |fields| && HasKey(body, fields[j].name)
                        && (forall j' :: j < j' < |fields| ==> fields[j'].name != fields[j].name) ==>
      fields[j].name in FoldObject(body, fields, nullable, i, acc).value
      && FoldObject(body, fields, nullable, i, acc).value[fields[j].name] == Stored(fields[j], Lookup(body, fields[j].name).value)
    decreases |fields| - i
  {
    if i < |fields| {
      var f := fields[i];
      var acc' := Next(body, f, acc);
      FoldStep(body, fields, nullable, i, acc);
      assert FoldObject(body, fields, nullable, i, acc) == FoldObject(body, fields, nullable, i + 1, acc');
      FoldStores(body, fields, nullable, i + 1, acc');
      var r := FoldObject(body, fields, nullable, i + 1, acc').value;
      forall j | i <= j < |fields| && HasKey(body, fields[j].name)
                 && (forall j' :: j < j' < |fields| ==> fields[j'].name != fields[j].name)
        ensures fields[j].name in r && r[fields[j].name] == Stored(fields[j], Lookup(body, fields[j].name).value)
      {
        if j == i {
          FoldKeeps(body, fields, nullable, i + 1, acc');
          assert acc'[f.name] == Stored(f, Lookup(body, f.name).value);
        }
      }
    }
  }

  /** No two fields of the list share a name, and none is named
      date_modified. */
  predicate Editable(fields: seq<Field>) {
    forall j :: 0 <= j < |fields| ==>
      fields[j].name != "date_modified" && forall j' :: j < j' < |fields| ==> fields[j'].name != fields[j].name
  }

  /** On an editable list, each value a successful fold gathers conforms
      to its field. */
  lemma FoldConforms(body: seq<(string, Json)>, fields: seq<Field>, nullable: bool, j: nat)
    requires FoldObject(body, fields, nullable, 0, map[]).Success?
    requires Editable(fields) && j < |fields|
    requires fields[j].name in FoldObject(body, fields, nullable, 0, map[]).value
    ensures Conforms(fields[j], FoldObject(body, fields, nullable, 0, map[]).value[fields[j].name], nullable)
  {
    var f := fields[j];
    FoldKeys(body, fields, nullable, 0, map[]);
    assert f.name in PresentFrom(body, fields, 0);
    var j2 :| 0 <= j2 < |fields| && HasKey(body, fields[j2].name) && fields[j2].name == f.name;
    assert HasKey(body, f.name);
    FoldSucceeds(body, fields, nullable, 0, map[]);
    assert Passes(body, f, nullable);
    FoldStores(body, fields, nullable, 0, map[]);
    StoredConforms(f, Lookup(body, f.name).value, nullable);
  }

  // ---------------------------------------------------------------------
  // Endpoints

  /** `request_data.get(k)`: the last binding of `k` in an object, an
      `AttributeError` on anything else. */
  function Get(body: Json, k: string): (r: Result<Option<Json>, PyError>)
    ensures body.JObj? ==> r == Success(Lookup(body.fields, k))
    ensures !body.JObj? ==> r == Failure(AttributeError)
  {
    if body.JObj? then Success(Lookup(body.fields, k)) else Failure(AttributeError)
  }

  /** A URL id passes when `int()` parses it to a positive integer
      (`not id or id < 1` rejects 0 and negatives alike). */
  predicate IdValid(id: string) {
    ParseInt(id).Some? && ParseInt(id).value >= 1
  }

  /** A project name resolves when its id is found and is not 0. */
  predicate ProjectKnown(projectId: Option<int>) {
    projectId.Some? && projectId.value != 0
  }

  const NameRequired := "Project name required."

  /** `add_new_project`: the body must be truthy and hold a non-null name,
      which is validated after `str()`; published defaults to 1 and must
      otherwise be an integer from 0 to 2. */
  function AddNewProject(body: Json): (r: Result<Values, Failure>)
    ensures !Truthy(body) ==> r == Failure(BadRequest(NoData))
    ensures Truthy(body) && !body.JObj? ==> r == Failure(Raised(AttributeError))
    ensures body.JObj? && Truthy(body) && Lookup(body.fields, "name").GetOr(JNull).JNull? ==>
      r == Failure(BadRequest(NameRequired))
    ensures r.Success? <==>
      body.JObj? && Truthy(body) && Lookup(body.fields, "name").GetOr(JNull) != JNull
      && ValidateProjectName(Str(Lookup(body.fields, "name").value)).None?
      && (Lookup(body.fields, "published").GetOr(JNull) == JNull
          || ValidateInt(Lookup(body.fields, "published").value, Some(0), Some(2)))
    ensures r.Success? ==> r.value.Keys == {"name", "published"}
    ensures r.Success? ==> r.value["name"] == JStr(Str(Lookup(body.fields, "name").value))
    ensures r.Success? && Lookup(body.fields, "published").GetOr(JNull) == JNull ==> r.value["published"] == JInt(1)
    ensures r.Success? && Lookup(body.fields, "published").GetOr(JNull) != JNull ==>
      r.value["published"] == Lookup(body.fields, "published").value
  {
    if !Truthy(body) then Failure(BadRequest(NoData))
    else
      match Get(body, "name")
      case Failure(e) => Failure(Raised(e))
      case Success(nameValue) =>
        if nameValue.GetOr(JNull) == JNull then Failure(BadRequest(NameRequired))
        else
          var name := Str(nameValue.value);
          match ValidateProjectName(name)
          case Some(msg) => Failure(BadRequest(msg))
          case None =>
            var published := Lookup(body.fields, "published");
            if published.GetOr(JNull) != JNull then
              if !ValidateInt(published.value, Some(0), Some(2)) then Failure(BadRequest(PublishedRange))
              else Success(map["name" := JStr(name), "published" := published.value])
            else Success(map["name" := JStr(name), "published" := JInt(1)])
  }

  const InvalidProjectId := "Invalid project_id, must be a positive integer."
  const NoFieldsInData := "POST data contains no valid fields."

  function ProjectFields(): seq<Field> {
    [Deleted(), Published()]
  }

  /** `edit_project`: a positive project id, a truthy body holding deleted
      or published, each a valid integer; the values gain date_modified. */
  function EditProject(projectId: string, body: Json, now: Json): (r: Result<Values, Failure>)
    ensures !IdValid(projectId) ==> r == Failure(BadRequest(InvalidProjectId))
    ensures IdValid(projectId) && !Truthy(body) ==> r == Failure(BadRequest(NoData))
    ensures IdValid(projectId) && body.JObj? && Truthy(body)
            && !HasKey(body.fields, "deleted") && !HasKey(body.fields, "published") ==>
      r == Failure(BadRequest(NoFieldsInData))
    ensures body.JObj? ==> (r.Success? <==>
      IdValid(projectId) && Truthy(body)
      && (HasKey(body.fields, "deleted") || HasKey(body.fields, "published"))
      && (forall j :: 0 <= j < |ProjectFields()| ==> Passes(body.fields, ProjectFields()[j], false)))
    ensures r.Success? ==> "date_modified" in r.value && r.value["date_modified"] == now
    ensures r.Success? && body.JObj? ==>
      r.value.Keys == {"date_modified"} + PresentFrom(body.fields, ProjectFields(), 0)
  {
    if !IdValid(projectId) then Failure(BadRequest(InvalidProjectId))
    else if !Truthy(body) then Failure(BadRequest(NoData))
    else
      match AnyMember(body, ProjectFields())
      case Failure(e) => Failure(Raised(e))
      case Success(false) => Failure(BadRequest(NoFieldsInData))
      case Success(true) =>
        var folded := Fold(body, ProjectFields(), false, 0, map[]);
        if body.JObj? then ProjectFold(body.fields); Dated(folded, now)
        else Dated(folded, now)
  }

  /** The fold of `edit_project` over an object body: when it succeeds,
      and which keys it gathers. */
  lemma ProjectFold(body: seq<(string, Json)>)
    ensures FoldObject(body, ProjectFields(), false, 0, map[]).Success? <==>
      forall j :: 0 <= j < |ProjectFields()| ==> Passes(body, ProjectFields()[j], false)
    ensures FoldObject(body, ProjectFields(), false, 0, map[]).Success? ==>
      FoldObject(body, ProjectFields(), false, 0, map[]).value.Keys == PresentFrom(body, ProjectFields(), 0)
    ensures (exists j :: 0 <= j < |ProjectFields()| && HasKey(body, ProjectFields()[j].name)) <==>
      HasKey(body, "deleted") || HasKey(body, "published")
  {
    var fields := ProjectFields();
    FoldSucceeds(body, fields, false, 0, map[]);
    if FoldObject(body, fields, false, 0, map[]).Success? {
      FoldKeys(body, fields, false, 0, map[]);
    }
    assert fields[0].name == "deleted" && fields[1].name == "published";
  }

  /** `not all(field not in request_data for field in fields)`, raising
      where `in` does. */
  function AnyMember(body: Json, fields: seq<Field>): (r: Result<bool, PyError>)
    ensures body.JObj? ==> r == Success(exists j :: 0 <= j < |fields| && HasKey(body.fields, fields[j].name))
    decreases |fields|
  {
    if |fields| == 0 then Success(false)
    else
      match Membership(body, fields[0].name)
      case Failure(e) => Failure(e)
      case Success(true) => Success(true)
      case Success(false) =>
        var rest := AnyMember(body, fields[1..]);
        assert body.JObj? ==> rest.Success? && (rest.value <==> exists j :: 1 <= j < |fields| && HasKey(body.fields, fields[j].name)) by {
          if body.JObj? && rest.value {
            var j :| 0 <= j < |fields[1..]| && HasKey(body.fields, fields[1..][j].name);
            assert HasKey(body.fields, fields[j + 1].name);
          }
        }
        rest
  }

  /** A successful fold's values with date_modified set. */
  function Dated(folded: Result<Values, Failure>, now: Json): (r: Result<Values, Failure>)
    ensures folded.Failure? ==> r == folded
    ensures folded.Success? ==> r.Success? && r.value == folded.value["date_modified" := now]
  {
    match folded
    case Failure(e) => Failure(e)
    case Success(values) => Success(values["date_modified" := now])
  }

  /** What a stored value is: for an integer field an integer within its
      bounds (or, where nulls pass, a null), for a text field a string or
      a null. */
  predicate Conforms(f: Field, v: Json, nullable: bool) {
    match f.rule
    case IntRule(lo, hi, _) =>
      (nullable && f.name != "deleted" && v.JNull?)
      || (IsInstanceInt(v) && (lo.Some? ==> lo.value <= IntValue(v)) && (hi.Some? ==> IntValue(v) <= hi.value))
    case TextRule => v.JNull? || v.JStr?
  }

  /** An admitted value is stored in a form that conforms to its field. */
  lemma StoredConforms(f: Field, v: Json, nullable: bool)
    requires Admits(f, v, nullable)
    ensures Conforms(f, Stored(f, v), nullable)
  {
  }

  /** The shared shape of `edit_publication_collection`, `edit_publication`,
      `edit_comment`, `edit_manuscript` and `edit_version`: the project
      must resolve, the URL id be positive, the body truthy; then the fold,
      which must gather at least one value; date_modified is added. */
  function EditRecord(projectId: Option<int>, id: string, idMsg: string, body: Json,
                      fields: seq<Field>, nullable: bool, now: Json): (r: Result<Values, Failure>)
    ensures !ProjectKnown(projectId) ==> r == Failure(BadRequest(InvalidProjectName))
    ensures ProjectKnown(projectId) && !IdValid(id) ==> r == Failure(BadRequest(idMsg))
    ensures ProjectKnown(projectId) && IdValid(id) && !Truthy(body) ==> r == Failure(BadRequest(NoData))
    ensures r.Success? ==> "date_modified" in r.value && r.value["date_modified"] == now
  {
    if !ProjectKnown(projectId) then Failure(BadRequest(InvalidProjectName))
    else if !IdValid(id) then Failure(BadRequest(idMsg))
    else if !Truthy(body) then Failure(BadRequest(NoData))
    else
      match Fold(body, fields, nullable, 0, map[])
      case Failure(e) => Failure(e)
      case Success(values) =>
        if values == map[] then Failure(BadRequest(NoValidFields))
        else Success(values["date_modified" := now])
  }

  /** A fold over an object body gathers nothing exactly when the body
      holds none of the fields. */
  lemma FoldEmpty(body: seq<(string, Json)>, fields: seq<Field>, nullable: bool)
    requires FoldObject(body, fields, nullable, 0, map[]).Success?
    ensures FoldObject(body, fields, nullable, 0, map[]).value == map[] <==> PresentFrom(body, fields, 0) == {}
  {
    var values := FoldObject(body, fields, nullable, 0, map[]).value;
    FoldKeys(body, fields, nullable, 0, map[]);
    assert values == map[] <==> values.Keys == {};
  }

  /** On an object body an edit succeeds exactly when the ids and body
      pass, every listed field the body holds passes, and there is at
      least one. */
  lemma EditRecordAccepts(projectId: Option<int>, id: string, idMsg: string, body: seq<(string, Json)>,
                          fields: seq<Field>, nullable: bool, now: Json)
    ensures EditRecord(projectId, id, idMsg, JObj(body), fields, nullable, now).Success? <==>
      ProjectKnown(projectId) && IdValid(id) && |body| > 0
      && (forall j :: 0 <= j < |fields| ==> Passes(body, fields[j], nullable))
      && PresentFrom(body, fields, 0) != {}
  {
    var folded := FoldObject(body, fields, nullable, 0, map[]);
    assert Truthy(JObj(body)) <==> |body| > 0;
    assert Fold(JObj(body), fields, nullable, 0, map[]) == folded;
    FoldSucceeds(body, fields, nullable, 0, map[]);
    if folded.Success? {
      FoldEmpty(body, fields, nullable);
    }
  }

  /** When every field the body holds passes but there is none, the
      answer is "No valid fields provided to update.". */
  lemma EditRecordNothingToUpdate(projectId: Option<int>, id: string, idMsg: string, body: seq<(string, Json)>,
                                  fields: seq<Field>, nullable: bool, now: Json)
    requires ProjectKnown(projectId) && IdValid(id) && |body| > 0
    requires PresentFrom(body, fields, 0) == {}
    ensures EditRecord(projectId, id, idMsg, JObj(body), fields, nullable, now) == Failure(BadRequest(NoValidFields))
  {
    assert forall j :: 0 <= j < |fields| ==> Passes(body, fields[j], nullable) by {
      forall j | 0 <= j < |fields|
        ensures Passes(body, fields[j], nullable)
      {
        assert fields[j].name !in PresentFrom(body, fields, 0);
      }
    }
    FoldSucceeds(body, fields, nullable, 0, map[]);
    FoldEmpty(body, fields, nullable);
    assert Truthy(JObj(body));
    assert Fold(JObj(body), fields, nullable, 0, map[]) == FoldObject(body, fields, nullable, 0, map[]);
  }

  /** The values of a successful edit are date_modified and the listed
      fields the body holds; other keys of the body are ignored. */
  lemma EditRecordKeys(projectId: Option<int>, id: string, idMsg: string, body: seq<(string, Json)>,
                       fields: seq<Field>, nullable: bool, now: Json)
    requires EditRecord(projectId, id, idMsg, JObj(body), fields, nullable, now).Success?
    ensures EditRecord(projectId, id, idMsg, JObj(body), fields, nullable, now).value.Keys ==
      {"date_modified"} + PresentFrom(body, fields, 0)
  {
    FoldKeys(body, fields, nullable, 0, map[]);
  }

  /** Each listed field the body holds, when no later field shares its
      name, is stored in a form conforming to its rule. */
  lemma EditRecordConforms(projectId: Option<int>, id: string, idMsg: string, body: seq<(string, Json)>,
                           fields: seq<Field>, nullable: bool, now: Json)
    requires EditRecord(projectId, id, idMsg, JObj(body), fields, nullable, now).Success?
    ensures forall j :: 0 <= j < |fields| && HasKey(body, fields[j].name) && fields[j].name != "date_modified"
                        && (forall j' :: j < j' < |fields| ==> fields[j'].name != fields[j].name) ==>
      fields[j].name in EditRecord(projectId, id, idMsg, JObj(body), fields, nullable, now).value
      && Conforms(fields[j], EditRecord(projectId, id, idMsg, JObj(body), fields, nullable, now).value[fields[j].name], nullable)
  {
    var values := FoldObject(body, fields, nullable, 0, map[]).value;
    FoldSucceeds(body, fields, nullable, 0, map[]);
    FoldStores(body, fields, nullable, 0, map[]);
    forall j | 0 <= j < |fields| && HasKey(body, fields[j].name)
               && (forall j' :: j < j' < |fields| ==> fields[j'].name != fields[j].name)
      ensures fields[j].name in values && Conforms(fields[j], values[fields[j].name], nullable)
    {
      assert Passes(body, fields[j], nullable);
      StoredConforms(fields[j], Lookup(body, fields[j].name).value, nullable);
    }
  }

  // ---------------------------------------------------------------------
  // The five edit endpoints

  function Text(name: string): Field {
    Field(name, TextRule)
  }

  function CollectionFields(): seq<Field> {
    [Text("name"), Published(), Deleted()]
  }

  function PublicationFields(): seq<Field> {
    [Positive("publication_collection_id", "must be a positive integer."),
     Positive("publication_comment_id", "must be a positive integer."),
     Text("name"), Text("original_filename"), Text("original_publication_date"),
     Published(), Text("language"), Text("genre"), Deleted()]
  }

  function CommentFields(): seq<Field> {
    [Deleted(), Published(), Text("original_filename")]
  }

  function ManuscriptFields(): seq<Field> {
    [Positive("publication_id", "must be a positive integer (or null)."),
     Deleted(), Published(), Text("original_filename"), Text("name"),
     NonNegative("section_id"), NonNegative("sort_order"), Text("language")]
  }

  function VersionFields(): seq<Field> {
    [Positive("publication_id", "must be a positive integer (or null)."),
     Deleted(), Published(), Text("original_filename"), Text("name"),
     NonNegative("type"), NonNegative("section_id"), NonNegative("sort_order")]
  }

  lemma CollectionFieldsEditable()
    ensures Editable(CollectionFields())
  {
  }

  lemma PublicationFieldsEditable()
    ensures Editable(PublicationFields())
  {
  }

  lemma CommentFieldsEditable()
    ensures Editable(CommentFields())
  {
  }

  lemma ManuscriptFieldsEditable()
    ensures Editable(ManuscriptFields())
  {
  }

  lemma VersionFieldsEditable()
    ensures Editable(VersionFields())
  {
  }

  /** An integer the way `validate_int` sees it, within two inclusive
      bounds. */
  predicate IntIn(v: Json, lo: int, hi: int) {
    IsInstanceInt(v) && lo <= IntValue(v) <= hi
  }

  /** An integer the way `validate_int` sees it, at least `lo`. */
  predicate IntAtLeast(v: Json, lo: int) {
    IsInstanceInt(v) && lo <= IntValue(v)
  }

  /** A stored key of an edit on an object body is date_modified or a
      listed name the body holds. */
  lemma EditRecordKey(projectId: Option<int>, id: string, idMsg: string, body: seq<(string, Json)>,
                      fields: seq<Field>, nullable: bool, now: Json, k: string)
    requires EditRecord(projectId, id, idMsg, JObj(body), fields, nullable, now).Success?
    requires k in EditRecord(projectId, id, idMsg, JObj(body), fields, nullable, now).value
    ensures k == "date_modified" || (HasKey(body, k) && exists j :: 0 <= j < |fields| && fields[j].name == k)
  {
    EditRecordKeys(projectId, id, idMsg, body, fields, nullable, now);
  }

  /** A field of the body that a successful edit lists and lists once is
      stored, as the value it admitted after `str()` where that applies. */
  lemma EditRecordStores(projectId: Option<int>, id: string, idMsg: string, body: seq<(string, Json)>,
                         fields: seq<Field>, nullable: bool, now: Json, j: nat)
    requires EditRecord(projectId, id, idMsg, JObj(body), fields, nullable, now).Success?
    requires j < |fields| && fields[j].name != "date_modified" && HasKey(body, fields[j].name)
    requires forall j' :: j < j' < |fields| ==> fields[j'].name != fields[j].name
    ensures Admits(fields[j], Lookup(body, fields[j].name).value, nullable)
    ensures fields[j].name in EditRecord(projectId, id, idMsg, JObj(body), fields, nullable, now).value
    ensures EditRecord(projectId, id, idMsg, JObj(body), fields, nullable, now).value[fields[j].name]
            == Stored(fields[j], Lookup(body, fields[j].name).value)
  {
    var folded := FoldObject(body, fields, nullable, 0, map[]);
    assert Fold(JObj(body), fields, nullable, 0, map[]) == folded;
    FoldSucceeds(body, fields, nullable, 0, map[]);
    assert Passes(body, fields[j], nullable);
    FoldStores(body, fields, nullable, 0, map[]);
    assert folded.value[fields[j].name] == Stored(fields[j], Lookup(body, fields[j].name).value);
  }

  /** The value a successful edit stores for listed field `j` conforms to
      it, when the list is editable. */
  lemma EditRecordField(projectId: Option<int>, id: string, idMsg: string, body: seq<(string, Json)>,
                        fields: seq<Field>, nullable: bool, now: Json, j: nat)
    requires EditRecord(projectId, id, idMsg, JObj(body), fields, nullable, now).Success?
    requires Editable(fields) && j < |fields|
    requires fields[j].name in EditRecord(projectId, id, idMsg, JObj(body), fields, nullable, now).value
    ensures Conforms(fields[j], EditRecord(projectId, id, idMsg, JObj(body), fields, nullable, now).value[fields[j].name], nullable)
  {
    var folded := FoldObject(body, fields, nullable, 0, map[]);
    assert Fold(JObj(body), fields, nullable, 0, map[]) == folded;
    assert EditRecord(projectId, id, idMsg, JObj(body), fields, nullable, now).value == folded.value["date_modified" := now];
    FoldConforms(body, fields, nullable, j);
  }

  /** `edit_publication_collection`: name, published, deleted; a null
      name is stored as null, a null flag is refused. */
  function EditPublicationCollection(projectId: Option<int>, collectionId: string, body: Json, now: Json): (r: Result<Values, Failure>)
    ensures ProjectKnown(projectId) && !IdValid(collectionId) ==> r == Failure(BadRequest("Invalid collection_id."))
    ensures r.Success? ==> "date_modified" in r.value && r.value["date_modified"] == now
  {
    EditRecord(projectId, collectionId, "Invalid collection_id.", body, CollectionFields(), false, now)
  }

  lemma CollectionValues(projectId: Option<int>, collectionId: string, body: seq<(string, Json)>, now: Json)
    requires EditPublicationCollection(projectId, collectionId, JObj(body), now).Success?
    ensures var v := EditPublicationCollection(projectId, collectionId, JObj(body), now).value;
      ("name" in v ==> v["name"].JNull? || v["name"].JStr?)
      && ("published" in v ==> IntIn(v["published"], 0, 2))
      && ("deleted" in v ==> IntIn(v["deleted"], 0, 1))
  {
    var v := EditPublicationCollection(projectId, collectionId, JObj(body), now).value;
    var fields := CollectionFields();
    CollectionFieldsEditable();
    var idMsg := "Invalid collection_id.";
    if "name" in v { EditRecordField(projectId, collectionId, idMsg, body, fields, false, now, 0); }
    if "published" in v { EditRecordField(projectId, collectionId, idMsg, body, fields, false, now, 1); }
    if "deleted" in v { EditRecordField(projectId, collectionId, idMsg, body, fields, false, now, 2); }
  }

  /** `edit_publication`, over its nine fields with nulls passed through. */
  function EditPublication(projectId: Option<int>, publicationId: string, body: Json, now: Json): (r: Result<Values, Failure>)
    ensures ProjectKnown(projectId) && !IdValid(publicationId) ==> r == Failure(BadRequest("Invalid publication_id."))
    ensures r.Success? ==> "date_modified" in r.value && r.value["date_modified"] == now
  {
    EditRecord(projectId, publicationId, "Invalid publication_id.", body, PublicationFields(), true, now)
  }

  /** In `edit_publication` the two id fields are stored as null or as
      positive integers. */
  lemma PublicationIds(projectId: Option<int>, publicationId: string, body: seq<(string, Json)>, now: Json)
    requires EditPublication(projectId, publicationId, JObj(body), now).Success?
    ensures var v := EditPublication(projectId, publicationId, JObj(body), now).value;
      ("publication_collection_id" in v ==> v["publication_collection_id"].JNull? || IntAtLeast(v["publication_collection_id"], 1))
      && ("publication_comment_id" in v ==> v["publication_comment_id"].JNull? || IntAtLeast(v["publication_comment_id"], 1))
  {
    var v := EditPublication(projectId, publicationId, JObj(body), now).value;
    var fields := PublicationFields();
    PublicationFieldsEditable();
    var idMsg := "Invalid publication_id.";
    if "publication_collection_id" in v {
      EditRecordField(projectId, publicationId, idMsg, body, fields, true, now, 0);
    }
    if "publication_comment_id" in v {
      EditRecordField(projectId, publicationId, idMsg, body, fields, true, now, 1);
    }
  }

  /** In `edit_publication` name and genre are stored as null or
      strings. */
  lemma PublicationTexts(projectId: Option<int>, publicationId: string, body: seq<(string, Json)>, now: Json)
    requires EditPublication(projectId, publicationId, JObj(body), now).Success?
    ensures var v := EditPublication(projectId, publicationId, JObj(body), now).value;
      ("name" in v ==> v["name"].JNull? || v["name"].JStr?)
      && ("genre" in v ==> v["genre"].JNull? || v["genre"].JStr?)
  {
    var v := EditPublication(projectId, publicationId, JObj(body), now).value;
    var fields := PublicationFields();
    PublicationFieldsEditable();
    var idMsg := "Invalid publication_id.";
    if "name" in v { EditRecordField(projectId, publicationId, idMsg, body, fields, true, now, 2); }
    if "genre" in v { EditRecordField(projectId, publicationId, idMsg, body, fields, true, now, 7); }
  }

  /** In `edit_publication` published is stored as null or 0 to 2, and
      deleted, which may not be null, as 0 or 1. */
  lemma PublicationFlags(projectId: Option<int>, publicationId: string, body: seq<(string, Json)>, now: Json)
    requires EditPublication(projectId, publicationId, JObj(body), now).Success?
    ensures var v := EditPublication(projectId, publicationId, JObj(body), now).value;
      ("published" in v ==> v["published"].JNull? || IntIn(v["published"], 0, 2))
      && ("deleted" in v ==> IntIn(v["deleted"], 0, 1))
  {
    var v := EditPublication(projectId, publicationId, JObj(body), now).value;
    var fields := PublicationFields();
    PublicationFieldsEditable();
    var idMsg := "Invalid publication_id.";
    if "published" in v { EditRecordField(projectId, publicationId, idMsg, body, fields, true, now, 5); }
    if "deleted" in v { EditRecordField(projectId, publicationId, idMsg, body, fields, true, now, 8); }
  }

  /** Keys of the body outside the nine fields are not stored. */
  lemma PublicationKeys(projectId: Option<int>, publicationId: string, body: seq<(string, Json)>, now: Json, k: string)
    requires EditPublication(projectId, publicationId, JObj(body), now).Success?
    requires k in EditPublication(projectId, publicationId, JObj(body), now).value
    ensures k in {"date_modified", "publication_collection_id", "publication_comment_id", "name", "original_filename",
                  "original_publication_date", "published", "language", "genre", "deleted"}
  {
    var fields := PublicationFields();
    EditRecordKey(projectId, publicationId, "Invalid publication_id.", body, fields, true, now, k);
    if k != "date_modified" {
      var j :| 0 <= j < |fields| && fields[j].name == k;
      if j < 3 {
        assert j == 0 || j == 1 || j == 2;
      } else if j < 6 {
        assert j == 3 || j == 4 || j == 5;
      } else {
        assert j == 6 || j == 7 || j == 8;
      }
    }
  }

  /** A null deleted flag is refused, whatever else the body holds. */
  lemma PublicationDeletedNotNull(projectId: Option<int>, publicationId: string, body: seq<(string, Json)>, now: Json)
    requires Lookup(body, "deleted") == Some(JNull)
    ensures EditPublication(projectId, publicationId, JObj(body), now).Failure?
  {
    var fields := PublicationFields();
    assert !Passes(body, fields[8], true);
    EditRecordAccepts(projectId, publicationId, "Invalid publication_id.", body, fields, true, now);
  }

  /** In `edit_publication` a null value of any field but deleted is
      stored as null. */
  lemma PublicationNullStored(projectId: Option<int>, publicationId: string, body: seq<(string, Json)>, now: Json, j: nat)
    requires EditPublication(projectId, publicationId, JObj(body), now).Success?
    requires j < 8 && Lookup(body, PublicationFields()[j].name) == Some(JNull)
    ensures PublicationFields()[j].name in EditPublication(projectId, publicationId, JObj(body), now).value
    ensures EditPublication(projectId, publicationId, JObj(body), now).value[PublicationFields()[j].name] == JNull
  {
    var fields := PublicationFields();
    PublicationFieldsEditable();
    EditRecordStores(projectId, publicationId, "Invalid publication_id.", body, fields, true, now, j);
  }

  /** A body with none of the fields has nothing to update. */
  lemma UnlistedFieldsIgnored(now: Json)
    ensures EditPublication(Some(1), "5", JObj([("title", JStr("x"))]), now) == Failure(BadRequest(NoValidFields))
  {
    ParseIntDigits("5");
    var body := [("title", JStr("x"))];
    var fields := PublicationFields();
    assert forall j :: 0 <= j < |fields| ==> !HasKey(body, fields[j].name);
    assert PresentFrom(body, fields, 0) == {};
    EditRecordNothingToUpdate(Some(1), "5", "Invalid publication_id.", body, fields, true, now);
  }

  /** `edit_comment`: deleted, published and original_filename, nulls
      refused for the flags and kept for the file name. */
  function EditComment(projectId: Option<int>, publicationId: string, body: Json, now: Json): (r: Result<Values, Failure>)
    ensures ProjectKnown(projectId) && !IdValid(publicationId) ==> r == Failure(BadRequest("Invalid publication_id."))
    ensures r.Success? ==> "date_modified" in r.value && r.value["date_modified"] == now
  {
    EditRecord(projectId, publicationId, "Invalid publication_id.", body, CommentFields(), false, now)
  }

  lemma CommentValues(projectId: Option<int>, publicationId: string, body: seq<(string, Json)>, now: Json)
    requires EditComment(projectId, publicationId, JObj(body), now).Success?
    ensures var v := EditComment(projectId, publicationId, JObj(body), now).value;
      ("deleted" in v ==> IntIn(v["deleted"], 0, 1))
      && ("published" in v ==> IntIn(v["published"], 0, 2))
      && ("original_filename" in v ==> v["original_filename"].JNull? || v["original_filename"].JStr?)
  {
    var v := EditComment(projectId, publicationId, JObj(body), now).value;
    var fields := CommentFields();
    CommentFieldsEditable();
    var idMsg := "Invalid publication_id.";
    if "deleted" in v { EditRecordField(projectId, publicationId, idMsg, body, fields, false, now, 0); }
    if "published" in v { EditRecordField(projectId, publicationId, idMsg, body, fields, false, now, 1); }
    if "original_filename" in v { EditRecordField(projectId, publicationId, idMsg, body, fields, false, now, 2); }
  }

  /** `edit_manuscript`, over its eight fields with nulls passed through. */
  function EditManuscript(projectId: Option<int>, manuscriptId: string, body: Json, now: Json): (r: Result<Values, Failure>)
    ensures ProjectKnown(projectId) && !IdValid(manuscriptId) ==> r == Failure(BadRequest("Invalid manuscript_id."))
    ensures r.Success? ==> "date_modified" in r.value && r.value["date_modified"] == now
  {
    EditRecord(projectId, manuscriptId, "Invalid manuscript_id.", body, ManuscriptFields(), true, now)
  }

  /** In `edit_manuscript` publication_id is null or at least 1, and
      section_id and sort_order are null or at least 0. */
  lemma ManuscriptValues(projectId: Option<int>, manuscriptId: string, body: seq<(string, Json)>, now: Json)
    requires EditManuscript(projectId, manuscriptId, JObj(body), now).Success?
    ensures var v := EditManuscript(projectId, manuscriptId, JObj(body), now).value;
      ("publication_id" in v ==> v["publication_id"].JNull? || IntAtLeast(v["publication_id"], 1))
      && ("section_id" in v ==> v["section_id"].JNull? || IntAtLeast(v["section_id"], 0))
      && ("sort_order" in v ==> v["sort_order"].JNull? || IntAtLeast(v["sort_order"], 0))
  {
    var v := EditManuscript(projectId, manuscriptId, JObj(body), now).value;
    var fields := ManuscriptFields();
    ManuscriptFieldsEditable();
    var idMsg := "Invalid manuscript_id.";
    if "publication_id" in v {
      EditRecordField(projectId, manuscriptId, idMsg, body, fields, true, now, 0);
    }
    if "section_id" in v { EditRecordField(projectId, manuscriptId, idMsg, body, fields, true, now, 5); }
    if "sort_order" in v { EditRecordField(projectId, manuscriptId, idMsg, body, fields, true, now, 6); }
  }

  /** `edit_version`, over its eight fields with nulls passed through. */
  function EditVersion(projectId: Option<int>, versionId: string, body: Json, now: Json): (r: Result<Values, Failure>)
    ensures ProjectKnown(projectId) && !IdValid(versionId) ==> r == Failure(BadRequest("Invalid version_id."))
    ensures r.Success? ==> "date_modified" in r.value && r.value["date_modified"] == now
  {
    EditRecord(projectId, versionId, "Invalid version_id.", body, VersionFields(), true, now)
  }

  /** In `edit_version` publication_id is null or at least 1, and type,
      section_id and sort_order are null or at least 0. */
  lemma VersionValues(projectId: Option<int>, versionId: string, body: seq<(string, Json)>, now: Json)
    requires EditVersion(projectId, versionId, JObj(body), now).Success?
    ensures var v := EditVersion(projectId, versionId, JObj(body), now).value;
      ("publication_id" in v ==> v["publication_id"].JNull? || IntAtLeast(v["publication_id"], 1))
      && ("type" in v ==> v["type"].JNull? || IntAtLeast(v["type"], 0))
      && ("section_id" in v ==> v["section_id"].JNull? || IntAtLeast(v["section_id"], 0))
      && ("sort_order" in v ==> v["sort_order"].JNull? || IntAtLeast(v["sort_order"], 0))
  {
    var v := EditVersion(projectId, versionId, JObj(body), now).value;
    var fields := VersionFields();
    VersionFieldsEditable();
    var idMsg := "Invalid version_id.";
    if "publication_id" in v {
      EditRecordField(projectId, versionId, idMsg, body, fields, true, now, 0);
    }
    if "type" in v { EditRecordField(projectId, versionId, idMsg, body, fields, true, now, 5); }
    if "section_id" in v { EditRecordField(projectId, versionId, idMsg, body, fields, true, now, 6); }
    if "sort_order" in v { EditRecordField(projectId, versionId, idMsg, body, fields, true, now, 7); }
  }

  /** `edit_project` stores deleted as 0 or 1 and published as 0 to 2;
      nulls are refused. */
  lemma ProjectValues(projectId: string, body: seq<(string, Json)>, now: Json)
    requires EditProject(projectId, JObj(body), now).Success?
    ensures var v := EditProject(projectId, JObj(body), now).value;
      ("deleted" in v ==> IntIn(v["deleted"], 0, 1)) && ("published" in v ==> IntIn(v["published"], 0, 2))
  {
    var fields := ProjectFields();
    var v := EditProject(projectId, JObj(body), now).value;
    EditProjectFolds(projectId, body, now);
    assert Editable(fields);
    if "deleted" in v { FoldConforms(body, fields, false, 0); }
    if "published" in v { FoldConforms(body, fields, false, 1); }
  }

  /** A successful `edit_project` stores the fold's values and
      date_modified. */
  lemma EditProjectFolds(projectId: string, body: seq<(string, Json)>, now: Json)
    requires EditProject(projectId, JObj(body), now).Success?
    ensures FoldObject(body, ProjectFields(), false, 0, map[]).Success?
    ensures EditProject(projectId, JObj(body), now).value
            == FoldObject(body, ProjectFields(), false, 0, map[]).value["date_modified" := now]
  {
    assert Fold(JObj(body), ProjectFields(), false, 0, map[]) == FoldObject(body, ProjectFields(), false, 0, map[]);
  }

  /** `edit_comment` refuses a null deleted flag with its message. */
  lemma CommentNullDeletedRefused(now: Json)
    ensures EditComment(Some(1), "5", JObj([("deleted", JNull)]), now) == Failure(BadRequest(DeletedRange))
  {
    ParseIntDigits("5");
    var body := [("deleted", JNull)];
    assert Lookup(body, "deleted") == Some(JNull);
    FoldStep(body, CommentFields(), false, 0, map[]);
  }
}
