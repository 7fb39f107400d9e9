/** JSON values as the request handlers see them after `request.get_json()`,
    together with the few Python operations the handlers apply to them:
    truthiness, `isinstance(v, int)` (which a `bool` passes), `str(v)`,
    dictionary lookup and update, and the `in` operator. */
module Json {
  import opened Wrappers
  import opened PyStrings

  /** A decoded JSON value. Objects keep their bindings in document order;
      looking a key up finds its last binding, as a Python `dict` built by
      `json.loads` does. */
  datatype Json =
    | JNull
    | JBool(b: bool)
    | JInt(i: int)
    | JStr(s: string)
    | JArr(elems: seq<Json>)
    | JObj(fields: seq<(string, Json)>)

  /** Python truthiness of the decoded value. */
  predicate Truthy(v: Json) {
    match v
    case JNull => false
    case JBool(b) => b
    case JInt(i) => i != 0
    case JStr(s) => |s| > 0
    case JArr(a) => |a| > 0
    case JObj(f) => |f| > 0
  }

  /** `isinstance(v, int)`: true for integers and, because `bool` is a
      subclass of `int`, for booleans. */
  predicate IsInstanceInt(v: Json) {
    v.JInt? || v.JBool?
  }

  /** The integer a value passing `isinstance(v, int)` stands for. */
  function IntValue(v: Json): int
    requires IsInstanceInt(v)
  {
    if v.JBool? then (if v.b then 1 else 0) else v.i
  }

  // ---------------------------------------------------------------------
  // Objects as association lists

  /** `k in d` for a dictionary given by its bindings. */
  predicate HasKey(fields: seq<(string, Json)>, k: string) {
    exists i :: 0 <= i < |fields| && fields[i].0 == k
  }

  /** `d.get(k)`: the value of the last binding of `k`, or `None`. */
  function Lookup(fields: seq<(string, Json)>, k: string): (r: Option<Json>)
    ensures r.None? <==> !HasKey(fields, k)
    ensures r.Some? ==> exists i :: (0 <= i < |fields| && fields[i] == (k, r.value)
                                     && forall j :: i < j < |fields| ==> fields[j].0 != k)
    decreases |fields|
  {
    if |fields| == 0 then None
    else if fields[|fields| - 1].0 == k then Some(fields[|fields| - 1].1)
    else
      var r := Lookup(fields[..|fields| - 1], k);
      assert r.Some? ==> exists i :: (0 <= i < |fields| - 1 && fields[i] == (k, r.value)
                                      && forall j :: i < j < |fields| ==> fields[j].0 != k);
      r
  }

  /** `d[k] = v`: an existing key keeps its position and takes the new
      value, a new key is appended. */
  function Put(fields: seq<(string, Json)>, k: string, v: Json): (r: seq<(string, Json)>)
    ensures Lookup(r, k) == Some(v)
    ensures forall k' :: k' != k ==> Lookup(r, k') == Lookup(fields, k')
    ensures HasKey(fields, k) ==> (|r| == |fields| && forall i :: 0 <= i < |r| ==> r[i].0 == fields[i].0)
    ensures !HasKey(fields, k) ==> r == fields + [(k, v)]
  {
    if HasKey(fields, k) then
      OverwriteLookup(fields, k, v);
      Overwrite(fields, k, v)
    else
      var r := fields + [(k, v)];
      LookupNotLast(fields, k, v);
      r
  }

  /** Every binding of `k` takes the value `v`. */
  function Overwrite(fields: seq<(string, Json)>, k: string, v: Json): (r: seq<(string, Json)>)
    ensures |r| == |fields|
    ensures forall i :: 0 <= i < |r| ==> r[i].0 == fields[i].0
    ensures forall i :: 0 <= i < |r| ==> r[i].1 == if fields[i].0 == k then v else fields[i].1
    decreases |fields|
  {
    if |fields| == 0 then []
    else
      var init := Overwrite(fields[..|fields| - 1], k, v);
      var last := fields[|fields| - 1];
      var r := init + [(last.0, if last.0 == k then v else last.1)];
      assert forall i :: 0 <= i < |r| - 1 ==> r[i] == init[i] && fields[..|fields| - 1][i] == fields[i];
      r
  }

  /** After an overwrite, `k` looks up the new value when it was bound,
      and every other key looks up what it did before. */
  lemma {:induction false} OverwriteLookup(fields: seq<(string, Json)>, k: string, v: Json)
    ensures HasKey(fields, k) ==> Lookup(Overwrite(fields, k, v), k) == Some(v)
    ensures forall k' :: k' != k ==> Lookup(Overwrite(fields, k, v), k') == Lookup(fields, k')
    decreases |fields|
  {
    if |fields| > 0 {
      var init := fields[..|fields| - 1];
      var r := Overwrite(fields, k, v);
      OverwriteLookup(init, k, v);
      assert r[..|r| - 1] == Overwrite(init, k, v);
      assert HasKey(fields, k) && fields[|fields| - 1].0 != k ==> HasKey(init, k);
      forall k' | k' != k
        ensures Lookup(r, k') == Lookup(fields, k')
      {
        if fields[|fields| - 1].0 != k' {
          assert Lookup(r, k') == Lookup(r[..|r| - 1], k');
        }
      }
    }
  }

  /** Appending a binding of `k` leaves the other keys' lookups unchanged. */
  lemma LookupNotLast(fields: seq<(string, Json)>, k: string, v: Json)
    ensures Lookup(fields + [(k, v)], k) == Some(v)
    ensures forall k' :: k' != k ==> Lookup(fields + [(k, v)], k') == Lookup(fields, k')
  {
    assert (fields + [(k, v)])[..|fields|] == fields;
  }

  /** The keys of a dictionary, in order. */
  function Keys(fields: seq<(string, Json)>): (ks: seq<string>)
    ensures |ks| == |fields|
    ensures forall i :: 0 <= i < |fields| ==> ks[i] == fields[i].0
  {
    seq(|fields|, i requires 0 <= i < |fields| => fields[i].0)
  }

  /** The error Python raises for an operation the value's type does not
      support. */
  datatype PyError = TypeError | AttributeError | KeyError | ValueError | IndexError

  /** `key in container` for a request body: a key of an object, an element
      of an array, a substring of a string; a `TypeError` for numbers,
      booleans and `None`. */
  function Membership(container: Json, key: string): (r: Result<bool, PyError>)
    ensures container.JObj? ==> r == Success(HasKey(container.fields, key))
    ensures container.JArr? ==> r == Success(JStr(key) in container.elems)
    ensures container.JStr? ==> r == Success(Contains(container.s, key))
    ensures r.Failure? <==> !(container.JObj? || container.JArr? || container.JStr?)
  {
    match container
    case JObj(f) => Success(HasKey(f, key))
    case JArr(a) => Success(JStr(key) in a)
    case JStr(s) => Success(Contains(s, key))
    case _ => Failure(TypeError)
  }

  /** `container[key]` with a string key: an object's lookup; a `KeyError`
      for a missing key and a `TypeError` for anything but an object. */
  function Index(container: Json, key: string): (r: Result<Json, PyError>)
    ensures r.Success? <==> container.JObj? && HasKey(container.fields, key)
    ensures r.Success? ==> Lookup(container.fields, key) == Some(r.value)
  {
    match container
    case JObj(f) => (match Lookup(f, key) case Some(v) => Success(v) case None => Failure(KeyError))
    case _ => Failure(TypeError)
  }

  // ---------------------------------------------------------------------
  // str()

  /** `repr` of a Python string: single quotes unless the text holds a
      single quote and no double quote; backslash, the chosen quote and
      the tab, newline and carriage-return controls are escaped. */
  function StrRepr(s: string): (r: string)
    ensures |r| >= 2 && r[0] == r[|r| - 1] && (r[0] == '\'' || r[0] == '"')
  {
    var q := if '\'' in s && '"' !in s then '"' else '\'';
    [q] + EscapeChars(s, q) + [q]
  }

  function EscapeChars(s: string, q: char): string
    decreases |s|
  {
    if |s| == 0 then ""
    else
      var c := s[0];
      var e := if c == '\\' then "\\\\"
        else if c == q then ['\\', q]
        else if c == '\n' then "\\n"
        else if c == '\r' then "\\r"
        else if c == '\t' then "\\t"
        else [c];
      e + EscapeChars(s[1..], q)
  }

  /** `repr(v)` of the Python object the JSON value decodes to. */
  function Repr(v: Json): (r: string)
    ensures v.JArr? ==> |r| >= 2 && r[0] == '[' && r[|r| - 1] == ']'
    ensures v.JObj? ==> |r| >= 2 && r[0] == '{' && r[|r| - 1] == '}'
    decreases v, 1
  {
    match v
    case JStr(s) => StrRepr(s)
    case JArr(a) => "[" + ReprElems(v, a) + "]"
    case JObj(f) => "{" + ReprFields(v, f) + "}"
    case _ => ScalarStr(v)
  }

  /** How Python prints `None`, a boolean or an integer. */
  function ScalarStr(v: Json): string
    requires !(v.JStr? || v.JArr? || v.JObj?)
  {
    match v
    case JNull => "None"
    case JBool(b) => if b then "True" else "False"
    case JInt(i) => IntToString(i)
  }

  function ReprElems(parent: Json, a: seq<Json>): string
    requires forall i :: 0 <= i < |a| ==> a[i] < parent
    decreases parent, 0, |a|
  {
    if |a| == 0 then ""
    else if |a| == 1 then Repr(a[0])
    else Repr(a[0]) + ", " + ReprElems(parent, a[1..])
  }

  function ReprFields(parent: Json, f: seq<(string, Json)>): string
    requires forall i :: 0 <= i < |f| ==> f[i].1 < parent
    decreases parent, 0, |f|
  {
    if |f| == 0 then ""
    else
      var one := StrRepr(f[0].0) + ": " + Repr(f[0].1);
      if |f| == 1 then one else one + ", " + ReprFields(parent, f[1..])
  }

  /** `str(v)`: a string stays itself, `None`, booleans and integers print
      as Python prints them, containers as their `repr`. */
  function Str(v: Json): (r: string)
    ensures v.JStr? ==> r == v.s
    ensures v.JInt? ==> ParseInt(r) == Some(v.i)
    ensures v.JArr? ==> |r| >= 2 && r[0] == '[' && r[|r| - 1] == ']'
    ensures v.JObj? ==> |r| >= 2 && r[0] == '{' && r[|r| - 1] == '}'
  {
    match v
    case JStr(s) => s
    case JArr(_) => Repr(v)
    case JObj(_) => Repr(v)
    case JInt(i) => ParseIntToString(i); ScalarStr(v)
    case _ => ScalarStr(v)
  }
}
