/** `CTeiDocument.RemoveDelSpans` of `sls_api/scripts/CTeiDocument.py`: the
    text scan, run before the document is parsed, that drops everything
    from each "<delSpan" to the first ">" after the next `id="del`. The
    scan is written for any three marks; the document code uses `Tags`. */
module TeiDelSpans {
  import opened Wrappers
  import opened PyStrings

  /** What a span opens with, the attribute text searched for after it,
      and the text that closes it. */
  datatype Marks = Marks(open: string, id: string, close: string) {
    /** No mark is empty. */
    predicate Valid() {
      |open| > 0 && |id| > 0 && |close| > 0
    }
  }

  const Tags := Marks("<delSpan", "id=\"del", ">")

  /** `s[a:b]` for indices within the string: empty when `a > b`. */
  function PySlice(s: string, a: nat, b: nat): (r: string)
    requires a <= |s| && b <= |s|
    ensures a <= b ==> r == s[a..b]
    ensures a > b ==> r == ""
  {
    if a <= b then s[a..b] else ""
  }

  /** `s.find(sub, start)` is -1 or an index where `sub` fits, at or after
      a non-negative start. */
  lemma FindBound(s: string, sub: string, start: int)
    ensures Find(s, sub, start) == -1 || (0 <= Find(s, sub, start) && Find(s, sub, start) + |sub| <= |s|)
    ensures start >= 0 && Find(s, sub, start) >= 0 ==> Find(s, sub, start) >= start
  {
  }

  // ---------------------------------------------------------------------
  // As written

  /** Where the code as written resumes copying after the span opened at
      `position`: one past the first ">" from the id mark on. Without an
      id mark the search starts at -1, which Python reads as the last
      character, and a missing closing mark gives 0. */
  function ResumeAsWritten(m: Marks, s: string, position: nat): (c: nat)
    requires m.Valid() && position < |s|
    ensures c <= |s|
  {
    var endPosition := FindFrom(s, m.id, position);
    FindBound(s, m.close, endPosition);
    Find(s, m.close, endPosition) + 1
  }

  /** The `while position >= 0` loop as written, run for at most `fuel`
      passes: `None` when the passes run out. `cur` is where copying
      resumes, `position` the next opening mark. */
  function LoopAsWritten(m: Marks, s: string, out: string, cur: nat, position: int, fuel: nat): (r: Option<string>)
    requires m.Valid() && cur <= |s| && position < |s|
    ensures r.Some? ==> out <= r.value
    ensures position < 0 ==> r == Some(out + s[cur..])
    decreases fuel
  {
    if position < 0 then Some(out + s[cur..])
    else if fuel == 0 then None
    else
      var next := ResumeAsWritten(m, s, position);
      LoopAsWritten(m, s, out + PySlice(s, cur, position), next, FindFrom(s, m.open, next), fuel - 1)
  }

  /** The function as written, given `fuel` passes of its loop. */
  function RemoveDelSpansAsWritten(s: string, fuel: nat): (r: Option<string>)
    ensures !Contains(s, Tags.open) ==> r == Some(s)
  {
    assert "" + s[0..] == s;
    LoopAsWritten(Tags, s, "", 0, FindFrom(s, Tags.open, 0), fuel)
  }

  /** A document that opens with an opening mark, holds no id mark and
      does not end in the closing character sends the loop back to its
      first state: it never finishes, however many passes it is given. */
  lemma AsWrittenDiverges(s: string, fuel: nat)
    requires OccursAt(s, Tags.open, 0) && !Contains(s, Tags.id) && s[|s| - 1] != '>'
    ensures RemoveDelSpansAsWritten(s, fuel) == None
  {
    assert Find(s, Tags.open, 0) == 0;
    Cycle(s, fuel);
  }

  lemma {:induction false} Cycle(s: string, fuel: nat)
    requires OccursAt(s, Tags.open, 0) && !Contains(s, Tags.id) && s[|s| - 1] != '>'
    ensures LoopAsWritten(Tags, s, "", 0, 0, fuel) == None
    decreases fuel
  {
    if fuel > 0 {
      assert Find(s, Tags.id, 0) == -1;
      assert s[|s| - 1..|s|] != ">";
      assert Find(s, Tags.close, -1) == -1;
      assert Find(s, Tags.open, 0) == 0;
      assert "" + PySlice(s, 0, 0) == "";
      Cycle(s, fuel - 1);
    }
  }

  /** A delSpan without its id attribute is such a document. */
  lemma UnmarkedSpanDiverges(fuel: nat)
    ensures RemoveDelSpansAsWritten("<delSpan/>a", fuel) == None
  {
    var s := "<delSpan/>a";
    assert s[0..8] == Tags.open;
    assert !Contains(s, Tags.id) by {
      forall j | 0 <= j
        ensures !OccursAt(s, Tags.id, j)
      {
        if j + 7 <= |s| {
          assert s[j..j + 7][0] == s[j];
          assert s[j] != 'i';
        }
      }
      FindNone(s, Tags.id, 0);
    }
    AsWrittenDiverges(s, fuel);
  }

  /** No occurrence from `start` on means `find` fails. */
  lemma FindNone(s: string, sub: string, start: nat)
    requires forall j :: start <= j ==> !OccursAt(s, sub, j)
    ensures FindFrom(s, sub, start) == -1
  {
    FoundAt(s, sub, start);
  }

  // ---------------------------------------------------------------------
  // Corrected

  /** Where copying resumes after the span opened at `position`: just
      after the first closing mark that follows its id mark, or the end of
      the document when there is none. */
  function ResumeAt(m: Marks, s: string, position: nat): (c: nat)
    requires m.Valid() && position < |s|
    ensures position < c <= |s|
  {
    var e := FindFrom(s, m.id, position);
    if e < 0 then |s|
    else
      var g := FindFrom(s, m.close, e);
      if g < 0 then |s| else g + 1
  }

  /** The scan from `cur` on as evidently intended: each opening mark up
      to the first closing mark after its id mark is dropped, and a span
      that is never closed runs to the end of the document. */
  function RemoveFrom(m: Marks, s: string, cur: nat): (r: string)
    requires m.Valid() && cur <= |s|
    ensures |r| <= |s| - cur
    ensures FindFrom(s, m.open, cur) < 0 ==> r == s[cur..]
    decreases |s| - cur
  {
    var p := FindFrom(s, m.open, cur);
    if p < 0 then s[cur..] else s[cur..p] + RemoveFrom(m, s, ResumeAt(m, s, p))
  }

  /** The document with its deletion spans removed: never longer, and
      unchanged when it has no "<delSpan". */
  function RemoveDelSpans(s: string): (r: string)
    ensures |r| <= |s|
    ensures !Contains(s, Tags.open) ==> r == s
  {
    RemoveFrom(Tags, s, 0)
  }

  /** Every span from `cur` on is closed: it has an id mark and a closing
      mark after that. */
  predicate Closed(m: Marks, s: string, cur: nat)
    requires m.Valid() && cur <= |s|
    decreases |s| - cur
  {
    var p := FindFrom(s, m.open, cur);
    p < 0 ||
      (var e := FindFrom(s, m.id, p);
       e >= 0 && FindFrom(s, m.close, e) >= 0 && Closed(m, s, ResumeAt(m, s, p)))
  }

  /** Over a closed span the code as written resumes where the corrected
      scan does. */
  lemma ResumeAgrees(m: Marks, s: string, position: nat)
    requires m.Valid() && position < |s|
    requires FindFrom(s, m.id, position) >= 0 && FindFrom(s, m.close, FindFrom(s, m.id, position)) >= 0
    ensures ResumeAsWritten(m, s, position) == ResumeAt(m, s, position)
  {
  }

  /** One pass of the loop as written over a closed span. */
  lemma LoopStep(m: Marks, s: string, out: string, cur: nat, position: nat, fuel: nat)
    requires m.Valid() && cur <= position < |s| && fuel > 0
    requires ResumeAsWritten(m, s, position) == ResumeAt(m, s, position)
    ensures LoopAsWritten(m, s, out, cur, position, fuel)
         == LoopAsWritten(m, s, out + s[cur..position], ResumeAt(m, s, position),
                          FindFrom(s, m.open, ResumeAt(m, s, position)), fuel - 1)
  {
  }

  /** A closed span has both marks, and the rest after it is closed too. */
  lemma ClosedStep(m: Marks, s: string, cur: nat, position: nat)
    requires m.Valid() && cur <= |s| && position == FindFrom(s, m.open, cur) && Closed(m, s, cur)
    ensures cur <= position < |s|
    ensures FindFrom(s, m.id, position) >= 0 && FindFrom(s, m.close, FindFrom(s, m.id, position)) >= 0
    ensures Closed(m, s, ResumeAt(m, s, position))
  {
  }

  /** Where every span is closed the loop as written finishes, within one
      pass per character, with the corrected result. */
  lemma AgreesWhenClosed(s: string, fuel: nat)
    requires Closed(Tags, s, 0) && fuel > |s|
    ensures RemoveDelSpansAsWritten(s, fuel) == Some(RemoveDelSpans(s))
  {
    var m := Tags;
    assert m.Valid();
    AgreesFromStart(m, s, fuel);
  }

  lemma AgreesFromStart(m: Marks, s: string, fuel: nat)
    requires m.Valid() && Closed(m, s, 0) && fuel > |s|
    ensures LoopAsWritten(m, s, "", 0, FindFrom(s, m.open, 0), fuel) == Some(RemoveFrom(m, s, 0))
  {
    AgreesFrom(m, s, "", 0, FindFrom(s, m.open, 0), fuel);
    assert "" + RemoveFrom(m, s, 0) == RemoveFrom(m, s, 0);
  }

  lemma {:induction false} AgreesFrom(m: Marks, s: string, out: string, cur: nat, position: int, fuel: nat)
    requires m.Valid() && cur <= |s| && position == FindFrom(s, m.open, cur) && position < |s|
    requires Closed(m, s, cur) && fuel > |s| - cur
    ensures LoopAsWritten(m, s, out, cur, position, fuel) == Some(out + RemoveFrom(m, s, cur))
    decreases |s| - cur
  {
    if position >= 0 {
      ClosedStep(m, s, cur, position);
      var next := ResumeAt(m, s, position);
      var out' := out + s[cur..position];
      var rest := RemoveFrom(m, s, next);
      AgreesFrom(m, s, out', next, FindFrom(s, m.open, next), fuel - 1);
      Associative(out, s[cur..position], rest);
      RemoveStep(m, s, cur, position);
      ResumeAgrees(m, s, position);
      LoopStep(m, s, out, cur, position, fuel);
    }
  }

  /** One step of the corrected scan at an opening mark. */
  lemma RemoveStep(m: Marks, s: string, cur: nat, position: nat)
    requires m.Valid() && cur <= |s| && position == FindFrom(s, m.open, cur)
    ensures cur <= position < |s|
    ensures RemoveFrom(m, s, cur) == s[cur..position] + RemoveFrom(m, s, ResumeAt(m, s, position))
  {
  }

  lemma Associative(a: string, b: string, c: string)
    ensures a + b + c == a + (b + c)
  {
  }

  /** The corrected scan as a loop over the text. */
  method RemoveDelSpansLoop(s: string) returns (out: string)
    ensures out == RemoveDelSpans(s)
  {
    var m := Tags;
    out := "";
    var cur := 0;
    var position := FindFrom(s, m.open, 0);
    while position >= 0
      invariant 0 <= cur <= |s| && position == FindFrom(s, m.open, cur)
      invariant out + RemoveFrom(m, s, cur) == RemoveDelSpans(s)
      decreases |s| - cur
    {
      var next := ResumeAt(m, s, position);
      Associative(out, s[cur..position], RemoveFrom(m, s, next));
      out := out + s[cur..position];
      cur := next;
      position := FindFrom(s, m.open, cur);
    }
    out := out + s[cur..];
  }
}
