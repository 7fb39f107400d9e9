/** Editor notes, note ids, variant types and header metadata of
    `sls_api/scripts/CTeiDocument.py`.

    The main text enters as the sequence of its `anchor` elements in
    document order. Each anchor carries the answers to the ancestor
    queries the note-position code asks of it. */
module TeiNotes {
  import opened Wrappers
  import opened PyStrings

  // ---------------------------------------------------------------------
  // The chapter part of a note position

  /** The characters the pattern `[^0-9.]` leaves in place. */
  predicate IsChapterChar(c: char) {
    IsDigitChar(c) || c == '.'
  }

  /** `re.sub('[^0-9.]', '', s)`: the digits and dots of `s`, in order. */
  function KeepChapterChars(s: string): (r: string)
    ensures |r| <= |s|
    ensures forall i :: 0 <= i < |r| ==> IsChapterChar(r[i])
  {
    if |s| == 0 then ""
    else if IsChapterChar(s[0]) then [s[0]] + KeepChapterChars(s[1..])
    else KeepChapterChars(s[1..])
  }

  /** A single character is kept exactly when it is a digit or a dot. */
  lemma KeepChapterCharsOne(c: char)
    ensures KeepChapterChars([c]) == if IsChapterChar(c) then [c] else ""
  {
    assert [c][1..] == "";
  }

  /** The chapter characters of two strings are those of the first
      followed by those of the second: every digit and dot is kept, in
      order. */
  lemma {:induction false} KeepChapterCharsAppend(a: string, b: string)
    ensures KeepChapterChars(a + b) == KeepChapterChars(a) + KeepChapterChars(b)
    decreases |a|
  {
    if |a| == 0 {
      assert a + b == b;
    } else {
      KeepChapterCharsAppend(a[1..], b);
      assert (a + b)[0] == a[0];
      assert (a + b)[1..] == a[1..] + b;
    }
  }

  /** A string is left alone exactly when it already consists of chapter
      characters only. */
  lemma {:induction false} KeepChapterCharsFixed(s: string)
    ensures KeepChapterChars(s) == s <==> forall i :: 0 <= i < |s| ==> IsChapterChar(s[i])
    decreases |s|
  {
    if |s| > 0 {
      KeepChapterCharsFixed(s[1..]);
      if forall i :: 0 <= i < |s| ==> IsChapterChar(s[i]) {
        assert forall i :: 0 <= i < |s[1..]| ==> IsChapterChar(s[1..][i]) by {
          forall i | 0 <= i < |s[1..]| ensures IsChapterChar(s[1..][i]) {
            assert s[1..][i] == s[i + 1];
          }
        }
        assert s == [s[0]] + s[1..];
      }
    }
  }

  /** Filtering twice is filtering once. */
  lemma KeepChapterCharsIdempotent(s: string)
    ensures KeepChapterChars(KeepChapterChars(s)) == KeepChapterChars(s)
  {
    KeepChapterCharsFixed(KeepChapterChars(s));
  }

  /** `__GetChapter`: no chapter without a `_`; otherwise the chapter
      characters of the text before the first `_`. */
  function GetChapter(position: Option<string>): (r: string)
    ensures position.None? || !Contains(position.value, "_") ==> r == ""
    ensures forall i :: 0 <= i < |r| ==> IsChapterChar(r[i])
  {
    if position.None? then ""
    else if FindFrom(position.value, "_", 0) >= 0 then KeepChapterChars(Split(position.value, "_")[0])
    else ""
  }

  /** A position `a_b` whose `a` has no `_` takes its chapter from `a`. */
  lemma ChapterOfPosition(a: string, b: string)
    requires !Contains(a, "_")
    ensures GetChapter(Some(a + "_" + b)) == KeepChapterChars(a)
  {
    var s := a + "_" + b;
    SplitAtChar(a, '_', b);
    SplitWithoutSep(a, "_");
    assert s == a + ['_'] + b;
    assert OccursAt(s, "_", |a|) by { assert s[|a|..|a| + 1] == "_"; }
  }

  lemma ChapterExample()
    ensures GetChapter(Some("ch1.2_p3")) == "1.2"
  {
    ContainsChar("ch1.2", '_');
    ChapterOfPosition("ch1.2", "p3");
    assert "ch1.2" + "_" + "p3" == "ch1.2_p3";
    assert KeepChapterChars("2") == "2" by { assert "2"[1..] == ""; }
    assert KeepChapterChars(".2") == ".2" by { assert ".2"[1..] == "2"; }
    assert KeepChapterChars("1.2") == "1.2" by { assert "1.2"[1..] == ".2"; }
    assert KeepChapterChars("h1.2") == "1.2" by { assert "h1.2"[1..] == "1.2"; }
    assert KeepChapterChars("ch1.2") == "1.2" by { assert "ch1.2"[1..] == "h1.2"; }
  }

  // ---------------------------------------------------------------------
  // Anchors and the position of a note

  /** An `anchor` of the main text. `xmlId` is "" when the anchor has no
      `xml:id` (no query can then match it). For each ancestor query the
      field holds the attribute the source reads from the first element
      the query returns, or `None` when it returns nothing. */
  datatype Anchor = Anchor(
    xmlId: string,
    inPlacedNote: bool,         // ancestor::note[@place]
    p: Option<string>,          // ancestor::p[@xml:id], its xml:id
    l: Option<string>,          // ancestor::l[@n], its n
    lg: Option<string>,         // ancestor::lg[@xml:id], its xml:id
    list: Option<string>,       // ancestor::list[@xml:id], its xml:id
    head: Option<Option<string>>, // ancestor::head, its type attribute if any
    inDateline: bool)           // ancestor::dateline

  const Footnote := "Fotnot"
  const HeadLabel := "Titel"
  const DateLabel := "Datering"

  /** The separator between the start and the end of a position, as the
      code points stand in the source file (an en dash that went through
      two wrong decodings). */
  const Sep := "Ã¢â‚¬â€œ"

  /** The first anchor in document order whose `xml:id` is `id`. */
  function FirstAnchor(doc: seq<Anchor>, id: string): (r: Option<Anchor>)
    ensures r.Some? <==> exists i :: 0 <= i < |doc| && doc[i].xmlId == id
    ensures r.Some? ==> r.value.xmlId == id && r.value in doc
  {
    if |doc| == 0 then None
    else if doc[0].xmlId == id then Some(doc[0])
    else
      var r := FirstAnchor(doc[1..], id);
      assert forall i :: 1 <= i < |doc| ==> doc[i] == doc[1..][i - 1];
      r
  }

  /** The label of the start anchor: the footnote test first, then
      p, l, lg, list, head (unless it is a letter head) and dateline. */
  function StartLabel(a: Anchor): string {
    if a.inPlacedNote then Footnote
    else if a.p.Some? then a.p.value
    else if a.l.Some? then "l" + a.l.value
    else if a.lg.Some? then a.lg.value
    else if a.list.Some? then a.list.value
    else if a.head.Some? then (if a.head.value == Some("letter") then "" else HeadLabel)
    else if a.inDateline then DateLabel
    else ""
  }

  /** The label of the end anchor: p, l, list and lg, in that order. */
  function EndLabel(a: Anchor): string {
    if a.p.Some? then a.p.value
    else if a.l.Some? then "l" + a.l.value
    else if a.list.Some? then a.list.value
    else if a.lg.Some? then a.lg.value
    else ""
  }

  /** The position text built from the two labels. */
  function Compose(start: string, end: string): (r: string)
    ensures r == "" <==> start == ""
    ensures start != "" ==> |start| <= |r| && r[..|start|] == start
    ensures r == start <==> start == "" || end == "" || end == start
  {
    if |start| > 0 then
      if |end| > 0 && start != end then start + Sep + end else start
    else ""
  }

  /** The separator's first character occurs nowhere else in it, so no
      occurrence can straddle the start label and the separator. */
  lemma SepStartsOnce(k: int)
    requires 0 < k < |Sep|
    ensures Sep[k] != Sep[0]
  {
  }

  /** When neither label contains the separator, splitting a composed
      position on it gives back the labels. */
  lemma {:induction false} ComposeSplit(start: string, end: string)
    requires start != "" && !Contains(start, Sep) && !Contains(end, Sep)
    ensures Split(Compose(start, end), Sep) == if end == "" || end == start then [start] else [start, end]
  {
    if end == "" || end == start {
      SplitWithoutSep(start, Sep);
    } else {
      var s := start + Sep + end;
      var n := |start|;
      assert OccursAt(s, Sep, n) by { assert s[n..n + |Sep|] == Sep; }
      forall j | 0 <= j < n
        ensures !OccursAt(s, Sep, j)
      {
        if OccursAt(s, Sep, j) {
          if j + |Sep| <= n {
            assert s[j..j + |Sep|] == start[j..j + |Sep|];
            ContainsAt(start, Sep, j);
          } else {
            SepStartsOnce(n - j);
            assert false;
          }
        }
      }
      var i := FindFrom(s, Sep, 0);
      FoundAt(s, Sep, 0);
      assert i == n;
      assert s[..n] == start;
      assert s[n + |Sep|..] == end;
      SplitWithoutSep(end, Sep);
    }
  }

  /** `__GetNotePosition`: `None` when the text has no start anchor for
      the note; otherwise the composed labels, where the end anchor is
      looked up only for a note that does not start in a footnote. */
  function NotePosition(doc: seq<Anchor>, noteId: int): (r: Option<string>)
    ensures r.None? <==> forall i :: 0 <= i < |doc| ==> doc[i].xmlId != "start" + IntToString(noteId)
    ensures r.Some? ==> (r.value == "" <==> StartLabel(FirstAnchor(doc, "start" + IntToString(noteId)).value) == "")
  {
    var key := IntToString(noteId);
    match FirstAnchor(doc, "start" + key)
    case None => None
    case Some(a) =>
      var start := StartLabel(a);
      var end :=
        if start != Footnote then
          match FirstAnchor(doc, "end" + key)
          case None => ""
          case Some(e) => EndLabel(e)
        else "";
      Some(Compose(start, end))
  }

  /** A note that starts in a footnote is placed at the footnote, wherever
      its end anchor lies. */
  lemma FootnotePosition(doc: seq<Anchor>, noteId: int)
    requires FirstAnchor(doc, "start" + IntToString(noteId)).Some?
    requires FirstAnchor(doc, "start" + IntToString(noteId)).value.inPlacedNote
    ensures NotePosition(doc, noteId) == Some(Footnote)
  {
  }

  /** Without an end anchor the position is the start label alone. */
  lemma PositionWithoutEnd(doc: seq<Anchor>, noteId: int)
    requires FirstAnchor(doc, "start" + IntToString(noteId)).Some?
    requires forall i :: 0 <= i < |doc| ==> doc[i].xmlId != "end" + IntToString(noteId)
    ensures NotePosition(doc, noteId) == Some(StartLabel(FirstAnchor(doc, "start" + IntToString(noteId)).value))
  {
    assert FirstAnchor(doc, "end" + IntToString(noteId)).None?;
    var start := StartLabel(FirstAnchor(doc, "start" + IntToString(noteId)).value);
    assert Compose(start, "") == start;
  }

  // ---------------------------------------------------------------------
  // Editor notes

  /** A `seg` child of a note: its `type` and its text. */
  datatype Seg = Seg(kind: string, text: string)

  /** The generated part of an editor `note`: its id, its target and its
      position segments. The lemma and the note text come from HTML and
      XSLT conversions outside this model. */
  datatype Note = Note(id: string, target: string, segs: seq<Seg>)

  /** The position segment, and the section segment when the position
      names a chapter. */
  function PositionSegs(position: string): (r: seq<Seg>)
    ensures position == "" <==> r == []
    ensures |r| <= 2
    ensures |r| > 0 ==> r[0] == Seg("notePosition", position)
    ensures |r| == 2 <==> position != "" && Contains(position, "_") && KeepChapterChars(Split(position, "_")[0]) != ""
    ensures |r| == 2 ==> r[1] == Seg("noteSection", "ch" + KeepChapterChars(Split(position, "_")[0]))
  {
    if |position| > 0 then
      var chapter := GetChapter(Some(position));
      [Seg("notePosition", position)] + (if |chapter| > 0 then [Seg("noteSection", "ch" + chapter)] else [])
    else []
  }

  function EditorNote(noteId: int, position: string): Note {
    var key := IntToString(noteId);
    Note("en" + key, "#start" + key, PositionSegs(position))
  }

  /** `ProcessCommments`: one editor note per comment whose start anchor
      is in the main text, in the order of the comments. */
  function ProcessComments(doc: seq<Anchor>, comments: seq<int>): (r: seq<Note>)
    ensures |r| <= |comments|
  {
    if |comments| == 0 then []
    else
      var rest := ProcessComments(doc, comments[1..]);
      match NotePosition(doc, comments[0])
      case None => rest
      case Some(position) => [EditorNote(comments[0], position)] + rest
  }

  /** "en" followed by the decimal form of an integer names that integer
      only. */
  lemma NoteKeyInjective(a: int, b: int)
    requires "en" + IntToString(a) == "en" + IntToString(b)
    ensures a == b
  {
    assert ("en" + IntToString(a))[2..] == IntToString(a);
    assert ("en" + IntToString(b))[2..] == IntToString(b);
    ParseIntToString(a);
    ParseIntToString(b);
  }

  /** Every note is the editor note of a comment that has a start
      anchor, placed where `__GetNotePosition` says. */
  lemma {:induction false} NotesFromComments(doc: seq<Anchor>, comments: seq<int>, n: Note)
    requires n in ProcessComments(doc, comments)
    ensures exists c :: c in comments && NotePosition(doc, c).Some? && n == EditorNote(c, NotePosition(doc, c).value)
    decreases |comments|
  {
    var c := comments[0];
    if NotePosition(doc, c).Some? && n == EditorNote(c, NotePosition(doc, c).value) {
    } else {
      NotesFromComments(doc, comments[1..], n);
      var d :| d in comments[1..] && NotePosition(doc, d).Some? && n == EditorNote(d, NotePosition(doc, d).value);
      assert d in comments;
    }
  }

  /** Every comment that has a start anchor gets its editor note. */
  lemma {:induction false} NoteForEveryComment(doc: seq<Anchor>, comments: seq<int>, c: int)
    requires c in comments && NotePosition(doc, c).Some?
    ensures EditorNote(c, NotePosition(doc, c).value) in ProcessComments(doc, comments)
    decreases |comments|
  {
    if c != comments[0] {
      NoteForEveryComment(doc, comments[1..], c);
    }
  }

  /** A note's id names the comment it was made for. */
  lemma NoteIdNamesComment(doc: seq<Anchor>, comments: seq<int>, n: Note, c: int)
    requires n in ProcessComments(doc, comments) && n.id == "en" + IntToString(c)
    ensures c in comments && NotePosition(doc, c).Some? && n == EditorNote(c, NotePosition(doc, c).value)
  {
    NotesFromComments(doc, comments, n);
    var d :| d in comments && NotePosition(doc, d).Some? && n == EditorNote(d, NotePosition(doc, d).value);
    NoteKeyInjective(d, c);
  }

  // ---------------------------------------------------------------------
  // Note ids

  /** `starts-with(@xml:id, "start")`. */
  predicate IsNoteStart(id: string) {
    StartsWith(id, "start")
  }

  /** The `id[5:]` of every note-start anchor, in document order. */
  function StartIds(doc: seq<Anchor>): (r: seq<string>)
    ensures |r| <= |doc|
    ensures |r| == 0 <==> forall i :: 0 <= i < |doc| ==> !IsNoteStart(doc[i].xmlId)
  {
    if |doc| == 0 then []
    else
      var rest := StartIds(doc[1..]);
      assert forall i :: 1 <= i < |doc| ==> doc[i] == doc[1..][i - 1];
      if IsNoteStart(doc[0].xmlId) then [doc[0].xmlId[5..]] + rest else rest
  }

  /** `GetAllNoteIDs`: `None` rather than an empty list when there is no
      note anchor. */
  function AllNoteIds(doc: seq<Anchor>): (r: Option<seq<string>>)
    ensures r.None? <==> forall i :: 0 <= i < |doc| ==> !IsNoteStart(doc[i].xmlId)
    ensures r.Some? ==> |r.value| > 0
  {
    var ids := StartIds(doc);
    if |ids| == 0 then None else Some(ids)
  }

  /** `GetFirstNoteId`: the id of the first note-start anchor. */
  function FirstNoteId(doc: seq<Anchor>): (r: Option<string>)
    ensures r.None? <==> forall i :: 0 <= i < |doc| ==> !IsNoteStart(doc[i].xmlId)
  {
    if |doc| == 0 then None
    else if IsNoteStart(doc[0].xmlId) then Some(doc[0].xmlId[5..])
    else
      var r := FirstNoteId(doc[1..]);
      assert forall i :: 1 <= i < |doc| ==> doc[i] == doc[1..][i - 1];
      r
  }

  /** The first note id is the head of the list of all of them. */
  lemma {:induction false} FirstNoteIdIsFirst(doc: seq<Anchor>)
    ensures FirstNoteId(doc) == if AllNoteIds(doc).None? then None else Some(AllNoteIds(doc).value[0])
    decreases |doc|
  {
    if |doc| > 0 && !IsNoteStart(doc[0].xmlId) {
      FirstNoteIdIsFirst(doc[1..]);
    }
  }

  /** A string is a listed note id exactly when "start" followed by it is
      the `xml:id` of an anchor. */
  lemma {:induction false} StartIdsExact(doc: seq<Anchor>, x: string)
    ensures x in StartIds(doc) <==> exists i :: 0 <= i < |doc| && doc[i].xmlId == "start" + x
    decreases |doc|
  {
    if |doc| > 0 {
      StartIdsExact(doc[1..], x);
      var id := doc[0].xmlId;
      if IsNoteStart(id) {
        assert id == "start" + id[5..];
      }
      if id == "start" + x {
        assert id[..5] == "start" && id[5..] == x;
      }
      assert forall i :: 1 <= i < |doc| ==> doc[i] == doc[1..][i - 1];
      if exists i :: 0 <= i < |doc[1..]| && doc[1..][i].xmlId == "start" + x {
        var i :| 0 <= i < |doc[1..]| && doc[1..][i].xmlId == "start" + x;
        assert doc[i + 1].xmlId == "start" + x;
      }
    }
  }

  // ---------------------------------------------------------------------
  // Variant types

  /** An `app` element: its `id` and `type` attributes. */
  datatype App = App(id: Option<string>, kind: Option<string>)

  /** The `type` of the first `app` of a variant document with the given
      id, when that app exists and has one. */
  function MatchedType(doc: seq<App>, id: string): Option<string> {
    if |doc| == 0 then None
    else if doc[0].id == Some(id) then doc[0].kind
    else MatchedType(doc[1..], id)
  }

  /** One variant's contribution: the three tests of the source, applied
      in order to the type found so far. */
  function Refine(current: string, t: string): string {
    var a := if Contains(t, "sub") then "sub" else current;
    var b := if Contains(t, "ort") && a != "sub" then "ort" else a;
    if Contains(t, "int") && b != "sub" && b != "ort" then "int" else b
  }

  /** The type found after reading the variant documents in order. */
  function VariantTypeFrom(current: string, docs: seq<seq<App>>, id: string): (r: string)
    ensures IsVariantType(current) ==> IsVariantType(r)
    decreases |docs|
  {
    if |docs| == 0 then current
    else
      var t := MatchedType(docs[0], id);
      VariantTypeFrom(if t.Some? then Refine(current, t.value) else current, docs[1..], id)
  }

  /** The values the type attribute can take; "" means no type. */
  predicate IsVariantType(t: string) {
    t == "" || t == "sub" || t == "ort" || t == "int"
  }

  /** The type of the apparatus entry `id` across the variant documents:
      the strongest keyword any of them matched. */
  function VariantType(docs: seq<seq<App>>, id: string): (r: string)
    ensures IsVariantType(r)
    ensures |docs| == 0 ==> r == ""
  {
    VariantTypeFrom("", docs, id)
  }

  /** Some variant document's matched type contains `word`. */
  predicate Seen(docs: seq<seq<App>>, id: string, word: string) {
    exists k :: 0 <= k < |docs| && MatchedType(docs[k], id).Some? && Contains(MatchedType(docs[k], id).value, word)
  }

  /** The rank of the strongest keyword of a type: sub 3, ort 2, int 1. */
  function KeywordRank(t: string): (r: nat)
    ensures r <= 3
  {
    if Contains(t, "sub") then 3 else if Contains(t, "ort") then 2 else if Contains(t, "int") then 1 else 0
  }

  function TypeOfRank(k: nat): string {
    if k >= 3 then "sub" else if k == 2 then "ort" else if k == 1 then "int" else ""
  }

  function Max(a: nat, b: nat): nat {
    if a >= b then a else b
  }

  /** Refining keeps the stronger of the current type and the new one. */
  lemma RefineIsMax(k: nat, t: string)
    requires k <= 3
    ensures Refine(TypeOfRank(k), t) == TypeOfRank(Max(k, KeywordRank(t)))
  {
  }

  /** The strongest keyword rank over the documents read. */
  function BestRank(docs: seq<seq<App>>, id: string): (r: nat)
    ensures r <= 3
  {
    if |docs| == 0 then 0
    else
      var t := MatchedType(docs[0], id);
      Max(if t.Some? then KeywordRank(t.value) else 0, BestRank(docs[1..], id))
  }

  lemma {:induction false} VariantTypeFromBest(k: nat, docs: seq<seq<App>>, id: string)
    requires k <= 3
    ensures VariantTypeFrom(TypeOfRank(k), docs, id) == TypeOfRank(Max(k, BestRank(docs, id)))
    decreases |docs|
  {
    if |docs| > 0 {
      var t := MatchedType(docs[0], id);
      var k' := if t.Some? then Max(k, KeywordRank(t.value)) else k;
      if t.Some? {
        RefineIsMax(k, t.value);
      }
      VariantTypeFromBest(k', docs[1..], id);
    }
  }

  /** `BestRank` reaches a rank exactly when a keyword of that rank or a
      stronger one is seen. */
  lemma {:induction false} BestRankSeen(docs: seq<seq<App>>, id: string)
    ensures BestRank(docs, id) >= 3 <==> Seen(docs, id, "sub")
    ensures BestRank(docs, id) >= 2 <==> Seen(docs, id, "sub") || Seen(docs, id, "ort")
    ensures BestRank(docs, id) >= 1 <==> Seen(docs, id, "sub") || Seen(docs, id, "ort") || Seen(docs, id, "int")
    decreases |docs|
  {
    if |docs| > 0 {
      BestRankSeen(docs[1..], id);
      forall w, k | 0 <= k < |docs[1..]|
        ensures (MatchedType(docs[1..][k], id).Some? && Contains(MatchedType(docs[1..][k], id).value, w))
            == (MatchedType(docs[k + 1], id).Some? && Contains(MatchedType(docs[k + 1], id).value, w))
      {
        assert docs[1..][k] == docs[k + 1];
      }
      forall w | Seen(docs, id, w)
        ensures (MatchedType(docs[0], id).Some? && Contains(MatchedType(docs[0], id).value, w)) || Seen(docs[1..], id, w)
      {
        var k :| 0 <= k < |docs| && MatchedType(docs[k], id).Some? && Contains(MatchedType(docs[k], id).value, w);
        if k > 0 {
          assert docs[1..][k - 1] == docs[k];
        }
      }
      forall w | Seen(docs[1..], id, w)
        ensures Seen(docs, id, w)
      {
        var k :| 0 <= k < |docs[1..]| && MatchedType(docs[1..][k], id).Some? && Contains(MatchedType(docs[1..][k], id).value, w);
        assert docs[1..][k] == docs[k + 1];
      }
    }
  }

  /** The priority of `ProcessVariants`: "sub" wins over "ort", which wins
      over "int", over all variant documents together; no keyword, no
      type. */
  lemma VariantTypePriority(docs: seq<seq<App>>, id: string)
    ensures VariantType(docs, id) == "sub" <==> Seen(docs, id, "sub")
    ensures VariantType(docs, id) == "ort" <==> !Seen(docs, id, "sub") && Seen(docs, id, "ort")
    ensures VariantType(docs, id) == "int" <==> !Seen(docs, id, "sub") && !Seen(docs, id, "ort") && Seen(docs, id, "int")
    ensures VariantType(docs, id) == "" <==> !Seen(docs, id, "sub") && !Seen(docs, id, "ort") && !Seen(docs, id, "int")
  {
    VariantTypeFromBest(0, docs, id);
    BestRankSeen(docs, id);
  }

  /** One `app` of the document after `ProcessVariants`: its old type is
      dropped, and an app with an id gets the type its variants agree on
      when there is one. */
  function ProcessApp(app: App, docs: seq<seq<App>>): (r: App)
    ensures r.id == app.id
    ensures r.kind.None? <==> app.id.None? || VariantType(docs, app.id.value) == ""
    ensures r.kind.Some? ==> r.kind.value == VariantType(docs, app.id.value)
  {
    if app.id.Some? && |VariantType(docs, app.id.value)| > 0 then App(app.id, Some(VariantType(docs, app.id.value)))
    else App(app.id, None)
  }

  function ProcessVariants(apps: seq<App>, docs: seq<seq<App>>): (r: seq<App>)
    ensures |r| == |apps|
    ensures forall i :: 0 <= i < |apps| ==> r[i] == ProcessApp(apps[i], docs)
  {
    seq(|apps|, i requires 0 <= i < |apps| => ProcessApp(apps[i], docs))
  }

  /** The old types play no part: running the pass again changes nothing. */
  lemma ProcessVariantsIdempotent(apps: seq<App>, docs: seq<seq<App>>)
    ensures ProcessVariants(ProcessVariants(apps, docs), docs) == ProcessVariants(apps, docs)
  {
    var once := ProcessVariants(apps, docs);
    forall i | 0 <= i < |apps|
      ensures ProcessApp(once[i], docs) == once[i]
    {
      assert once[i] == ProcessApp(apps[i], docs);
    }
  }

  // ---------------------------------------------------------------------
  // Header metadata

  /** The elements under `profileDesc/creation` that `SetMetadata`
      writes. */
  datatype Field = OrigDate | IdNo | BookId | Collection | Group | MainTitle

  /** The part of a TEI header `SetMetadata` touches: the text (if any) of
      each present creation field, and the `catRef` targets of
      `textClass`. */
  datatype Header = Header(fields: map<Field, Option<string>>, catRefs: set<string>)

  const Genres: map<string, string> := map[
    "lyrik" := "cg_poem",
    "drama" := "cg_drama",
    "historia och geografi" := "cg_nonfiction",
    "dagböcker" := "cg_diary",
    "prosa" := "cg_prose",
    "brev" := "cg_letter",
    "barnlitteratur" := "cg_childrensliterature",
    "kontrakt" := "cg_nonfiction"]

  const TextTypes: map<string, string> := map[
    "est" := "ce_readingtext",
    "com" := "ce_annotations",
    "ms" := "ce_manuscript",
    "var" := "ce_version"]

  lemma LowerIdempotent(s: string)
    ensures Lower(Lower(s)) == Lower(s)
  {
  }

  /** The catRef target of a genre: its lower-case form, mapped when the
      table knows it. */
  function GenreTarget(genre: string): string {
    var g := Lower(genre);
    if g in Genres then Genres[g] else g
  }

  /** The catRef target of a text type. The source tests the lower-cased
      form a second time before indexing with it; the two agree. */
  function TextClass(textType: string): string {
    var t := Lower(textType);
    if Lower(t) in TextTypes then LowerIdempotent(textType); TextTypes[t] else t
  }

  /** Mapping ignores case. */
  lemma TargetsIgnoreCase(s: string)
    ensures GenreTarget(Lower(s)) == GenreTarget(s)
    ensures TextClass(Lower(s)) == TextClass(s)
  {
    LowerIdempotent(s);
  }

  lemma TargetExamples()
    ensures GenreTarget("Lyrik") == "cg_poem"
    ensures TextClass("EST") == "ce_readingtext"
    ensures GenreTarget("Essay") == "essay"
  {
    assert Lower("Lyrik") == "lyrik";
    assert Lower("EST") == "est";
    assert Lower("est") == "est";
    assert Lower("Essay") == "essay";
  }

  /** A field written from a non-empty value. */
  function Written(fields: map<Field, Option<string>>, f: Field, value: string): map<Field, Option<string>> {
    if |value| > 0 then fields[f := Some(value)] else fields
  }

  /** The book id: the part of the item id before its first `_`; without
      a `_` the element is created but an existing text is kept. */
  function BookIdText(fields: map<Field, Option<string>>, itemId: string): Option<string> {
    var u := FindFrom(itemId, "_", 0);
    if u >= 0 then Some(itemId[..u])
    else if BookId in fields then fields[BookId]
    else None
  }

  /** Whether `SetMetadata` writes field `f` from its arguments. */
  predicate Given(f: Field, origDate: string, itemId: string, mainTitle: string, collectionId: string, groupId: string) {
    match f
    case OrigDate => origDate != ""
    case IdNo => itemId != ""
    case BookId => itemId != ""
    case Collection => collectionId != ""
    case Group => groupId != ""
    case MainTitle => mainTitle != ""
  }

  /** The `creation` part of `SetMetadata`: each non-empty argument
      replaces the text of its element, creating it when missing. */
  function SetCreation(fields: map<Field, Option<string>>, origDate: string, itemId: string, mainTitle: string,
                       collectionId: string, groupId: string): (r: map<Field, Option<string>>)
    ensures forall f :: Given(f, origDate, itemId, mainTitle, collectionId, groupId) ==> f in r
    ensures forall f :: !Given(f, origDate, itemId, mainTitle, collectionId, groupId) ==>
              (f in r <==> f in fields) && (f in fields ==> r[f] == fields[f])
    ensures origDate != "" ==> OrigDate in r && r[OrigDate] == Some(origDate)
    ensures itemId != "" ==> IdNo in r && r[IdNo] == Some(itemId)
    ensures itemId != "" && !Contains(itemId, "_") ==>
              BookId in r && r[BookId] == if BookId in fields then fields[BookId] else None
    ensures collectionId != "" ==> Collection in r && r[Collection] == Some(collectionId)
    ensures groupId != "" ==> Group in r && r[Group] == Some(groupId)
    ensures mainTitle != "" ==> MainTitle in r && r[MainTitle] == Some(mainTitle)
  {
    var f := Written(fields, OrigDate, origDate);
    var f := if |itemId| > 0 then f[IdNo := Some(itemId)][BookId := BookIdText(f, itemId)] else f;
    Written(Written(Written(f, Collection, collectionId), Group, groupId), MainTitle, mainTitle)
  }

  /** An item id with a `_` gives the book id its first `_`-separated
      piece. */
  lemma BookIdPiece(fields: map<Field, Option<string>>, origDate: string, itemId: string, mainTitle: string,
                    collectionId: string, groupId: string)
    requires Contains(itemId, "_")
    ensures SetCreation(fields, origDate, itemId, mainTitle, collectionId, groupId)[BookId] == Some(Split(itemId, "_")[0])
    ensures !Contains(Split(itemId, "_")[0], "_")
  {
    var u := FindFrom(itemId, "_", 0);
    assert Split(itemId, "_")[0] == itemId[..u];
    FoundAt(itemId[..u], "_", 0);
    forall j | 0 <= j
      ensures !OccursAt(itemId[..u], "_", j)
    {
      if OccursAt(itemId[..u], "_", j) {
        OccursInPrefix(itemId, "_", u, j);
      }
    }
  }

  /** The `textClass` part of `SetMetadata`: a non-empty genre and a
      non-empty text class each add their catRef target. */
  function AddTargets(refs: set<string>, genre: string, textType: string): (r: set<string>)
    ensures refs <= r
    ensures forall c :: c in r && c !in refs ==>
              (c == GenreTarget(genre) && genre != "") || (c == TextClass(textType) && c != "")
    ensures genre != "" ==> GenreTarget(genre) in r
    ensures TextClass(textType) != "" ==> TextClass(textType) in r
  {
    var g := Lower(genre);
    var refs := if |g| > 0 then refs + {GenreTarget(genre)} else refs;
    var c := TextClass(textType);
    if |c| > 0 then refs + {c} else refs
  }

  /** `SetMetadata`: the creation fields given by the arguments, and a
      catRef for the genre and one for the text type. */
  function SetMetadata(h: Header, origDate: string, itemId: string, mainTitle: string, genre: string,
                       textType: string, collectionId: string, groupId: string): (r: Header)
    ensures h.catRefs <= r.catRefs
    ensures forall c :: c in r.catRefs && c !in h.catRefs ==>
              (c == GenreTarget(genre) && genre != "") || (c == TextClass(textType) && c != "")
    ensures forall f :: !Given(f, origDate, itemId, mainTitle, collectionId, groupId) ==>
              (f in r.fields <==> f in h.fields) && (f in h.fields ==> r.fields[f] == h.fields[f])
    ensures itemId != "" ==> IdNo in r.fields && r.fields[IdNo] == Some(itemId)
  {
    Header(SetCreation(h.fields, origDate, itemId, mainTitle, collectionId, groupId),
           AddTargets(h.catRefs, genre, textType))
  }

  /** Writing the same creation fields twice leaves them as after once. */
  lemma SetCreationIdempotent(fields: map<Field, Option<string>>, origDate: string, itemId: string, mainTitle: string,
                              collectionId: string, groupId: string)
    ensures var once := SetCreation(fields, origDate, itemId, mainTitle, collectionId, groupId);
            SetCreation(once, origDate, itemId, mainTitle, collectionId, groupId) == once
  {
    var once := SetCreation(fields, origDate, itemId, mainTitle, collectionId, groupId);
    var twice := SetCreation(once, origDate, itemId, mainTitle, collectionId, groupId);
    if Contains(itemId, "_") {
      BookIdPiece(fields, origDate, itemId, mainTitle, collectionId, groupId);
      BookIdPiece(once, origDate, itemId, mainTitle, collectionId, groupId);
    }
    forall f
      ensures (f in twice <==> f in once) && (f in once ==> twice[f] == once[f])
    {
      if Given(f, origDate, itemId, mainTitle, collectionId, groupId) {
        assert f in once && f in twice;
      }
    }
    assert twice.Keys == once.Keys;
  }

  /** Writing the same metadata twice leaves the header as after once:
      existing elements are reused, not duplicated. This holds in the
      header abstraction, where every element the code writes is found
      again by its lookup; the source creates some elements with
      `ET.SubElement(parent, 'creation')`, without the TEI namespace, and
      a second call in the same session would not find those by their
      `tei:`-prefixed queries. */
  lemma SetMetadataIdempotent(h: Header, origDate: string, itemId: string, mainTitle: string, genre: string,
                              textType: string, collectionId: string, groupId: string)
    ensures var once := SetMetadata(h, origDate, itemId, mainTitle, genre, textType, collectionId, groupId);
            SetMetadata(once, origDate, itemId, mainTitle, genre, textType, collectionId, groupId) == once
  {
    SetCreationIdempotent(h.fields, origDate, itemId, mainTitle, collectionId, groupId);
    var refs := AddTargets(h.catRefs, genre, textType);
    assert AddTargets(refs, genre, textType) == refs;
  }
}
