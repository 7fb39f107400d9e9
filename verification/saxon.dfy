/** The bookkeeping helpers of `sls_api/scripts/saxon_xml_document.py`:
    the namespace registry, blank-line removal, comment ids and the line
    break after an XML declaration. The Saxon processor itself is not
    part of this model. */
module Saxon {
  import opened Wrappers
  import opened PyStrings

  // ---------------------------------------------------------------------
  // Namespace registry

  datatype Namespace = Namespace(prefix: string, uri: string)

  const DefaultNamespaces: seq<Namespace> := [
    Namespace("xml", "http://www.w3.org/XML/1998/namespace"),
    Namespace("tei", "http://www.tei-c.org/ns/1.0")]

  /** No two entries share a prefix, and no two share a URI. */
  predicate Distinct(ns: seq<Namespace>) {
    forall i, j :: 0 <= i < j < |ns| ==> ns[i].prefix != ns[j].prefix && ns[i].uri != ns[j].uri
  }

  /** The registry a document starts with: the given list, or the default
      pair when none (or an empty one) is given. */
  function InitialNamespaces(given: Option<seq<Namespace>>): (r: seq<Namespace>)
    ensures |r| > 0
    ensures given.Some? && |given.value| > 0 ==> r == given.value
  {
    if given.Some? && |given.value| > 0 then given.value else DefaultNamespaces
  }

  /** The scan of `add_namespace`: some entry has the prefix or the URI. */
  function Clashes(ns: seq<Namespace>, prefix: string, uri: string): (r: bool)
    ensures r <==> exists i :: 0 <= i < |ns| && (ns[i].prefix == prefix || ns[i].uri == uri)
  {
    if |ns| == 0 then false
    else if ns[0].prefix == prefix || ns[0].uri == uri then true
    else
      var r := Clashes(ns[1..], prefix, uri);
      assert forall i :: 1 <= i < |ns| ==> ns[i] == ns[1..][i - 1];
      r
  }

  /** `add_namespace`: whether the entry was added, and the registry
      afterwards. */
  function AddNamespace(ns: seq<Namespace>, prefix: string, uri: string): (r: (bool, seq<Namespace>))
    ensures r.0 <==> forall i :: 0 <= i < |ns| ==> ns[i].prefix != prefix && ns[i].uri != uri
    ensures r.0 ==> r.1 == ns + [Namespace(prefix, uri)]
    ensures !r.0 ==> r.1 == ns
  {
    if Clashes(ns, prefix, uri) then (false, ns) else (true, ns + [Namespace(prefix, uri)])
  }

  /** Adding keeps the registry free of duplicate prefixes and URIs. */
  lemma AddKeepsDistinct(ns: seq<Namespace>, prefix: string, uri: string)
    requires Distinct(ns)
    ensures Distinct(AddNamespace(ns, prefix, uri).1)
  {
  }

  /** The registry after a sequence of `add_namespace` calls. */
  function Registry(start: seq<Namespace>, calls: seq<Namespace>): seq<Namespace>
    decreases |calls|
  {
    if |calls| == 0 then start
    else Registry(AddNamespace(start, calls[0].prefix, calls[0].uri).1, calls[1..])
  }

  /** From the default pair, no sequence of calls can introduce a
      duplicate prefix or URI. */
  lemma {:induction false} RegistryDistinct(start: seq<Namespace>, calls: seq<Namespace>)
    requires Distinct(start)
    ensures Distinct(Registry(start, calls))
    decreases |calls|
  {
    if |calls| > 0 {
      AddKeepsDistinct(start, calls[0].prefix, calls[0].uri);
      RegistryDistinct(AddNamespace(start, calls[0].prefix, calls[0].uri).1, calls[1..]);
    }
  }

  lemma DefaultRegistryDistinct(calls: seq<Namespace>)
    ensures Distinct(Registry(InitialNamespaces(None), calls))
  {
    RegistryDistinct(DefaultNamespaces, calls);
  }

  /** A second call with the same prefix is refused and changes nothing. */
  lemma AddTwice(ns: seq<Namespace>, prefix: string, uri: string)
    ensures var once := AddNamespace(ns, prefix, uri).1;
            AddNamespace(once, prefix, uri) == (false, once)
  {
    var once := AddNamespace(ns, prefix, uri).1;
    if !Clashes(ns, prefix, uri) {
      assert once[|ns|].prefix == prefix;
    }
  }

  // ---------------------------------------------------------------------
  // Blank lines

  /** A line holds content: its `strip()` is non-empty. */
  predicate HasContent(line: string) {
    Strip(line) != ""
  }

  /** The lines with content, in order. */
  function KeepContent(lines: seq<string>): (r: seq<string>)
    ensures |r| <= |lines|
    ensures forall k :: 0 <= k < |r| ==> HasContent(r[k])
  {
    if |lines| == 0 then []
    else if HasContent(lines[0]) then [lines[0]] + KeepContent(lines[1..])
    else KeepContent(lines[1..])
  }

  /** A line is kept exactly when it is one of the lines and has content. */
  lemma {:induction false} KeepContentExact(lines: seq<string>, l: string)
    ensures l in KeepContent(lines) <==> l in lines && HasContent(l)
    decreases |lines|
  {
    if |lines| > 0 {
      KeepContentExact(lines[1..], l);
      assert l in lines <==> l == lines[0] || l in lines[1..];
    }
  }

  lemma {:induction false} KeepContentAll(lines: seq<string>)
    requires forall k :: 0 <= k < |lines| ==> HasContent(lines[k])
    ensures KeepContent(lines) == lines
    decreases |lines|
  {
    if |lines| > 0 {
      KeepContentAll(lines[1..]);
    }
  }

  /** `_remove_blank_lines`: the lines of `s` that have content, joined
      again with their own line ends; never longer than `s`. */
  function RemoveBlankLines(s: string): (r: string)
    ensures |r| <= |s|
  {
    KeepContentShorter(SplitLinesKeepEnds(s));
    ConcatSplitLines(s);
    Concat(KeepContent(SplitLinesKeepEnds(s)))
  }

  /** The kept lines hold no more characters than all the lines. */
  lemma {:induction false} KeepContentShorter(lines: seq<string>)
    ensures |Concat(KeepContent(lines))| <= |Concat(lines)|
    decreases |lines|
  {
    if |lines| > 0 {
      KeepContentShorter(lines[1..]);
    }
  }

  /** `l` is a single line: `splitlines` finds no earlier line end in it. */
  predicate IsLine(l: string) {
    |l| > 0 && LineLen(l) == |l|
  }

  predicate EndsWithBreak(l: string) {
    |l| > 0 && IsLineBreak(l[|l| - 1])
  }

  /** `next` can follow `l` as the next line: `l` ends in a break that
      `next` does not extend ("\r" followed by "\n" would be one break). */
  predicate Follows(l: string, next: string) {
    EndsWithBreak(l) && |next| > 0 && !(l[|l| - 1] == '\r' && next[0] == '\n')
  }

  /** Lines as `splitlines` cuts them: each a single line, each followed
      by the next. */
  predicate Lines(lines: seq<string>)
    decreases |lines|
  {
    |lines| == 0 ||
    (IsLine(lines[0]) && (|lines| > 1 ==> Follows(lines[0], lines[1])) && Lines(lines[1..]))
  }

  /** The first line is cut the same way from a longer string. */
  lemma {:induction false} LineLenPrefix(s: string)
    requires |s| > 0
    ensures LineLen(s[..LineLen(s)]) == LineLen(s)
    decreases |s|
  {
    var n := LineLen(s);
    var t := s[..n];
    if s[0] == '\r' && |s| > 1 && s[1] == '\n' {
      assert t == "\r\n";
    } else if IsLineBreak(s[0]) || |s| == 1 {
    } else {
      LineLenPrefix(s[1..]);
      assert t[1..] == s[1..][..LineLen(s[1..])];
    }
  }

  /** A line cut from the middle of a string ends in a line break. */
  lemma {:induction false} LineLenBreak(s: string)
    requires |s| > 0 && LineLen(s) < |s|
    ensures IsLineBreak(s[LineLen(s) - 1])
    decreases |s|
  {
    if !(s[0] == '\r' && |s| > 1 && s[1] == '\n') && !IsLineBreak(s[0]) && |s| > 1 {
      LineLenBreak(s[1..]);
    }
  }

  /** A single line ending in a break stays a line when more text
      follows, unless "\r" meets "\n". */
  lemma {:induction false} LineLenAppend(l: string, rest: string)
    requires IsLine(l)
    requires |rest| > 0 ==> EndsWithBreak(l) && !(l[|l| - 1] == '\r' && rest[0] == '\n')
    ensures LineLen(l + rest) == |l|
    decreases |l|
  {
    var s := l + rest;
    if l[0] == '\r' && |l| > 1 && l[1] == '\n' {
    } else if |l| == 1 {
    } else {
      assert !IsLineBreak(l[0]);
      assert s[1..] == l[1..] + rest;
      LineLenAppend(l[1..], rest);
    }
  }

  /** `splitlines` never ends a line between "\r" and "\n". */
  lemma {:induction false} LineLenCarriage(s: string)
    requires |s| > 0 && LineLen(s) < |s|
    ensures !(s[LineLen(s) - 1] == '\r' && s[LineLen(s)] == '\n')
    decreases |s|
  {
    if !(s[0] == '\r' && |s| > 1 && s[1] == '\n') && !IsLineBreak(s[0]) && |s| > 1 {
      LineLenCarriage(s[1..]);
    }
  }

  /** `splitlines(keepends=True)` cuts into `Lines`. */
  lemma {:induction false} SplitLinesAreLines(s: string)
    ensures Lines(SplitLinesKeepEnds(s))
    decreases |s|
  {
    if |s| > 0 {
      var n := LineLen(s);
      var rest := SplitLinesKeepEnds(s[n..]);
      SplitLinesAreLines(s[n..]);
      LineLenPrefix(s);
      var lines := SplitLinesKeepEnds(s);
      assert lines[1..] == rest;
      if |rest| > 0 {
        LineLenBreak(s);
        LineLenCarriage(s);
        assert rest[0] == s[n..][..LineLen(s[n..])];
        assert rest[0][0] == s[n];
      }
    }
  }

  /** Concatenating `Lines` and splitting again gives them back. */
  lemma {:induction false} SplitConcatLines(lines: seq<string>)
    requires Lines(lines)
    ensures SplitLinesKeepEnds(Concat(lines)) == lines
    decreases |lines|
  {
    if |lines| > 0 {
      var l := lines[0];
      var rest := Concat(lines[1..]);
      if |lines| > 1 {
        assert rest == lines[1] + Concat(lines[2..]);
        assert rest[0] == lines[1][0];
      }
      LineLenAppend(l, rest);
      var s := l + rest;
      assert s[..|l|] == l && s[|l|..] == rest;
      SplitConcatLines(lines[1..]);
      assert lines == [l] + lines[1..];
    }
  }

  /** A line with content does not start with "\n". */
  lemma ContentLineStart(l: string)
    requires IsLine(l) && HasContent(l)
    ensures l[0] != '\n'
  {
    if l[0] == '\n' {
      StripEmptyIff(l);
    }
  }

  /** Dropping the blank lines of `Lines` leaves `Lines`. */
  lemma {:induction false} KeepContentLines(lines: seq<string>)
    requires Lines(lines)
    ensures Lines(KeepContent(lines))
    decreases |lines|
  {
    if |lines| > 0 {
      KeepContentLines(lines[1..]);
      var rest := KeepContent(lines[1..]);
      if HasContent(lines[0]) {
        var r := [lines[0]] + rest;
        assert r[1..] == rest;
        if |rest| > 0 {
          ContentLineStart(rest[0]);
        }
      }
    }
  }

  /** Removing blank lines keeps exactly the lines with content. */
  lemma RemoveBlankLinesKeeps(s: string)
    ensures SplitLinesKeepEnds(RemoveBlankLines(s)) == KeepContent(SplitLinesKeepEnds(s))
  {
    SplitLinesAreLines(s);
    KeepContentLines(SplitLinesKeepEnds(s));
    SplitConcatLines(KeepContent(SplitLinesKeepEnds(s)));
  }

  /** `_remove_blank_lines` is idempotent. */
  lemma RemoveBlankLinesIdempotent(s: string)
    ensures RemoveBlankLines(RemoveBlankLines(s)) == RemoveBlankLines(s)
  {
    var kept := KeepContent(SplitLinesKeepEnds(s));
    RemoveBlankLinesKeeps(s);
    KeepContentAll(kept);
  }

  // ---------------------------------------------------------------------
  // Comment ids

  function InvalidId(id: string): string {
    "Invalid ID: '" + id + "' is not convertible to an integer."
  }

  /** Python's `s[i:]`, empty past the end. */
  function SuffixFrom(s: string, i: nat): string {
    if i <= |s| then s[i..] else ""
  }

  /** The anchor ids the XPath query of `get_all_comment_ids` selects:
      those starting with "start", in document order. */
  function NoteStarts(anchorIds: seq<string>): (r: seq<string>)
    ensures |r| <= |anchorIds|
    ensures forall k :: 0 <= k < |r| ==> StartsWith(r[k], "start") && r[k] in anchorIds
    ensures forall x :: x in anchorIds && StartsWith(x, "start") ==> x in r
  {
    if |anchorIds| == 0 then []
    else
      var rest := NoteStarts(anchorIds[1..]);
      assert forall x :: x in anchorIds[1..] ==> x in anchorIds;
      if StartsWith(anchorIds[0], "start") then [anchorIds[0]] + rest else rest
  }

  /** One anchor is selected exactly when its id starts with "start". */
  lemma NoteStartsOne(id: string)
    ensures NoteStarts([id]) == if StartsWith(id, "start") then [id] else []
  {
    assert [id][1..] == [];
  }

  /** The selected ids of two runs of anchors are those of the first
      followed by those of the second: every "start" id is selected, in
      document order. */
  lemma {:induction false} NoteStartsAppend(a: seq<string>, b: seq<string>)
    ensures NoteStarts(a + b) == NoteStarts(a) + NoteStarts(b)
    decreases |a|
  {
    if |a| == 0 {
      assert a + b == b;
    } else {
      NoteStartsAppend(a[1..], b);
      assert (a + b)[0] == a[0];
      assert (a + b)[1..] == a[1..] + b;
    }
  }

  /** The loop of `get_all_comment_ids` over a given conversion: the
      converted value of each id, or the error naming the first id that
      does not convert. */
  function ConvertAll(ids: seq<string>, conv: string -> Option<int>): (r: Result<seq<int>, string>)
    ensures r.Success? ==> |r.value| == |ids|
  {
    if |ids| == 0 then Success([])
    else
      match conv(ids[0])
      case None => Failure(InvalidId(ids[0]))
      case Some(n) =>
        var rest := ConvertAll(ids[1..], conv);
        if rest.Success? then Success([n] + rest.value) else rest
  }

  /** The loop of `get_all_comment_ids`: `int(id[5:])` of each selected
      id, or the `ValueError` for the first one that does not convert. */
  function ParseCommentIds(ids: seq<string>): (r: Result<seq<int>, string>)
    ensures r.Success? ==> |r.value| == |ids|
  {
    ConvertAll(ids, Converted)
  }

  /** `get_all_comment_ids`: one value per selected id when it succeeds. */
  function CommentIds(anchorIds: seq<string>): (r: Result<seq<int>, string>)
    ensures r.Success? ==> |r.value| == |NoteStarts(anchorIds)|
  {
    ParseCommentIds(NoteStarts(anchorIds))
  }

  /** The conversion `int(id[5:])` the loop applies to each id. */
  function Converted(id: string): Option<int> {
    ParseInt(SuffixFrom(id, 5))
  }

  /** The loop succeeds exactly when every id converts, and then each
      value is the conversion of the id at the same place. */
  lemma {:induction false} ConvertAllSuccess(ids: seq<string>, conv: string -> Option<int>)
    ensures ConvertAll(ids, conv).Success? <==> forall k :: 0 <= k < |ids| ==> conv(ids[k]).Some?
    ensures ConvertAll(ids, conv).Success? ==>
              forall k :: 0 <= k < |ids| ==> conv(ids[k]) == Some(ConvertAll(ids, conv).value[k])
    decreases |ids|
  {
    if |ids| > 0 {
      var tail := ids[1..];
      ConvertAllSuccess(tail, conv);
      var h := conv(ids[0]);
      var rest := ConvertAll(tail, conv);
      var r := ConvertAll(ids, conv);
      if h.Some? && rest.Success? {
        assert r == Success([h.value] + rest.value);
        forall k | 0 <= k < |ids|
          ensures conv(ids[k]) == Some(r.value[k])
        {
          if k > 0 {
            assert ids[k] == tail[k - 1];
            assert r.value[k] == rest.value[k - 1];
          }
        }
      } else if h.Some? {
        assert r.Failure?;
        var k :| 0 <= k < |tail| && conv(tail[k]).None?;
        assert ids[k + 1] == tail[k];
      } else {
        assert r.Failure?;
      }
    }
  }

  /** Success exactly when every id converts, and then each number is the
      conversion of the id at the same place. */
  lemma ParseCommentIdsSuccess(ids: seq<string>)
    ensures ParseCommentIds(ids).Success? <==> forall k :: 0 <= k < |ids| ==> Converted(ids[k]).Some?
    ensures ParseCommentIds(ids).Success? ==>
              forall k :: 0 <= k < |ids| ==> Converted(ids[k]) == Some(ParseCommentIds(ids).value[k])
  {
    ConvertAllSuccess(ids, Converted);
  }

  /** The index of the first id a conversion rejects, or the number of ids
      when it accepts all. */
  function FirstRejected(ids: seq<string>, conv: string -> Option<int>): (k: nat)
    ensures k <= |ids|
  {
    if |ids| == 0 || conv(ids[0]).None? then 0 else FirstRejected(ids[1..], conv) + 1
  }

  /** The index of the first id that does not convert, or the number of
      ids when all do. */
  function FirstUnconverted(ids: seq<string>): (k: nat)
    ensures k <= |ids|
  {
    FirstRejected(ids, Converted)
  }

  /** The facts about `ids[1..]` that carry over to `ids` one place on. */
  lemma Shifted(ids: seq<string>, conv: string -> Option<int>, k: nat)
    requires 0 < |ids| && conv(ids[0]).Some? && k <= |ids| - 1
    requires forall j :: 0 <= j < k ==> conv(ids[1..][j]).Some?
    requires k < |ids| - 1 ==> conv(ids[1..][k]).None?
    ensures forall j :: 0 <= j < k + 1 ==> conv(ids[j]).Some?
    ensures k + 1 < |ids| ==> conv(ids[k + 1]).None?
  {
    forall j | 0 < j < k + 1
      ensures conv(ids[j]).Some?
    {
      assert ids[j] == ids[1..][j - 1];
    }
    if k + 1 < |ids| {
      assert ids[k + 1] == ids[1..][k];
    }
  }

  /** Every id before the first rejected one is accepted; that one is
      not. */
  lemma {:induction false} FirstRejectedIsFirst(ids: seq<string>, conv: string -> Option<int>)
    ensures forall j :: 0 <= j < FirstRejected(ids, conv) ==> conv(ids[j]).Some?
    ensures FirstRejected(ids, conv) < |ids| ==> conv(ids[FirstRejected(ids, conv)]).None?
    decreases |ids|
  {
    if |ids| > 0 && conv(ids[0]).Some? {
      FirstRejectedIsFirst(ids[1..], conv);
      Shifted(ids, conv, FirstRejected(ids[1..], conv));
    }
  }

  /** Every id before that index converts; the id at it does not. */
  lemma FirstUnconvertedIsFirst(ids: seq<string>)
    ensures forall j :: 0 <= j < FirstUnconverted(ids) ==> Converted(ids[j]).Some?
    ensures FirstUnconverted(ids) < |ids| ==> Converted(ids[FirstUnconverted(ids)]).None?
  {
    FirstRejectedIsFirst(ids, Converted);
  }

  /** The loop fails exactly when some id is rejected, naming the first. */
  lemma {:induction false} ConvertAllFailure(ids: seq<string>, conv: string -> Option<int>)
    ensures ConvertAll(ids, conv).Failure? <==> FirstRejected(ids, conv) < |ids|
    ensures ConvertAll(ids, conv).Failure? ==> ConvertAll(ids, conv).error == InvalidId(ids[FirstRejected(ids, conv)])
    decreases |ids|
  {
    if |ids| > 0 && conv(ids[0]).Some? {
      ConvertAllFailure(ids[1..], conv);
      assert ids[1..][FirstRejected(ids[1..], conv)..] == ids[FirstRejected(ids, conv)..];
    }
  }

  /** A failure names the first id that does not convert. */
  lemma ParseCommentIdsFailure(ids: seq<string>)
    ensures ParseCommentIds(ids).Failure? <==> FirstUnconverted(ids) < |ids|
    ensures ParseCommentIds(ids).Failure? ==> ParseCommentIds(ids).error == InvalidId(ids[FirstUnconverted(ids)])
  {
    ConvertAllFailure(ids, Converted);
  }

  /** Anchors written as "start" followed by `str(n)` read back as `n`. */
  lemma CommentIdsRoundTrip(ns: seq<int>, ids: seq<string>)
    requires |ids| == |ns|
    requires forall k :: 0 <= k < |ids| ==> ids[k] == "start" + IntToString(ns[k])
    ensures ParseCommentIds(ids) == Success(ns)
  {
    forall k | 0 <= k < |ids|
      ensures Converted(ids[k]) == Some(ns[k])
    {
      assert SuffixFrom(ids[k], 5) == IntToString(ns[k]);
      ParseIntToString(ns[k]);
    }
    ParseCommentIdsSuccess(ids);
    assert ParseCommentIds(ids).value == ns;
  }

  // ---------------------------------------------------------------------
  // Line break after the XML declaration

  /** Length of a match of `<\?xml[^>]+\?>` at the start of `s`, or 0:
      "<?xml", then at least one character up to the first ">", which
      must follow a "?". */
  function DeclarationLen(s: string): (n: nat)
    ensures n > 0 ==> 7 < n <= |s| && StartsWith(s, "<?xml") && s[n - 2..n] == "?>"
  {
    if StartsWith(s, "<?xml") then
      var g := FindFrom(s, ">", 5);
      if g >= 7 && s[g - 1] == '?' then
        FoundAt(s, ">", 5);
        assert s[g..g + 1] == ">";
        g + 1
      else 0
    else 0
  }

  /** `_format_xml_with_line_endings`: a line break after every match,
      scanning from the left. */
  function FormatXmlWithLineEndings(s: string): (r: string)
    ensures |r| >= |s|
    decreases |s|
  {
    if |s| == 0 then ""
    else
      var n := DeclarationLen(s);
      if n > 0 then s[..n] + "\n" + FormatXmlWithLineEndings(s[n..])
      else [s[0]] + FormatXmlWithLineEndings(s[1..])
  }

  /** A text without an XML declaration is left as it is. */
  lemma {:induction false} FormatWithoutDeclaration(s: string)
    requires !Contains(s, "<?xml")
    ensures FormatXmlWithLineEndings(s) == s
    decreases |s|
  {
    if |s| > 0 {
      if StartsWith(s, "<?xml") {
        ContainsAt(s, "<?xml", 0);
      }
      assert !Contains(s[1..], "<?xml") by {
        if Contains(s[1..], "<?xml") {
          FoundAt(s[1..], "<?xml", 0);
          OccursInSuffix(s, "<?xml", 1, FindFrom(s[1..], "<?xml", 0));
        }
      }
      FormatWithoutDeclaration(s[1..]);
    }
  }

  /** The first ">" at or after index 5. */
  lemma FirstClose(s: string, g: nat)
    requires 5 <= g < |s| && s[g] == '>'
    requires forall j :: 5 <= j < g ==> s[j] != '>'
    ensures FindFrom(s, ">", 5) == g
  {
    assert OccursAt(s, ">", g) by { assert s[g..g + 1] == ">"; }
    FoundAt(s, ">", 5);
  }

  /** A declaration at the start is followed by a line break, and the
      rest is formatted on its own. */
  lemma LeadingDeclaration(body: string, rest: string)
    requires |body| > 0 && forall i :: 0 <= i < |body| ==> body[i] != '>'
    ensures FormatXmlWithLineEndings("<?xml" + body + "?>" + rest) == "<?xml" + body + "?>\n" + FormatXmlWithLineEndings(rest)
  {
    var d := "<?xml" + body + "?>";
    var s := d + rest;
    DeclarationAtStart(body, rest);
    assert s[..|d|] == d && s[|d|..] == rest;
    assert d + "\n" == "<?xml" + body + "?>\n";
  }

  /** The match at the start of a declaration followed by anything ends
      right after its "?>". */
  lemma DeclarationAtStart(body: string, rest: string)
    requires |body| > 0 && forall i :: 0 <= i < |body| ==> body[i] != '>'
    ensures DeclarationLen("<?xml" + body + "?>" + rest) == |body| + 7
  {
    var d := "<?xml" + body + "?>";
    var s := d + rest;
    var g := |d| - 1;
    assert s[..5] == "<?xml";
    CloseAfterBody(body, rest);
    FirstClose(s, g);
  }

  /** In a declaration followed by anything, the first ">" from index 5
      on is the one of its "?>". */
  lemma CloseAfterBody(body: string, rest: string)
    requires forall i :: 0 <= i < |body| ==> body[i] != '>'
    ensures var s := "<?xml" + body + "?>" + rest; var g := |body| + 6;
      s[g] == '>' && s[g - 1] == '?' && forall j :: 5 <= j < g ==> s[j] != '>'
  {
    var s := "<?xml" + body + "?>" + rest;
    var g := |body| + 6;
    forall j | 5 <= j < g
      ensures s[j] != '>'
    {
      if j < g - 1 {
        assert s[j] == body[j - 5];
      }
    }
  }
}
