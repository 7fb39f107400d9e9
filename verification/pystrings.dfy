/** The parts of Python's `str` behaviour the modelled code relies on:
    `find`, `rfind`, `in`, `split`, `join`, `replace`, `strip`, `lower`,
    `isdigit`, `splitlines(keepends=True)` and `int()` / `str()` on
    integers. Each operation is written after the CPython semantics for
    the arguments the code passes; restrictions are stated in the README. */
module PyStrings {
  import opened Wrappers

  // ---------------------------------------------------------------------
  // Searching

  /** `sub` occurs in `s` at index `i`. */
  predicate OccursAt(s: string, sub: string, i: int) {
    0 <= i && i + |sub| <= |s| && s[i..i + |sub|] == sub
  }

  /** `s.find(sub, start)` for a non-negative start: the least index at or
      after `start` where `sub` occurs, or -1. That `sub` does occur at a
      non-negative result is `FoundAt`, kept apart because the occurrence
      is an expensive fact to carry everywhere. */
  function FindFrom(s: string, sub: string, start: nat): (r: int)
    ensures r == -1 || (start <= r && r + |sub| <= |s|)
    ensures r == -1 ==> forall j :: start <= j ==> !OccursAt(s, sub, j)
    ensures r >= 0 ==> forall j :: start <= j < r ==> !OccursAt(s, sub, j)
    decreases |s| - start
  {
    if start + |sub| > |s| then -1
    else if s[start..start + |sub|] == sub then start
    else FindFrom(s, sub, start + 1)
  }

  /** A non-negative result of `find` is an occurrence. */
  lemma FoundAt(s: string, sub: string, start: nat)
    ensures FindFrom(s, sub, start) >= 0 ==> OccursAt(s, sub, FindFrom(s, sub, start))
    decreases |s| - start
  {
    if start + |sub| <= |s| && s[start..start + |sub|] != sub {
      FoundAt(s, sub, start + 1);
    }
  }

  /** `s.find(sub, start)` including Python's reading of a negative start
      as an offset from the end (clamped at 0). */
  function Find(s: string, sub: string, start: int): int {
    FindFrom(s, sub, if start >= 0 then start else if |s| + start >= 0 then |s| + start else 0)
  }

  /** Largest index `j <= i` where `sub` occurs, or -1. */
  function RFindUpTo(s: string, sub: string, i: int): (r: int)
    ensures r == -1 || (r <= i && OccursAt(s, sub, r))
    ensures forall j :: r < j <= i ==> !OccursAt(s, sub, j)
    decreases if i < 0 then 0 else i + 1
  {
    if i < 0 then -1
    else if OccursAt(s, sub, i) then i
    else RFindUpTo(s, sub, i - 1)
  }

  /** `s.rfind(sub)`: the index of the last occurrence, or -1. */
  function RFind(s: string, sub: string): (r: int)
    ensures r == -1 || OccursAt(s, sub, r)
    ensures forall j :: r < j ==> !OccursAt(s, sub, j)
  {
    RFindUpTo(s, sub, |s| - |sub|)
  }

  /** `s.startswith(prefix)`, also XPath's `starts-with`. */
  predicate StartsWith(s: string, prefix: string) {
    |prefix| <= |s| && s[..|prefix|] == prefix
  }

  /** `sub in s`. */
  predicate Contains(s: string, sub: string) {
    FindFrom(s, sub, 0) >= 0
  }

  lemma ContainsAt(s: string, sub: string, i: int)
    requires OccursAt(s, sub, i)
    ensures Contains(s, sub)
  {
  }

  /** An occurrence inside a prefix is an occurrence in the whole string. */
  lemma OccursInPrefix(s: string, sub: string, n: nat, j: int)
    requires n <= |s|
    requires OccursAt(s[..n], sub, j)
    ensures OccursAt(s, sub, j)
  {
    assert s[..n][j..j + |sub|] == s[j..j + |sub|];
  }

  /** An occurrence inside a suffix is an occurrence in the whole string. */
  lemma OccursInSuffix(s: string, sub: string, n: nat, j: int)
    requires n <= |s|
    requires OccursAt(s[n..], sub, j)
    ensures OccursAt(s, sub, n + j)
  {
    assert s[n..][j..j + |sub|] == s[n + j..n + j + |sub|];
  }

  // ---------------------------------------------------------------------
  // split / join / replace

  /** `s.split(sep)` for a non-empty separator: the pieces between the
      non-overlapping occurrences of `sep`, scanning from the left. */
  function Split(s: string, sep: string): (parts: seq<string>)
    requires |sep| > 0
    ensures |parts| >= 1
    decreases |s|
  {
    var i := FindFrom(s, sep, 0);
    if i < 0 then [s] else [s[..i]] + Split(s[i + |sep|..], sep)
  }

  /** `sep.join(parts)`. */
  function Join(parts: seq<string>, sep: string): string {
    if |parts| == 0 then ""
    else if |parts| == 1 then parts[0]
    else parts[0] + sep + Join(parts[1..], sep)
  }

  /** Splitting and joining with the same separator gives back the string. */
  lemma {:induction false} JoinSplit(s: string, sep: string)
    requires |sep| > 0
    ensures Join(Split(s, sep), sep) == s
    decreases |s|
  {
    var i := FindFrom(s, sep, 0);
    FoundAt(s, sep, 0);
    if i >= 0 {
      var rest := s[i + |sep|..];
      var tail := Split(rest, sep);
      JoinSplit(rest, sep);
      var parts := [s[..i]] + tail;
      assert Split(s, sep) == parts;
      assert parts[1..] == tail;
      assert Join(parts, sep) == s[..i] + sep + Join(tail, sep);
      assert s == s[..i] + sep + rest;
    }
  }

  /** No piece of a split contains the separator. */
  lemma {:induction false} SplitPiecesFree(s: string, sep: string)
    requires |sep| > 0
    ensures forall k :: 0 <= k < |Split(s, sep)| ==> !Contains(Split(s, sep)[k], sep)
    decreases |s|
  {
    var i := FindFrom(s, sep, 0);
    FoundAt(s, sep, 0);
    if i < 0 {
      assert Split(s, sep) == [s];
    } else {
      var rest := s[i + |sep|..];
      SplitPiecesFree(rest, sep);
      var head := s[..i];
      if Contains(head, sep) {
        var j := FindFrom(head, sep, 0);
        FoundAt(head, sep, 0);
        OccursInPrefix(s, sep, i, j);
        assert false;
      }
      assert Split(s, sep) == [head] + Split(rest, sep);
    }
  }

  /** A string without the separator splits into itself alone. */
  lemma SplitWithoutSep(s: string, sep: string)
    requires |sep| > 0
    requires !Contains(s, sep)
    ensures Split(s, sep) == [s]
  {
  }

  /** Splitting on a one-character separator around one of its
      occurrences splits the two sides independently. */
  lemma {:induction false} SplitAtChar(a: string, c: char, b: string)
    ensures Split(a + [c] + b, [c]) == Split(a, [c]) + Split(b, [c])
    decreases |a|
  {
    var s := a + [c] + b;
    var i := FindFrom(a, [c], 0);
    var k := FindFrom(s, [c], 0);
    FirstCharAt(a, c, b);
    if i < 0 {
      assert s[..k] == a && s[k + 1..] == b;
    } else {
      SplitAtChar(a[i + 1..], c, b);
      assert s[..k] == a[..i];
      assert s[k + 1..] == a[i + 1..] + [c] + b;
    }
  }

  /** The first `c` of `a + [c] + b` is the first of `a`, or the one
      added when `a` has none. */
  lemma FirstCharAt(a: string, c: char, b: string)
    ensures var i := FindFrom(a, [c], 0);
      FindFrom(a + [c] + b, [c], 0) == if i < 0 then |a| else i
  {
    var s := a + [c] + b;
    var i := FindFrom(a, [c], 0);
    FoundAt(a, [c], 0);
    var k := FindFrom(s, [c], 0);
    FoundAt(s, [c], 0);
    var end := if i < 0 then |a| else i;
    if i < 0 {
      assert OccursAt(s, [c], |a|) by { assert s[|a|..|a| + 1] == [c]; }
    } else {
      OccursInPrefix(s, [c], |a|, i) by { assert s[..|a|] == a; }
    }
    forall j | 0 <= j < end
      ensures !OccursAt(s, [c], j)
    {
      assert !OccursAt(a, [c], j);
      assert s[j..j + 1] == a[j..j + 1];
    }
  }

  /** Pieces free of a one-character separator, joined with it, split
      back into themselves. */
  lemma {:induction false} SplitJoinChar(parts: seq<string>, c: char)
    requires |parts| >= 1
    requires forall k :: 0 <= k < |parts| ==> c !in parts[k]
    ensures Split(Join(parts, [c]), [c]) == parts
    decreases |parts|
  {
    ContainsChar(parts[0], c);
    SplitWithoutSep(parts[0], [c]);
    if |parts| > 1 {
      SplitJoinChar(parts[1..], c);
      assert Join(parts, [c]) == parts[0] + [c] + Join(parts[1..], [c]);
      SplitAtChar(parts[0], c, Join(parts[1..], [c]));
      assert parts == [parts[0]] + parts[1..];
    }
  }

  /** When `sep` does not occur before the end of `a` in `a + sep + b`,
      splitting cuts there first and goes on in `b`. */
  lemma FirstSepAt(a: string, sep: string, b: string)
    requires |sep| > 0
    requires forall j :: 0 <= j < |a| ==> !OccursAt(a + sep + b, sep, j)
    ensures Split(a + sep + b, sep) == [a] + Split(b, sep)
  {
    var s := a + sep + b;
    var k := FindFrom(s, sep, 0);
    FoundAt(s, sep, 0);
    assert OccursAt(s, sep, |a|) by { assert s[|a|..|a| + |sep|] == sep; }
    assert k == |a|;
    assert s[..k] == a;
    assert s[k + |sep|..] == b;
  }

  /** A string without one of the characters of `sep` does not contain
      it. */
  lemma LacksSepChar(s: string, sep: string, k: int)
    requires 0 <= k < |sep| && sep[k] !in s
    ensures !Contains(s, sep)
  {
    if Contains(s, sep) {
      var i := FindFrom(s, sep, 0);
      FoundAt(s, sep, 0);
      assert false;
    }
  }

  /** A piece without the first character of `sep` cannot hold an
      occurrence that starts inside it. */
  lemma NoSepInHead(a: string, sep: string, b: string)
    requires |sep| > 0 && sep[0] !in a
    ensures forall j :: 0 <= j < |a| ==> !OccursAt(a + sep + b, sep, j)
  {
    var s := a + sep + b;
    forall j | 0 <= j < |a|
      ensures !OccursAt(s, sep, j)
    {
      assert s[j] == a[j];
      assert s[j..j + |sep|][0] == s[j];
    }
  }

  /** For a two-character separator with distinct characters, a piece
      without the second character cannot hold an occurrence that starts
      inside it. */
  lemma NoSepInHeadSecond(a: string, sep: string, b: string)
    requires |sep| == 2 && sep[0] != sep[1] && sep[1] !in a
    ensures forall j :: 0 <= j < |a| ==> !OccursAt(a + sep + b, sep, j)
  {
    var s := a + sep + b;
    forall j | 0 <= j < |a|
      ensures !OccursAt(s, sep, j)
    {
      if j + 1 < |a| {
        assert s[j + 1] == a[j + 1];
      } else {
        assert s[j + 1] == sep[0];
      }
      assert s[j..j + 2][1] == s[j + 1];
    }
  }

  /** Pieces without the first character of `sep`, joined with it, split
      back into themselves. */
  lemma {:induction false} SplitJoinHead(parts: seq<string>, sep: string)
    requires |parts| >= 1 && |sep| > 0
    requires forall k :: 0 <= k < |parts| ==> sep[0] !in parts[k]
    ensures Split(Join(parts, sep), sep) == parts
    decreases |parts|
  {
    if |parts| == 1 {
      LacksSepChar(parts[0], sep, 0);
    } else {
      SplitJoinHead(parts[1..], sep);
      NoSepInHead(parts[0], sep, Join(parts[1..], sep));
      FirstSepAt(parts[0], sep, Join(parts[1..], sep));
      assert parts == [parts[0]] + parts[1..];
    }
  }

  /** A prefix without the first character of `p` cannot hold the start
      of an occurrence of `p`. */
  lemma ContainsAfter(a: string, b: string, p: string)
    requires |p| > 0 && p[0] !in a
    ensures Contains(a + b, p) <==> Contains(b, p)
  {
    var s := a + b;
    if Contains(s, p) {
      var i := FindFrom(s, p, 0);
      FoundAt(s, p, 0);
      assert s[i] == s[i..i + |p|][0] == p[0];
      assert forall j :: 0 <= j < |a| ==> s[j] == a[j];
      assert i >= |a|;
      SliceInSecond(a, b, i, |p|);
      assert OccursAt(b, p, i - |a|);
    }
    if Contains(b, p) {
      var k := FindFrom(b, p, 0);
      FoundAt(b, p, 0);
      assert s[|a|..] == b;
      OccursInSuffix(s, p, |a|, k);
    }
  }

  /** A slice of `a + b` that starts past `a` is a slice of `b`. */
  lemma SliceInSecond(a: string, b: string, i: int, n: nat)
    requires |a| <= i && i + n <= |a| + |b|
    ensures (a + b)[i..i + n] == b[i - |a|..i - |a| + n]
  {
    var s := a + b;
    assert s[|a|..] == b;
    assert s[i..i + n] == s[|a|..][i - |a|..i - |a| + n];
  }

  /** A word that starts like `p` but differs from it in the second
      character, and holds no other first character of `p`, cannot hold
      the start of an occurrence. */
  lemma ContainsPastHead(w: string, b: string, p: string)
    requires |w| >= 2 && |p| >= 2 && w[0] == p[0] && w[1] != p[1] && p[0] !in w[1..]
    ensures Contains(w + b, p) <==> Contains(b, p)
  {
    var s := w + b;
    assert s == [w[0]] + (w[1..] + b);
    ContainsAfter(w[1..], b, p);
    if Contains(s, p) {
      var i := FindFrom(s, p, 0);
      FoundAt(s, p, 0);
      assert i >= 1 by {
        assert s[i..i + |p|][1] == s[i + 1] == p[1];
        assert s[1] == w[1];
      }
      SliceInSecond([w[0]], w[1..] + b, i, |p|);
      assert OccursAt(w[1..] + b, p, i - 1);
    }
    if Contains(w[1..] + b, p) {
      var k := FindFrom(w[1..] + b, p, 0);
      FoundAt(w[1..] + b, p, 0);
      OccursInSuffix(s, p, 1, k);
    }
  }

  /** `s.replace(target, repl)` for a non-empty `target`: in CPython this equals
      `repl.join(s.split(target))`. */
  function Replace(s: string, target: string, repl: string): string
    requires |target| > 0
  {
    Join(Split(s, target), repl)
  }

  /** Joining pieces free of `c` with the empty separator leaves no `c`. */
  lemma {:induction false} JoinEmptyFree(parts: seq<string>, c: char)
    requires forall k :: 0 <= k < |parts| ==> c !in parts[k]
    ensures c !in Join(parts, "")
    decreases |parts|
  {
    if |parts| > 1 {
      JoinEmptyFree(parts[1..], c);
    }
  }

  /** A single-character string is contained iff the character is. */
  lemma ContainsChar(s: string, c: char)
    ensures Contains(s, [c]) <==> c in s
  {
    if c in s {
      var i :| 0 <= i < |s| && s[i] == c;
      assert s[i..i + 1] == [c];
      ContainsAt(s, [c], i);
    }
    if Contains(s, [c]) {
      var i := FindFrom(s, [c], 0);
      FoundAt(s, [c], 0);
      assert s[i..i + 1] == [c];
      assert s[i] == c;
    }
  }

  /** `s.replace(c, "")` removes every occurrence of the character `c`. */
  lemma RemoveCharGone(s: string, c: char)
    ensures c !in Replace(s, [c], "")
  {
    var parts := Split(s, [c]);
    SplitPiecesFree(s, [c]);
    forall k | 0 <= k < |parts|
      ensures c !in parts[k]
    {
      ContainsChar(parts[k], c);
    }
    JoinEmptyFree(parts, c);
  }

  // ---------------------------------------------------------------------
  // Character classes, strip and lower

  /** `c.isspace()` (CPython's whitespace table). */
  predicate IsSpace(c: char) {
    c == ' ' || ('\t' <= c <= '\r') || ('\U{001C}' <= c <= '\U{001F}')
    || c == '\U{0085}' || c == '\U{00A0}' || c == '\U{1680}'
    || ('\U{2000}' <= c <= '\U{200A}') || c == '\U{2028}' || c == '\U{2029}'
    || c == '\U{202F}' || c == '\U{205F}' || c == '\U{3000}'
  }

  predicate IsDigitChar(c: char) {
    '0' <= c <= '9'
  }

  /** `s.isdigit()` over ASCII digits: non-empty and all digits. */
  predicate IsDigits(s: string) {
    |s| > 0 && forall i :: 0 <= i < |s| ==> IsDigitChar(s[i])
  }

  /** `s.lstrip(chars)` with an explicit character set. */
  function LStripSet(s: string, chars: set<char>): (r: string)
    ensures |r| <= |s| && r == s[|s| - |r|..]
    ensures |r| > 0 ==> r[0] !in chars
    ensures forall i :: 0 <= i < |s| - |r| ==> s[i] in chars
    decreases |s|
  {
    if |s| > 0 && s[0] in chars then
      var r := LStripSet(s[1..], chars);
      assert s[1..][|s| - 1 - |r|..] == s[|s| - |r|..];
      assert forall i :: 1 <= i < |s| - |r| ==> s[i] == s[1..][i - 1];
      r
    else s
  }

  /** Drop leading whitespace. */
  function LStripSpace(s: string): (r: string)
    ensures |r| <= |s| && r == s[|s| - |r|..]
    ensures |r| > 0 ==> !IsSpace(r[0])
    ensures forall i :: 0 <= i < |s| - |r| ==> IsSpace(s[i])
    decreases |s|
  {
    if |s| > 0 && IsSpace(s[0]) then
      var r := LStripSpace(s[1..]);
      assert s[1..][|s| - 1 - |r|..] == s[|s| - |r|..];
      assert forall i :: 1 <= i < |s| - |r| ==> s[i] == s[1..][i - 1];
      r
    else s
  }

  /** Drop trailing whitespace. */
  function RStripSpace(s: string): (r: string)
    ensures |r| <= |s| && r == s[..|r|]
    ensures |r| > 0 ==> !IsSpace(r[|r| - 1])
    ensures forall i :: |r| <= i < |s| ==> IsSpace(s[i])
    decreases |s|
  {
    if |s| > 0 && IsSpace(s[|s| - 1]) then
      var r := RStripSpace(s[..|s| - 1]);
      assert s[..|s| - 1][..|r|] == s[..|r|];
      assert forall i :: |r| <= i < |s| - 1 ==> s[i] == s[..|s| - 1][i];
      r
    else s
  }

  /** `s.strip()`. */
  function Strip(s: string): string {
    RStripSpace(LStripSpace(s))
  }

  /** `s.strip()` is empty exactly when every character is whitespace. */
  lemma StripEmptyIff(s: string)
    ensures Strip(s) == "" <==> forall i :: 0 <= i < |s| ==> IsSpace(s[i])
  {
    var l := LStripSpace(s);
    if Strip(s) == "" {
      assert |l| == 0 by {
        if |l| > 0 {
          assert false;
        }
      }
    }
  }

  /** `s.strip()` keeps a slice of `s` that neither starts nor ends with
      whitespace. */
  lemma StripShape(s: string)
    ensures forall c :: c in Strip(s) ==> c in s
    ensures |Strip(s)| > 0 ==> !IsSpace(Strip(s)[0]) && !IsSpace(Strip(s)[|Strip(s)| - 1])
  {
    var l := LStripSpace(s);
    var r := Strip(s);
    assert r == l[..|r|];
    forall c | c in r
      ensures c in s
    {
      var i :| 0 <= i < |r| && r[i] == c;
      assert l[i] == c;
      assert s[|s| - |l| + i] == c;
    }
    if |r| > 0 {
      assert r[0] == l[0];
    }
  }

  /** `c.lower()` for ASCII and the Latin-1 upper-case letters. */
  function LowerChar(c: char): (r: char)
    ensures 'A' <= c <= 'Z' ==> r as int == c as int + 32
    ensures !('A' <= c <= 'Z') && !('\U{00C0}' <= c <= '\U{00DE}') ==> r == c
  {
    if 'A' <= c <= 'Z' || ('\U{00C0}' <= c <= '\U{00DE}' && c != '\U{00D7}')
    then (c as int + 32) as char
    else c
  }

  /** `s.lower()`, character by character. */
  function Lower(s: string): (r: string)
    ensures |r| == |s|
    ensures forall i :: 0 <= i < |s| ==> r[i] == LowerChar(s[i])
  {
    seq(|s|, i requires 0 <= i < |s| => LowerChar(s[i]))
  }

  // ---------------------------------------------------------------------
  // Lines

  /** The characters `str.splitlines` treats as line boundaries. */
  predicate IsLineBreak(c: char) {
    c == '\n' || c == '\r' || c == '\U{000B}' || c == '\U{000C}'
    || c == '\U{001C}' || c == '\U{001D}' || c == '\U{001E}'
    || c == '\U{0085}' || c == '\U{2028}' || c == '\U{2029}'
  }

  /** The length of the first line of `s`, line ending included
      ("\r\n" counts as one ending). */
  function LineLen(s: string): (n: nat)
    requires |s| > 0
    ensures 1 <= n <= |s|
    decreases |s|
  {
    if s[0] == '\r' && |s| > 1 && s[1] == '\n' then 2
    else if IsLineBreak(s[0]) || |s| == 1 then 1
    else 1 + LineLen(s[1..])
  }

  /** `s.splitlines(keepends=True)`. */
  function SplitLinesKeepEnds(s: string): (lines: seq<string>)
    decreases |s|
  {
    if |s| == 0 then [] else [s[..LineLen(s)]] + SplitLinesKeepEnds(s[LineLen(s)..])
  }

  /** `"".join(parts)`. */
  function Concat(parts: seq<string>): string {
    if |parts| == 0 then "" else parts[0] + Concat(parts[1..])
  }

  lemma {:induction false} ConcatAppend(a: seq<string>, b: seq<string>)
    ensures Concat(a + b) == Concat(a) + Concat(b)
    decreases |a|
  {
    if |a| > 0 {
      ConcatAppend(a[1..], b);
      assert (a + b)[1..] == a[1..] + b;
    } else {
      assert a + b == b;
    }
  }

  /** Splitting into lines loses nothing: the lines concatenate to `s`. */
  lemma {:induction false} ConcatSplitLines(s: string)
    ensures Concat(SplitLinesKeepEnds(s)) == s
    decreases |s|
  {
    if |s| > 0 {
      ConcatSplitLines(s[LineLen(s)..]);
      assert s == s[..LineLen(s)] + s[LineLen(s)..];
    }
  }

  // ---------------------------------------------------------------------
  // Integers

  function DigitValue(c: char): nat
    requires IsDigitChar(c)
  {
    c as int - '0' as int
  }

  /** The decimal value of a run of digits and underscores, underscores
      ignored. */
  function DigitsValue(s: string): nat
    requires forall i :: 0 <= i < |s| ==> IsDigitChar(s[i]) || s[i] == '_'
    decreases |s|
  {
    if |s| == 0 then 0
    else if s[|s| - 1] == '_' then DigitsValue(s[..|s| - 1])
    else 10 * DigitsValue(s[..|s| - 1]) + DigitValue(s[|s| - 1])
  }

  /** Appending a digit multiplies the value by ten and adds the digit. */
  lemma DigitsValueSnoc(s: string, c: char)
    requires forall i :: 0 <= i < |s| ==> IsDigitChar(s[i]) || s[i] == '_'
    requires IsDigitChar(c)
    ensures DigitsValue(s + [c]) == 10 * DigitsValue(s) + DigitValue(c)
  {
    assert (s + [c])[..|s|] == s;
  }

  /** The value of one, two or four digits, written out. */
  lemma DigitsValueSmall(t: string)
    requires IsDigits(t) && (|t| == 1 || |t| == 2 || |t| == 4)
    ensures |t| == 1 ==> DigitsValue(t) == DigitValue(t[0])
    ensures |t| == 2 ==> DigitsValue(t) == 10 * DigitValue(t[0]) + DigitValue(t[1])
    ensures |t| == 4 ==>
      DigitsValue(t) == 1000 * DigitValue(t[0]) + 100 * DigitValue(t[1]) + 10 * DigitValue(t[2]) + DigitValue(t[3])
  {
    if |t| == 4 {
      DigitsValueFour(t);
    } else {
      assert t[..0] == [];
      DigitsValuePrefix(t, 1);
      if |t| == 2 {
        DigitsValuePrefix(t, 2);
      }
      assert t[..|t|] == t;
    }
  }

  lemma DigitsValueFour(t: string)
    requires IsDigits(t) && |t| == 4
    ensures DigitsValue(t) == 1000 * DigitValue(t[0]) + 100 * DigitValue(t[1]) + 10 * DigitValue(t[2]) + DigitValue(t[3])
  {
    assert t[..0] == [];
    DigitsValuePrefix(t, 1);
    var v2 := DigitsValue(t[..2]);
    DigitsValuePrefix(t, 2);
    assert v2 == 10 * DigitValue(t[0]) + DigitValue(t[1]);
    var v3 := DigitsValue(t[..3]);
    DigitsValuePrefix(t, 3);
    assert v3 == 10 * v2 + DigitValue(t[2]);
    DigitsValuePrefix(t, 4);
    assert t[..4] == t;
    assert DigitsValue(t) == 10 * v3 + DigitValue(t[3]);
  }

  /** The value of the first `k` digits extends that of the first
      `k - 1` by one digit. */
  lemma DigitsValuePrefix(t: string, k: nat)
    requires IsDigits(t) && 1 <= k <= |t|
    ensures DigitsValue(t[..k]) == 10 * DigitsValue(t[..k - 1]) + DigitValue(t[k - 1])
  {
    DigitsValueSnoc(t[..k - 1], t[k - 1]);
    assert t[..k - 1] + [t[k - 1]] == t[..k];
  }

  /** Leading zeros do not change the value. */
  lemma {:induction false} DigitsValueLeadingZero(s: string)
    requires forall i :: 0 <= i < |s| ==> IsDigitChar(s[i]) || s[i] == '_'
    ensures DigitsValue("0" + s) == DigitsValue(s)
    decreases |s|
  {
    var z := "0" + s;
    if |s| == 0 {
      assert z[..0] == [];
    } else {
      var p := s[..|s| - 1];
      assert z[..|z| - 1] == "0" + p;
      DigitsValueLeadingZero(p);
    }
  }

  /** The digit part `int()` accepts: digits, where single underscores may
      separate two digits. */
  predicate ValidDigitRun(s: string) {
    && |s| > 0
    && (forall i :: 0 <= i < |s| ==> IsDigitChar(s[i]) || s[i] == '_')
    && IsDigitChar(s[0]) && IsDigitChar(s[|s| - 1])
    && (forall i :: 0 <= i < |s| - 1 ==> s[i] == '_' ==> IsDigitChar(s[i + 1]))
  }

  /** `int(s)` for a `str` argument in base 10: surrounding whitespace,
      an optional sign and the digit run; `None` where Python raises
      `ValueError`. */
  function ParseInt(s: string): Option<int> {
    ParseSigned(Strip(s))
  }

  /** The sign and digit run of an already stripped `int()` argument. */
  function ParseSigned(t: string): Option<int> {
    if |t| > 0 && (t[0] == '+' || t[0] == '-') then
      if ValidDigitRun(t[1..]) then
        Some(if t[0] == '-' then -(DigitsValue(t[1..]) as int) else DigitsValue(t[1..]))
      else None
    else if ValidDigitRun(t) then Some(DigitsValue(t))
    else None
  }

  /** A string of ASCII digits is a digit run `int()` accepts. */
  lemma DigitsValid(s: string)
    requires IsDigits(s)
    ensures ValidDigitRun(s)
  {
  }

  /** `int()` accepts every string `isdigit()` accepts, so a guard
      `s.isdigit()` protects the conversion. */
  lemma ParseIntDigits(s: string)
    requires IsDigits(s)
    ensures ParseInt(s).Some?
    ensures ParseInt(s) == Some(DigitsValue(s) as int)
  {
    DigitsStrip(s);
    DigitsValid(s);
  }

  /** `str(n)` for a natural number. */
  function NatToString(n: nat): (r: string)
    ensures IsDigits(r)
    decreases n
  {
    if n < 10 then [('0' as int + n) as char]
    else NatToString(n / 10) + [('0' as int + n % 10) as char]
  }

  /** `str(i)` for an integer. */
  function IntToString(i: int): string {
    if i < 0 then "-" + NatToString(-i) else NatToString(i)
  }

  lemma {:induction false} NatToStringValue(n: nat)
    ensures DigitsValue(NatToString(n)) == n
    decreases n
  {
    if n >= 10 {
      NatToStringValue(n / 10);
      var s := NatToString(n);
      assert s[..|s| - 1] == NatToString(n / 10);
    }
  }

  /** A string of ASCII digits is its own stripped form. */
  lemma DigitsStrip(s: string)
    requires IsDigits(s)
    ensures Strip(s) == s
  {
    DigitNotSpace(s[0]);
    DigitNotSpace(s[|s| - 1]);
    StripNoEdges(s);
  }

  lemma DigitNotSpace(c: char)
    requires IsDigitChar(c)
    ensures !IsSpace(c)
  {
  }

  /** `int(str(i)) == i`. */
  lemma ParseIntToString(i: int)
    ensures ParseInt(IntToString(i)) == Some(i)
  {
    if i < 0 {
      NegativeIntParses(i);
    } else {
      NaturalParses(i);
    }
  }

  lemma NegativeIntParses(i: int)
    requires i < 0
    ensures ParseInt(IntToString(i)) == Some(i)
  {
    var d := NatToString(-i);
    assert IntToString(i) == "-" + d;
    NatToStringValue(-i);
    MinusDigitsParse(d, -i);
  }

  lemma NaturalParses(n: nat)
    ensures ParseInt(NatToString(n)) == Some(n as int)
    ensures ParseInt(IntToString(n)) == Some(n as int)
  {
    ParseIntDigits(NatToString(n));
    NatToStringValue(n);
  }

  /** A minus sign before the decimal form of `n` reads as `-n`. */
  lemma NegativeParses(n: nat)
    ensures ParseInt("-" + NatToString(n)) == Some(-(n as int))
  {
    var d := NatToString(n);
    NatToStringValue(n);
    MinusDigitsParse(d, n);
  }

  /** A minus sign before a run of ASCII digits of value `v` reads as
      `-v`. */
  lemma MinusDigitsParse(d: string, v: int)
    requires IsDigits(d) && DigitsValue(d) as int == v
    ensures ParseInt("-" + d) == Some(-v)
  {
    var s := "-" + d;
    NegativeStrips(d);
    DigitsValid(d);
    assert s[1..] == d;
    SignedParses(s);
  }

  lemma NegativeStrips(d: string)
    requires IsDigits(d)
    ensures Strip("-" + d) == "-" + d
  {
    var s := "-" + d;
    assert s[|s| - 1] == d[|d| - 1];
    StripNoEdges(s);
  }

  /** A string that neither starts nor ends with whitespace is its own
      stripped form. */
  lemma StripNoEdges(s: string)
    requires |s| > 0 && !IsSpace(s[0]) && !IsSpace(s[|s| - 1])
    ensures Strip(s) == s
  {
    assert LStripSpace(s) == s;
  }

  lemma SignedParses(t: string)
    requires |t| > 0 && t[0] == '-' && ValidDigitRun(t[1..]) && Strip(t) == t
    ensures ParseInt(t) == Some(-(DigitsValue(t[1..]) as int))
  {
  }
}
