/** The shared validators and string helpers of `sls_api/endpoints/generics.py`:
    project-name and integer validation, date-format checks, file-name and
    path helpers, the publication visibility rule, cache freshness, and the
    flattening of a table of contents. */
module Generics {
  import opened Wrappers
  import opened PyStrings
  import opened Json

  // ---------------------------------------------------------------------
  // Facsimile file names

  const FacsimileExtensions: seq<string> := ["tif", "tiff", "png", "jpg", "jpeg"]

  /** `allowed_facsimile`: the name has a dot and the text after its last
      dot, lower-cased, is one of the image extensions. */
  function AllowedFacsimile(filename: string): (ok: bool)
    ensures ok <==> exists i :: (0 <= i < |filename| && filename[i] == '.'
                                 && (forall j :: i < j < |filename| ==> filename[j] != '.')
                                 && Lower(filename[i + 1..]) in FacsimileExtensions)
  {
    var dot := RFind(filename, ".");
    LastDot(filename);
    if dot < 0 then false
    else
      assert forall i :: (0 <= i < |filename| && filename[i] == '.'
                          && (forall j :: i < j < |filename| ==> filename[j] != '.')) ==> i == dot;
      Lower(filename[dot + 1..]) in FacsimileExtensions
  }

  /** `rfind(".")` is -1 for a name without a dot, else the index of its
      last dot. */
  lemma LastDot(filename: string)
    ensures var dot := RFind(filename, ".");
      (dot < 0 ==> forall i :: 0 <= i < |filename| ==> filename[i] != '.')
      && (dot >= 0 ==> dot < |filename| && filename[dot] == '.'
                       && forall j :: dot < j < |filename| ==> filename[j] != '.')
  {
    var dot := RFind(filename, ".");
    if dot < 0 {
      forall i | 0 <= i < |filename|
        ensures filename[i] != '.'
      {
        assert !OccursAt(filename, ".", i);
        assert filename[i..i + 1] == [filename[i]];
      }
    } else {
      assert filename[dot..dot + 1] == ".";
      forall j | dot < j < |filename|
        ensures filename[j] != '.'
      {
        assert !OccursAt(filename, ".", j);
        assert filename[j..j + 1] == [filename[j]];
      }
    }
  }

  // ---------------------------------------------------------------------
  // Validators

  /** `int_or_none`: `int(v)`, or `None` where that raises. */
  function IntOrNone(v: Json): (r: Option<int>)
    ensures IsInstanceInt(v) ==> r == Some(IntValue(v))
    ensures v.JStr? ==> r == ParseInt(v.s)
    ensures v.JNull? || v.JArr? || v.JObj? ==> r.None?
  {
    match v
    case JInt(i) => Some(i)
    case JBool(b) => Some(if b then 1 else 0)
    case JStr(s) => ParseInt(s)
    case _ => None
  }

  const NameLengthMessage := "'name' must be minimum 3 and maximum 32 characters in length."
  const NameCharsMessage := "'name' can only contain lowercase letters a-z and digits 0-9."

  /** The characters a project name may use. */
  predicate NameChar(c: char) {
    'a' <= c <= 'z' || '0' <= c <= '9' || c == '_'
  }

  /** `validate_project_name`: `None` when the name passes, otherwise the
      message of the first failing check (length before characters). */
  function ValidateProjectName(name: string): (err: Option<string>)
    ensures err == Some(NameLengthMessage) <==> |name| < 3 || |name| > 32
    ensures err == Some(NameCharsMessage) <==>
      3 <= |name| <= 32 && exists i :: 0 <= i < |name| && !NameChar(name[i])
    ensures err.None? <==> 3 <= |name| <= 32 && forall i :: 0 <= i < |name| ==> NameChar(name[i])
  {
    if |name| < 3 || |name| > 32 then Some(NameLengthMessage)
    else if forall i :: 0 <= i < |name| ==> NameChar(name[i]) then None
    else Some(NameCharsMessage)
  }

  /** `validate_int(value, min_value, max_value)`: an integer (a boolean
      counts) within the bounds that are given, both inclusive. */
  function ValidateInt(v: Json, lo: Option<int>, hi: Option<int>): (ok: bool)
    ensures ok <==> (IsInstanceInt(v)
                     && (lo.Some? ==> lo.value <= IntValue(v))
                     && (hi.Some? ==> IntValue(v) <= hi.value))
  {
    if !IsInstanceInt(v) then false
    else if lo.Some? && IntValue(v) < lo.value then false
    else if hi.Some? && IntValue(v) > hi.value then false
    else true
  }

  /** A JSON `true` passes every bound that 1 passes: `validate_int`
      accepts booleans. */
  lemma BoolPassesValidateInt(lo: Option<int>, hi: Option<int>)
    ensures ValidateInt(JBool(true), lo, hi) == ValidateInt(JInt(1), lo, hi)
    ensures ValidateInt(JBool(false), lo, hi) == ValidateInt(JInt(0), lo, hi)
  {
  }

  /** `handle_deleted_flag`: a truthy `deleted` forces `published` to 0. */
  function HandleDeletedFlag(values: seq<(string, Json)>): (r: seq<(string, Json)>)
    ensures Truthy(Lookup(values, "deleted").GetOr(JNull)) ==>
      Lookup(r, "published") == Some(JInt(0))
      && forall k :: k != "published" ==> Lookup(r, k) == Lookup(values, k)
    ensures !Truthy(Lookup(values, "deleted").GetOr(JNull)) ==> r == values
  {
    if Truthy(Lookup(values, "deleted").GetOr(JNull)) then Put(values, "published", JInt(0))
    else values
  }

  // ---------------------------------------------------------------------
  // Dates

  /** `is_valid_year`: ASCII digits only, with a value from 1 to 9999;
      leading zeros are allowed. */
  function IsValidYear(s: string): (ok: bool)
    ensures ok <==> IsDigits(s) && 1 <= DigitsValue(s) <= 9999
  {
    if !IsDigits(s) then false
    else
      ParseIntDigits(s);
      var y := ParseInt(s).value;
      1 <= y <= 9999
  }

  /** Gregorian leap years. */
  predicate IsLeapYear(y: int) {
    y % 4 == 0 && (y % 100 != 0 || y % 400 == 0)
  }

  function DaysInMonth(y: int, m: int): int
    requires 1 <= m <= 12
  {
    if m == 2 then (if IsLeapYear(y) then 29 else 28)
    else if m == 4 || m == 6 || m == 9 || m == 11 then 30
    else 31
  }

  /** A real calendar date with a four-digit year. */
  predicate IsCalendarDate(y: int, m: int, d: int) {
    1 <= y <= 9999 && 1 <= m <= 12 && 1 <= d <= DaysInMonth(y, m)
  }

  /** What `strptime`'s `%m` matches: `1[0-2]`, `0[1-9]` or `[1-9]`. */
  predicate MonthToken(t: string) {
    (|t| == 1 && '1' <= t[0] <= '9')
    || (|t| == 2 && ((t[0] == '0' && '1' <= t[1] <= '9') || (t[0] == '1' && '0' <= t[1] <= '2')))
  }

  /** What `strptime`'s `%d` matches: `3[01]`, `[12][0-9]`, `0[1-9]`,
      `[1-9]` or a space followed by `[1-9]`. */
  predicate DayToken(t: string) {
    (|t| == 1 && '1' <= t[0] <= '9')
    || (|t| == 2 && (
         (t[0] == '3' && (t[1] == '0' || t[1] == '1'))
      || ((t[0] == '1' || t[0] == '2') && IsDigitChar(t[1]))
      || (t[0] == '0' && '1' <= t[1] <= '9')
      || (t[0] == ' ' && '1' <= t[1] <= '9')))
  }

  /** The number a `%m` or `%d` token stands for (a leading space is
      ignored, as `int()` ignores it). */
  function TokenValue(t: string): int
    requires MonthToken(t) || DayToken(t)
  {
    if t[0] == ' ' then DigitValue(t[1]) else DigitsValue(t)
  }

  /** `%Y`: exactly four ASCII digits. */
  predicate YearToken(t: string) {
    |t| == 4 && IsDigits(t)
  }

  /** `datetime.strptime(s, "%Y-%m-%d")`: the date, or `None` where it
      raises `ValueError` (no match, unconverted text, year 0, or a day
      past the end of the month). */
  function ParseDate(s: string): (r: Option<(int, int, int)>)
    ensures r.Some? ==> IsCalendarDate(r.value.0, r.value.1, r.value.2)
  {
    if |s| < 5 || !YearToken(s[..4]) || s[4] != '-' then None
    else
      var rest := s[5..];
      var k := FindFrom(rest, "-", 0);
      if k < 0 then None
      else
        var mt := rest[..k];
        var dt := rest[k + 1..];
        if !MonthToken(mt) || !DayToken(dt) then None
        else
          var y := DigitsValue(s[..4]);
          var m := TokenValue(mt);
          var d := TokenValue(dt);
          FourDigitsBound(s[..4]);
          TokenValueBounds(mt);
          TokenValueBounds(dt);
          if y >= 1 && d <= DaysInMonth(y, m) then Some((y, m, d)) else None
  }

  /** `is_valid_date`: the string parses with the format `%Y-%m-%d`. */
  function IsValidDate(s: string): (ok: bool)
    ensures ok ==> 8 <= |s| <= 10 && YearToken(s[..4]) && s[4] == '-'
  {
    ParseDate(s).Some?
  }

  /** `datetime.strptime(s, "%Y-%m")`: year and month, or `None`. */
  function ParseYearMonth(s: string): (r: Option<(int, int)>)
    ensures r.Some? ==> 1 <= r.value.0 <= 9999 && 1 <= r.value.1 <= 12
  {
    if |s| < 5 || !YearToken(s[..4]) || s[4] != '-' || !MonthToken(s[5..]) then None
    else
      FourDigitsBound(s[..4]);
      TokenValueBounds(s[5..]);
      var y := DigitsValue(s[..4]);
      if y >= 1 then Some((y, TokenValue(s[5..]))) else None
  }

  /** `is_valid_year_month`: the string parses with the format `%Y-%m`. */
  function IsValidYearMonth(s: string): (ok: bool)
    ensures ok ==> 6 <= |s| <= 7 && YearToken(s[..4]) && s[4] == '-' && MonthToken(s[5..])
  {
    ParseYearMonth(s).Some?
  }

  /** `is_any_valid_date_format`: a year, a full date or a year and month. */
  function IsAnyValidDateFormat(s: string): (ok: bool)
    ensures ok ==> |s| > 0 && IsDigitChar(s[0])
    ensures '-' !in s ==> (ok <==> IsValidYear(s))
    ensures '-' in s ==> (ok <==> IsValidDate(s) || IsValidYearMonth(s))
  {
    IsValidYear(s) || IsValidDate(s) || IsValidYearMonth(s)
  }

  lemma FourDigitsBound(t: string)
    requires YearToken(t)
    ensures DigitsValue(t) <= 9999
  {
    DigitsValueSmall(t);
  }

  lemma TokenValueBounds(t: string)
    requires MonthToken(t) || DayToken(t)
    ensures MonthToken(t) ==> 1 <= TokenValue(t) <= 12
    ensures DayToken(t) ==> 1 <= TokenValue(t) <= 31
  {
    if t[0] != ' ' {
      DigitsValueSmall(t);
    }
  }

  /** The decimal digit for `n`. */
  function Digit(n: int): char
    requires 0 <= n <= 9
  {
    ('0' as int + n) as char
  }

  /** Zero-padded two- and four-digit renderings, as `strftime` writes
      them. */
  function Pad2(n: int): string
    requires 0 <= n <= 99
  {
    [Digit(n / 10), Digit(n % 10)]
  }

  function Pad4(n: int): string
    requires 0 <= n <= 9999
  {
    Pad2(n / 100) + Pad2(n % 100)
  }

  /** `date.strftime("%Y-%m-%d")`. */
  function FormatDate(y: int, m: int, d: int): string
    requires 0 <= y <= 9999 && 0 <= m <= 99 && 0 <= d <= 99
  {
    Pad4(y) + "-" + Pad2(m) + "-" + Pad2(d)
  }

  lemma Pad4Value(n: int)
    requires 0 <= n <= 9999
    ensures YearToken(Pad4(n)) && DigitsValue(Pad4(n)) == n
  {
    var t := Pad4(n);
    var h := n / 100;
    var l := n % 100;
    assert t == [Digit(h / 10), Digit(h % 10), Digit(l / 10), Digit(l % 10)];
    DigitsValueSmall(t);
    assert DigitsValue(t) == 100 * (10 * (h / 10) + h % 10) + (10 * (l / 10) + l % 10);
  }

  lemma Pad2Value(n: int)
    requires 0 <= n <= 99
    ensures DigitsValue(Pad2(n)) == n
  {
    DigitsValueSmall(Pad2(n));
  }

  /** Every calendar date written with `%Y-%m-%d` parses back to itself,
      and a day past the end of its month is rejected. */
  lemma {:induction false} ParseFormatDate(y: int, m: int, d: int)
    requires 1 <= y <= 9999 && 1 <= m <= 12 && 1 <= d <= 31
    ensures ParseDate(FormatDate(y, m, d)) == if d <= DaysInMonth(y, m) then Some((y, m, d)) else None
  {
    Pad4Value(y);
    Pad2Value(m);
    Pad2Value(d);
    FormatDateShape(y, m, d);
  }

  /** Where the pieces of a formatted date sit. */
  lemma FormatDateShape(y: int, m: int, d: int)
    requires 1 <= y <= 9999 && 1 <= m <= 12 && 1 <= d <= 31
    ensures var s := FormatDate(y, m, d);
      |s| == 10 && s[..4] == Pad4(y) && s[4] == '-'
      && FindFrom(s[5..], "-", 0) == 2 && s[5..][..2] == Pad2(m) && s[5..][3..] == Pad2(d)
  {
    var s := FormatDate(y, m, d);
    assert s[..4] == Pad4(y);
    var rest := s[5..];
    assert rest == Pad2(m) + "-" + Pad2(d);
    assert OccursAt(rest, "-", 2);
    assert rest[0] == Digit(m / 10) && rest[1] == Digit(m % 10);
    assert rest[0..1] != "-" && rest[1..2] != "-";
    assert rest[..2] == Pad2(m);
    assert rest[3..] == Pad2(d);
  }

  /** The cases of the `is_valid_date` documentation. */
  lemma IsValidDateExamples()
    ensures IsValidDate("2023-10-31")
    ensures !IsValidDate("2023-02-29")
    ensures !IsValidDate("2023-13-31")
    ensures !IsValidDate("23-10-31")
  {
    ValidDateExample();
    LeapDayExample();
    MonthExample();
  }

  lemma ValidDateExample()
    ensures IsValidDate("2023-10-31")
  {
    ParseFormatDate(2023, 10, 31);
    assert FormatDate(2023, 10, 31) == "2023-10-31";
  }

  lemma LeapDayExample()
    ensures !IsValidDate("2023-02-29")
  {
    ParseFormatDate(2023, 2, 29);
    assert FormatDate(2023, 2, 29) == "2023-02-29";
  }

  lemma MonthExample()
    ensures !IsValidDate("2023-13-31")
  {
    var bad := "2023-13-31";
    var rest := bad[5..];
    assert rest == "13-31";
    assert OccursAt(rest, "-", 2);
    assert !OccursAt(rest, "-", 0) && !OccursAt(rest, "-", 1);
    assert !MonthToken(rest[..2]);
  }

  /** `is_valid_year` accepts every year from 1 to 9999 written without
      padding, and a leading zero never changes its verdict ("0456" and
      "456" are both valid). */
  lemma IsValidYearWritten(y: int, s: string)
    requires IsDigits(s)
    ensures 1 <= y <= 9999 ==> IsValidYear(NatToString(y))
    ensures IsValidYear("0" + s) == IsValidYear(s)
  {
    if 1 <= y <= 9999 {
      PlainYearValid(y);
    }
    LeadingZeroYear(s);
  }

  lemma PlainYearValid(y: int)
    requires 1 <= y <= 9999
    ensures IsValidYear(NatToString(y))
  {
    NatToStringValue(y);
  }

  lemma LeadingZeroYear(s: string)
    requires IsDigits(s)
    ensures IsValidYear("0" + s) == IsValidYear(s)
  {
    var z := "0" + s;
    assert forall i :: 1 <= i < |z| ==> z[i] == s[i - 1];
    assert IsDigits(z);
    DigitsValueLeadingZero(s);
  }

  /** The cases of the `is_valid_year_month` documentation. */
  lemma YearMonthExamples()
    ensures IsValidYearMonth("2023-10") && !IsValidYearMonth("2023-13")
  {
    var good := "2023-10";
    assert good[..4] == "2023" && good[5..] == "10";
    DigitsValueSmall(good[..4]);
    var bad := "2023-13";
    assert bad[5..] == "13";
  }

  /** The three formats `is_any_valid_date_format` names: a year, a year
      and month, a full date; a month past 12 is refused. */
  lemma AnyDateFormatExamples()
    ensures IsAnyValidDateFormat("2023-10") && IsAnyValidDateFormat("2023-10-31")
    ensures !IsAnyValidDateFormat("2023-13")
  {
    YearMonthExamples();
    IsValidDateExamples();
    var bad := "2023-13";
    assert bad[4] == '-';
    assert !IsValidDate(bad) by {
      assert |bad| < 8;
    }
  }

  // ---------------------------------------------------------------------
  // Path and title helpers

  /** `split_after(value, a)`: the text after the last occurrence of `a`,
      or "" when `a` does not occur or nothing follows it. */
  function SplitAfter(value: string, a: string): (r: string)
    ensures RFind(value, a) < 0 ==> r == ""
    ensures RFind(value, a) >= 0 ==> r == value[RFind(value, a) + |a|..]
    ensures |a| > 0 ==> !Contains(r, a)
  {
    var pos := RFind(value, a);
    if pos == -1 then ""
    else if pos + |a| >= |value| then ""
    else
      var r := value[pos + |a|..];
      assert |a| > 0 ==> !Contains(r, a) by {
        if |a| > 0 && Contains(r, a) {
          var j := FindFrom(r, a, 0);
          FoundAt(r, a, 0);
          OccursInSuffix(value, a, pos + |a|, j);
          assert false;
        }
      }
      r
  }

  /** `re.sub(r'[^0-9]', '', s)`: the ASCII digits of `s`, in order. */
  function KeepDigits(s: string): (r: string)
    ensures forall i :: 0 <= i < |r| ==> IsDigitChar(r[i])
    ensures |r| <= |s|
    ensures (forall i :: 0 <= i < |s| ==> IsDigitChar(s[i])) ==> r == s
    decreases |s|
  {
    if |s| == 0 then ""
    else (if IsDigitChar(s[0]) then [s[0]] else []) + KeepDigits(s[1..])
  }

  /** A single character is kept exactly when it is a digit. */
  lemma KeepDigitsChar(c: char)
    ensures KeepDigits([c]) == if IsDigitChar(c) then [c] else ""
  {
    assert [c][1..] == "";
  }

  /** The digits of two strings are the digits of the first followed by
      those of the second: every digit is kept, in order. */
  lemma {:induction false} KeepDigitsAppend(a: string, b: string)
    ensures KeepDigits(a + b) == KeepDigits(a) + KeepDigits(b)
    decreases |a|
  {
    if |a| == 0 {
      assert a + b == b;
    } else {
      var h := if IsDigitChar(a[0]) then [a[0]] else [];
      assert (a + b)[0] == a[0];
      assert (a + b)[1..] == a[1..] + b;
      assert KeepDigits(a + b) == h + KeepDigits(a[1..] + b);
      KeepDigitsAppend(a[1..], b);
      assert KeepDigits(a) == h + KeepDigits(a[1..]);
    }
  }

  /** Every digit of `s` is kept, between the digits before it and the
      digits after it. */
  lemma {:induction false} KeepDigitsAt(s: string, i: int)
    requires 0 <= i < |s| && IsDigitChar(s[i])
    ensures KeepDigits(s) == KeepDigits(s[..i]) + [s[i]] + KeepDigits(s[i + 1..])
    decreases i
  {
    var t := s[1..];
    var h := if IsDigitChar(s[0]) then [s[0]] else [];
    assert KeepDigits(s) == h + KeepDigits(t);
    if i == 0 {
      assert s[..0] == "" && s[1..] == t;
    } else {
      KeepDigitsAt(t, i - 1);
      assert s[..i][0] == s[0] && s[..i][1..] == t[..i - 1];
      assert KeepDigits(s[..i]) == h + KeepDigits(t[..i - 1]);
      assert t[i - 1] == s[i] && t[i..] == s[i + 1..];
    }
  }

  /** Consecutive two-character chunks of `s`; only the last can be
      shorter. */
  function Pairs(s: string): (chunks: seq<string>)
    ensures forall k :: 0 <= k < |chunks| - 1 ==> |chunks[k]| == 2
    ensures |chunks| > 0 ==> 1 <= |chunks[|chunks| - 1]| <= 2
    ensures |s| == 0 <==> |chunks| == 0
    decreases |s|
  {
    if |s| == 0 then []
    else if |s| <= 2 then [s]
    else [s[..2]] + Pairs(s[2..])
  }

  /** `slugify_id(path, language)`: the language code followed by the
      digits of the path, cut into pairs joined by dashes. */
  function SlugifyId(path: string, language: string): (slug: string)
    ensures '-' !in language ==> DropDashes(slug) == language + KeepDigits(path)
  {
    var slug := Join(Pairs(language + KeepDigits(path)), "-");
    if '-' in language then slug
    else
      DropDashesPairs(language + KeepDigits(path));
      slug
  }

  /** The characters of `s` other than dashes, in order. */
  function DropDashes(s: string): string
    decreases |s|
  {
    if |s| == 0 then "" else (if s[0] == '-' then "" else [s[0]]) + DropDashes(s[1..])
  }

  lemma {:induction false} DropDashesAppend(a: string, b: string)
    ensures DropDashes(a + b) == DropDashes(a) + DropDashes(b)
    decreases |a|
  {
    if |a| > 0 {
      DropDashesAppend(a[1..], b);
      assert (a + b)[1..] == a[1..] + b;
    } else {
      assert a + b == b;
    }
  }

  lemma {:induction false} DropDashesFree(s: string)
    requires '-' !in s
    ensures DropDashes(s) == s
    decreases |s|
  {
    if |s| > 0 {
      DropDashesFree(s[1..]);
    }
  }

  lemma {:induction false} DropDashesPairs(s: string)
    requires '-' !in s
    ensures DropDashes(Join(Pairs(s), "-")) == s
    decreases |s|
  {
    if |s| > 2 {
      var rest := Pairs(s[2..]);
      DropDashesPairs(s[2..]);
      assert Pairs(s) == [s[..2]] + rest;
      assert (Pairs(s))[1..] == rest;
      assert Join(Pairs(s), "-") == s[..2] + "-" + Join(rest, "-");
      DropDashesAppend(s[..2] + "-", Join(rest, "-"));
      DropDashesAppend(s[..2], "-");
      DropDashesFree(s[..2]);
      assert s == s[..2] + s[2..];
    } else if |s| > 0 {
      DropDashesFree(s);
    }
  }

  /** The slug keeps every character: removing its dashes gives back the
      language code followed by the digits of the path, and every chunk
      but the last has two characters. */
  lemma SlugifyIdContent(path: string, language: string)
    requires '-' !in language
    ensures DropDashes(SlugifyId(path, language)) == language + KeepDigits(path)
    ensures forall k :: 0 <= k < |Pairs(language + KeepDigits(path))| - 1 ==>
      |Pairs(language + KeepDigits(path))[k]| == 2
  {
    DropDashesPairs(language + KeepDigits(path));
  }

  const TitleStripChars: set<char> := {' ', '-', '0', '1', '2', '3', '4', '5', '6', '7', '8', '9'}

  /** `filter_title`: drop leading spaces, dashes and digits, remove every
      ".md", then strip surrounding whitespace. */
  function FilterTitle(path: string): (r: string)
    ensures |r| > 0 ==> !IsSpace(r[0]) && !IsSpace(r[|r| - 1])
  {
    var t := PyStrings.Replace(LStripSet(path, TitleStripChars), ".md", "");
    var l := LStripSpace(t);
    var r := RStripSpace(l);
    assert |r| > 0 ==> r[0] == l[0];
    r
  }

  /** `lstrip(chars)` drops a leading run of those characters and stops
      at the first other one. */
  lemma {:induction false} LStripSetRun(p: string, t: string, chars: set<char>)
    requires forall i :: 0 <= i < |p| ==> p[i] in chars
    requires |t| > 0 ==> t[0] !in chars
    ensures LStripSet(p + t, chars) == t
    decreases |p|
  {
    if |p| == 0 {
      assert p + t == t;
    } else {
      LStripSetRun(p[1..], t, chars);
      assert (p + t)[0] == p[0];
      assert (p + t)[1..] == p[1..] + t;
    }
  }

  /** A piece without ".md" holds no occurrence that starts inside it,
      even one reaching into a following ".md". */
  lemma MdFreeHead(a: string, b: string)
    requires !Contains(a, ".md")
    ensures forall j :: 0 <= j < |a| ==> !OccursAt(a + ".md" + b, ".md", j)
  {
    var s := a + ".md" + b;
    forall j | 0 <= j < |a|
      ensures !OccursAt(s, ".md", j)
    {
      if j + 3 <= |a| {
        assert s[j..j + 3] == a[j..j + 3];
        assert !OccursAt(a, ".md", j);
      } else if j + 2 == |a| {
        assert s[j + 2] == '.';
        assert s[j..j + 3][2] == s[j + 2];
      } else {
        assert s[j + 1] == '.';
        assert s[j..j + 3][1] == s[j + 1];
      }
    }
  }

  /** Pieces without ".md", joined with ".md", split back into
      themselves. */
  lemma {:induction false} SplitJoinMd(pieces: seq<string>)
    requires |pieces| >= 1
    requires forall k :: 0 <= k < |pieces| ==> !Contains(pieces[k], ".md")
    ensures Split(Join(pieces, ".md"), ".md") == pieces
    decreases |pieces|
  {
    if |pieces| == 1 {
      SplitWithoutSep(pieces[0], ".md");
    } else {
      SplitJoinMd(pieces[1..]);
      MdFreeHead(pieces[0], Join(pieces[1..], ".md"));
      FirstSepAt(pieces[0], ".md", Join(pieces[1..], ".md"));
      assert pieces == [pieces[0]] + pieces[1..];
    }
  }

  /** `replace('.md', '')` on pieces free of ".md", joined with ".md",
      gives the pieces run together. */
  lemma ReplaceJoinMd(pieces: seq<string>)
    requires |pieces| >= 1
    requires forall k :: 0 <= k < |pieces| ==> !Contains(pieces[k], ".md")
    ensures PyStrings.Replace(Join(pieces, ".md"), ".md", "") == Join(pieces, "")
  {
    SplitJoinMd(pieces);
  }

  /** The title of a name made of a leading run of spaces, dashes and
      digits, then pieces separated by ".md": the run is dropped, every
      ".md" is removed and the rest is stripped. */
  lemma FilterTitleSpec(p: string, pieces: seq<string>)
    requires forall i :: 0 <= i < |p| ==> p[i] in TitleStripChars
    requires |pieces| >= 1 && forall k :: 0 <= k < |pieces| ==> !Contains(pieces[k], ".md")
    requires var t := Join(pieces, ".md"); |t| > 0 ==> t[0] !in TitleStripChars
    ensures FilterTitle(p + Join(pieces, ".md")) == Strip(Join(pieces, ""))
  {
    LStripSetRun(p, Join(pieces, ".md"), TitleStripChars);
    ReplaceJoinMd(pieces);
  }

  /** A title with no leading number, no ".md" and no surrounding
      whitespace passes through unchanged. */
  lemma FilterTitleKeepsPlainTitle(path: string)
    requires |path| > 0 ==> path[0] !in TitleStripChars && !IsSpace(path[0]) && !IsSpace(path[|path| - 1])
    requires !Contains(path, ".md")
    ensures FilterTitle(path) == path
  {
    assert LStripSet(path, TitleStripChars) == path;
    SplitWithoutSep(path, ".md");
    assert PyStrings.Replace(path, ".md", "") == path by {
      assert Join([path], "") == path;
    }
    assert LStripSpace(path) == path;
    assert RStripSpace(path) == path;
  }

  // ---------------------------------------------------------------------
  // Publication visibility

  const NoSuchProject := "No such project."
  const NoSuchPublication := "No such publication_id."
  const ContentMissing := "Content does not exist"
  const NotPublished := "Content is not published"
  const NotExternallyPublished := "Content is not externally published"

  /** The publication status: -1 if a flag is null, else the least flag. */
  function CombinedStatus(flags: seq<Option<int>>): (status: int)
    requires |flags| > 0
    ensures (exists i :: 0 <= i < |flags| && flags[i].None?) ==> status == -1
    ensures (forall i :: 0 <= i < |flags| ==> flags[i].Some?) ==>
      (exists i :: 0 <= i < |flags| && status == flags[i].value)
      && (forall i :: 0 <= i < |flags| ==> status <= flags[i].value)
    decreases |flags|
  {
    if |flags| == 1 then (if flags[0].None? then -1 else flags[0].value)
    else
      var rest := CombinedStatus(flags[1..]);
      if flags[0].None? then -1
      else if exists i :: 1 <= i < |flags| && flags[i].None? then
        assert exists i :: 0 <= i < |flags[1..]| && flags[1..][i].None?;
        -1
      else if flags[0].value <= rest then flags[0].value
      else
        assert forall i :: 0 <= i < |flags[1..]| ==> flags[1..][i].Some?;
        rest
  }

  /** The decision shared by both status functions: shown, or the reason
      it is not. */
  function Visibility(status: int, showInternal: bool): (r: (bool, string))
    ensures r.0 <==> status >= 1 && (status != 1 || showInternal)
    ensures r.0 ==> r.1 == ""
    ensures status < 1 ==> r.1 == NotPublished
    ensures status == 1 && !showInternal ==> r.1 == NotExternallyPublished
  {
    if status < 1 then (false, NotPublished)
    else if status == 1 && !showInternal then (false, NotExternallyPublished)
    else (true, "")
  }

  /** `get_published_status`. The project's configuration is given by its
      `show_internally_published` switch (`None` for no such project), the
      database row by its three published flags. */
  function GetPublishedStatus(showInternal: Option<bool>, publicationId: Json,
                              row: Option<(Option<int>, Option<int>, Option<int>)>): (r: (bool, string))
    ensures r.0 <==> (showInternal.Some? && !publicationId.JNull? && Str(publicationId) != "undefined"
                      && row.Some? && row.value.0.Some? && row.value.1.Some? && row.value.2.Some?
                      && var m := Min3(row.value.0.value, row.value.1.value, row.value.2.value);
                         m >= 1 && (m != 1 || showInternal.value))
    ensures showInternal.None? ==> r == (false, NoSuchProject)
  {
    if showInternal.None? then (false, NoSuchProject)
    else if publicationId.JNull? || Str(publicationId) == "undefined" then (false, NoSuchPublication)
    else if row.None? then (false, ContentMissing)
    else
      var (p, c, q) := row.value;
      var status := CombinedStatus([p, c, q]);
      CombinedStatus3(p, c, q);
      Visibility(status, showInternal.value)
  }

  function Min3(a: int, b: int, c: int): int {
    if a <= b && a <= c then a else if b <= c then b else c
  }

  lemma CombinedStatus3(p: Option<int>, c: Option<int>, q: Option<int>)
    ensures CombinedStatus([p, c, q]) ==
      if p.Some? && c.Some? && q.Some? then Min3(p.value, c.value, q.value) else -1
  {
    var fs := [p, c, q];
    assert fs[0] == p && fs[1] == c && fs[2] == q;
  }

  /** `get_collection_published_status`: the same rule over the project's
      and collection's flags, without the null check (`min` of `None`
      raises `TypeError`). */
  function GetCollectionPublishedStatus(showInternal: Option<bool>,
                                        row: Option<(Option<int>, Option<int>)>): (r: Result<(bool, string), PyError>)
    ensures r.Failure? <==> showInternal.Some? && row.Some? && (row.value.0.None? || row.value.1.None?)
    ensures r.Success? && r.value.0 <==>
      (showInternal.Some? && row.Some? && row.value.0.Some? && row.value.1.Some?
       && var m := if row.value.0.value <= row.value.1.value then row.value.0.value else row.value.1.value;
          m >= 1 && (m != 1 || showInternal.value))
  {
    if showInternal.None? then Success((false, NoSuchProject))
    else if row.None? then Success((false, ContentMissing))
    else if row.value.0.None? || row.value.1.None? then Failure(TypeError)
    else
      var p := row.value.0.value;
      var c := row.value.1.value;
      Success(Visibility(if p <= c then p else c, showInternal.value))
  }

  // ---------------------------------------------------------------------
  // Cache freshness

  /** `cache_is_recent` over modification times (`None` for a file whose
      time cannot be read) and the current time. */
  function CacheIsRecent(source: Option<int>, xsl: Option<int>, cache: Option<int>,
                         now: int, lifetime: int): (recent: bool)
    ensures recent <==> (source.Some? && xsl.Some? && cache.Some?
                         && source.value <= cache.value && xsl.value <= cache.value
                         && now <= cache.value + lifetime)
  {
    if source.None? || xsl.None? || cache.None? then false
    else if source.value > cache.value || xsl.value > cache.value then false
    else if now > cache.value + lifetime then false
    else true
  }

  // ---------------------------------------------------------------------
  // Table of contents

  /** A table-of-contents item: its `itemId` and `type` (`JNull` when the
      key is missing) and its `children` (empty when missing). */
  datatype TocItem = TocItem(itemId: Json, kind: Json, children: seq<TocItem>)

  /** The item has an `itemId` other than `None` and "". */
  predicate HasItemId(t: TocItem) {
    t.itemId != JNull && t.itemId != JStr("")
  }

  /** Every item below `t`, in pre-order, `t` itself excluded. */
  function Descendants(t: TocItem): seq<TocItem>
    decreases t, 1
  {
    DescendantsOf(t, t.children)
  }

  function DescendantsOf(parent: TocItem, cs: seq<TocItem>): seq<TocItem>
    requires forall i :: 0 <= i < |cs| ==> cs[i] < parent
    decreases parent, 0, |cs|
  {
    if |cs| == 0 then [] else [cs[0]] + Descendants(cs[0]) + DescendantsOf(parent, cs[1..])
  }

  /** The items of `s` that have an `itemId`, in order. */
  function WithItemId(s: seq<TocItem>): (r: seq<TocItem>)
    ensures forall i :: 0 <= i < |r| ==> HasItemId(r[i])
    decreases |s|
  {
    if |s| == 0 then [] else (if HasItemId(s[0]) then [s[0]] else []) + WithItemId(s[1..])
  }

  lemma {:induction false} WithItemIdAppend(a: seq<TocItem>, b: seq<TocItem>)
    ensures WithItemId(a + b) == WithItemId(a) + WithItemId(b)
    decreases |a|
  {
    if |a| > 0 {
      WithItemIdAppend(a[1..], b);
      assert (a + b)[1..] == a[1..] + b;
    } else {
      assert a + b == b;
    }
  }

  /** `flatten_json(t, flattened)`: walks the children of `t` in order,
      appending each child that has an `itemId` and then descending into
      it. The result is the list after the call. */
  method FlattenJson(t: TocItem, flattened: seq<TocItem>) returns (out: seq<TocItem>)
    ensures out == flattened + WithItemId(Descendants(t))
    decreases t
  {
    out := flattened;
    var i := 0;
    while i < |t.children|
      invariant 0 <= i <= |t.children|
      invariant out == flattened + WithItemId(DescendantsOf(t, t.children[..i]))
    {
      var c := t.children[i];
      ghost var before := out;
      if HasItemId(c) {
        out := out + [c];
      }
      ghost var own := out;
      out := FlattenJson(c, out);
      FlattenPass(t, i, flattened, before, own, out);
      i := i + 1;
    }
    assert t.children[..i] == t.children;
  }

  /** What one pass of the loop in `FlattenJson` adds. */
  lemma FlattenStep(t: TocItem, i: int)
    requires 0 <= i < |t.children|
    ensures WithItemId(DescendantsOf(t, t.children[..i + 1])) ==
      WithItemId(DescendantsOf(t, t.children[..i]))
      + (if HasItemId(t.children[i]) then [t.children[i]] else [])
      + WithItemId(Descendants(t.children[i]))
  {
    var c := t.children[i];
    assert t.children[..i + 1] == t.children[..i] + [c];
    DescendantsOfSnoc(t, t.children[..i], c);
    assert DescendantsOf(t, t.children[..i]) + [c] + Descendants(c)
      == DescendantsOf(t, t.children[..i]) + ([c] + Descendants(c));
    WithItemIdAppend(DescendantsOf(t, t.children[..i]), [c] + Descendants(c));
    WithItemIdAppend([c], Descendants(c));
    assert WithItemId([c]) == (if HasItemId(c) then [c] else []) + WithItemId([]);
  }

  /** The loop invariant of `FlattenJson` survives one pass. */
  lemma FlattenPass(t: TocItem, i: int, flattened: seq<TocItem>, before: seq<TocItem>, own: seq<TocItem>, after: seq<TocItem>)
    requires 0 <= i < |t.children|
    requires before == flattened + WithItemId(DescendantsOf(t, t.children[..i]))
    requires own == before + (if HasItemId(t.children[i]) then [t.children[i]] else [])
    requires after == own + WithItemId(Descendants(t.children[i]))
    ensures after == flattened + WithItemId(DescendantsOf(t, t.children[..i + 1]))
  {
    FlattenStep(t, i);
  }

  lemma {:induction false} DescendantsOfSnoc(parent: TocItem, cs: seq<TocItem>, c: TocItem)
    requires forall i :: 0 <= i < |cs| ==> cs[i] < parent
    requires c < parent
    ensures DescendantsOf(parent, cs + [c]) == DescendantsOf(parent, cs) + [c] + Descendants(c)
    decreases |cs|
  {
    if |cs| == 0 {
      assert DescendantsOf(parent, [c]) == [c] + Descendants(c) + DescendantsOf(parent, []);
    } else {
      assert (cs + [c])[1..] == cs[1..] + [c];
      DescendantsOfSnoc(parent, cs[1..], c);
    }
  }

  /** The item `get_first_valid_item_from_toc` looks for: an `itemId` and
      a `type` other than `None`, "subtitle" and "section_title". */
  predicate IsValidTocItem(t: TocItem) {
    HasItemId(t) && t.kind != JNull && t.kind != JStr("subtitle") && t.kind != JStr("section_title")
  }

  /** `get_first_valid_item_from_toc`: the first valid item, `None`
      standing for the empty dictionary returned when there is none. */
  function FirstValidItem(items: seq<TocItem>): (r: Option<TocItem>)
    ensures r.None? <==> forall i :: 0 <= i < |items| ==> !IsValidTocItem(items[i])
    ensures r.Some? ==> exists i :: (0 <= i < |items| && items[i] == r.value
                                     && IsValidTocItem(items[i]) && forall j :: 0 <= j < i ==> !IsValidTocItem(items[j]))
    decreases |items|
  {
    if |items| == 0 then None
    else if IsValidTocItem(items[0]) then Some(items[0])
    else
      var r := FirstValidItem(items[1..]);
      assert r.Some? ==> exists i :: (1 <= i < |items| && items[i] == r.value
        && IsValidTocItem(items[i]) && forall j :: 0 <= j < i ==> !IsValidTocItem(items[j]))
      by {
        if r.Some? {
          var k :| 0 <= k < |items[1..]| && items[1..][k] == r.value
            && IsValidTocItem(items[1..][k]) && forall j :: 0 <= j < k ==> !IsValidTocItem(items[1..][j]);
          assert items[k + 1] == r.value;
          forall j | 0 <= j < k + 1
            ensures !IsValidTocItem(items[j])
          {
            if j > 0 {
              assert items[j] == items[1..][j - 1];
            }
          }
        }
      }
      r
  }
}
