# sls_gde_api — a Dafny model of its deterministic core

`sls_gde_api` is the Flask back end of the SLS digital-edition platform.
Most of it moves rows between a database, XML files and JSON responses.
The routines modelled here are the self-contained, deterministic rules inside
that plumbing. Each one is written as pure Dafny functions over immutable
data, and its contract states the rule:

- **Generic validators** (`Generics`): project-name and bounded-integer
  validation, the year, date and year-month checks, `split_after`,
  `slugify_id`, `filter_title`, the publication visibility rule, cache
  freshness, and the pre-order flattening of a table of contents.
- **OAI-PMH handlers** (`OaiCommon`, `OaiSls`, `OaiLegacy`, `OaiLibrary`).
  - Three request validators check the verb and argument rules of sections
    4.1 to 4.6 of the OAI-PMH 2.0 specification, as the code applies them.
  - They report the error conditions of its section 3.6, and map them to
    HTTP status.
  - The record helpers are the element builders, the publisher join, the
    EAD level and the "name (role)" person parsing.
  - The library handler composes its SQL date clauses and bind parameters.
- **Editor-tool validators** (`Publishing`): each edit endpoint checks its
  URL ids, then folds the JSON body over a fixed, ordered field list. The
  result is either the first field's error or the values the statement
  stores.
- **File tools** (`FileTree`, `ProjectFiles`, `WebFiles`, `DeTools`):
  - the tree built from `git ls-files`;
  - the ordered project-configuration checks and the test-mode switch;
  - the commit author;
  - the `.xml` path guard;
  - the permission decorator of the digital-edition tools.
- **TEI post-processing** (`TeiDelSpans`, `TeiNumbering`, `TeiNotes`):
  - the `delSpan` removal scan;
  - chapter-aware numbering of blocks, poem lines, tables and headings;
  - editor-note positions and chapters;
  - note ids;
  - the sub > ort > int variant priority;
  - header metadata with genre and text-type mapping.
  A document enters as its elements (or anchors, or `app` elements) in
  document order, each carrying what the source's XPath queries ask of it.
- **Saxon helpers** (`Saxon`): the duplicate-free namespace registry,
  blank-line removal, comment-id extraction, and the line break after an
  XML declaration.
- **Small rules** (`Users`, `Facsimiles`, `Metadata`):
  - comma-list project rights;
  - facsimile page arithmetic and publication gating;
  - the markdown glob pattern;
  - tooltip id classification;
  - the table-of-contents upload rule.

The shared modules supply the Python behaviour the code relies on:
- `Wrappers` holds `Option` and `Result`.
- `PyStrings` holds `str` methods and `int()`.
- `Json` holds JSON values: a `bool` passes `isinstance(v, int)`, and a
  dict is an ordered association list.
- `Http` holds a handler's early answer, or the exception Flask turns into
  a 500.

The repository's written specification describes deployment only. Every
rule here therefore follows the code.

## Model

| member | source | states |
|---|---|---|
| Generics.AllowedFacsimile | sls_api/endpoints/generics.py:76-78 | accepted iff the name has a dot and the lower-cased text after its last dot is one of tif, tiff, png, jpg, jpeg |
| Generics.IntOrNone | sls_api/endpoints/generics.py:87-91 | `int(v)` for integers and booleans, the `int()` parse of a string, and `None` for null, lists and objects |
| Generics.ValidateProjectName | sls_api/endpoints/generics.py:757-765 | the length message iff the length is below 3 or above 32; the character message iff the length is fine and some character is outside a-z, 0-9, `_`; no error iff neither |
| Generics.ValidateInt | sls_api/endpoints/generics.py:786-792 | true iff the value is an `int` instance (booleans included) and lies within each given bound, bounds inclusive |
| Generics.BoolPassesValidateInt | sls_api/endpoints/generics.py:786-792 | `true` and `false` pass exactly the bounds 1 and 0 pass |
| Generics.HandleDeletedFlag | sls_api/endpoints/generics.py:860-862 | a truthy `deleted` sets `published` to 0 and leaves every other key as it was; otherwise the values are returned unchanged |
| Generics.IsValidYear | sls_api/endpoints/generics.py:883-888 | true iff the string is all digits and its value is between 1 and 9999 |
| Generics.IsValidYearWritten | sls_api/endpoints/generics.py:866-872 | every year 1..9999 written plainly is valid, and a leading zero never changes the verdict ("0456" and "456") |
| Generics.ParseDate | sls_api/endpoints/generics.py:916-920 | a date `strptime("%Y-%m-%d")` accepts is a real calendar date with a year from 1 to 9999 |
| Generics.ParseFormatDate | sls_api/endpoints/generics.py:916-920 | a date written as `%Y-%m-%d` parses back to itself exactly when the day exists in that month |
| Generics.IsValidDateExamples | sls_api/endpoints/generics.py:901-910 | "2023-10-31" is valid; "2023-02-29", "2023-13-31" and "23-10-31" are not |
| Generics.ParseYearMonth | sls_api/endpoints/generics.py:944-948 | an accepted `%Y-%m` string gives a year in 1..9999 and a month in 1..12 |
| Generics.YearMonthExamples | sls_api/endpoints/generics.py:938-941 | "2023-10" is a valid year and month and "2023-13" is not |
| Generics.IsValidDate | sls_api/endpoints/generics.py:891-920 | an accepted date has 8 to 10 characters, a four-digit year token and a "-" after it |
| Generics.IsValidYearMonth | sls_api/endpoints/generics.py:923-948 | an accepted year and month has 6 or 7 characters, a four-digit year, a "-" and a month token |
| Generics.IsAnyValidDateFormat | sls_api/endpoints/generics.py:951-977 | an accepted string starts with a digit; a string without "-" is accepted iff it is a valid year, and one with "-" iff it parses as `%Y-%m-%d` or as `%Y-%m` |
| Generics.AnyDateFormatExamples | sls_api/endpoints/generics.py:951-977 | "2023-10" and "2023-10-31" are accepted, "2023-13" is not |
| Generics.SplitAfter | sls_api/endpoints/generics.py:241-248 | "" when `a` is absent; otherwise the text after its last occurrence, which never contains a non-empty `a` |
| Generics.KeepDigits | sls_api/endpoints/generics.py:207 | only digits are kept, never more characters than given, and an all-digit input is kept whole |
| Generics.KeepDigitsChar | sls_api/endpoints/generics.py:207 | one character is kept iff it is an ASCII digit |
| Generics.KeepDigitsAppend | sls_api/endpoints/generics.py:207 | the digits of a concatenation are the digits of each part in turn, so no digit is lost or reordered |
| Generics.KeepDigitsAt | sls_api/endpoints/generics.py:207 | each digit of the input appears in the result between the digits before it and those after it |
| Generics.Pairs | sls_api/endpoints/generics.py:209 | every chunk but the last has two characters, the last has one or two, and only the empty text gives no chunks |
| Generics.DropDashesPairs | sls_api/endpoints/generics.py:209 | dash-joining the pairs of a dash-free text and removing the dashes gives the text back |
| Generics.SlugifyIdContent | sls_api/endpoints/generics.py:206-210 | for a language code without '-', the slug without its dashes is the language followed by the digits of the path, and every chunk but the last has length 2 |
| Generics.SlugifyId | sls_api/endpoints/generics.py:206-210 | for a language code without "-", removing the dashes from the slug gives the language followed by the digits of the path |
| Generics.FilterTitle | sls_api/endpoints/generics.py:235-238 | the title neither starts nor ends with whitespace |
| Generics.FilterTitleKeepsPlainTitle | sls_api/endpoints/generics.py:235-238 | a title without a leading number or dash, without ".md" and without surrounding whitespace is returned unchanged |
| Generics.LStripSetRun | sls_api/endpoints/generics.py:236 | `lstrip(chars)` removes a leading run of those characters and keeps everything from the first other character |
| Generics.MdFreeHead | sls_api/endpoints/generics.py:237 | a piece without ".md" holds no occurrence of ".md" starting inside it, even when a later ".md" follows |
| Generics.SplitJoinMd | sls_api/endpoints/generics.py:237 | pieces without ".md", joined with ".md", split back into the same pieces |
| Generics.ReplaceJoinMd | sls_api/endpoints/generics.py:237 | removing every ".md" from pieces free of ".md" joined with ".md" leaves the pieces concatenated |
| Generics.FilterTitleSpec | sls_api/endpoints/generics.py:235-238 | a title made of a run of spaces, dashes and digits followed by ".md"-separated pieces gives the pieces concatenated without ".md", then stripped |
| Generics.CombinedStatus | sls_api/endpoints/generics.py:305-308 | -1 when some flag is null; otherwise one of the flags and no greater than any of them (their minimum) |
| Generics.Visibility | sls_api/endpoints/generics.py:309-314 | shown iff status >= 1 and (status != 1 or internal publications are shown); "not published" below 1, "not externally published" at 1 |
| Generics.GetPublishedStatus | sls_api/endpoints/generics.py:280-316 | shown iff the project exists, the publication id is neither null nor "undefined", the row exists, no flag is null and the minimum flag passes the visibility rule; "No such project." when the project is unknown |
| Generics.GetCollectionPublishedStatus | sls_api/endpoints/generics.py:330-358 | a `TypeError` exactly when a flag of an existing row is null; otherwise shown iff the minimum of the two flags passes the visibility rule |
| Generics.CacheIsRecent | sls_api/endpoints/generics.py:251-267 | recent iff all three times can be read, neither source nor stylesheet is newer than the cache, and the cache is within its lifetime |
| Generics.WithItemId | sls_api/endpoints/generics.py:711 | every kept item has a non-empty `itemId` |
| Generics.FlattenJson | sls_api/endpoints/generics.py:707-713 | the list grows by exactly the descendants of the item (the root excluded) that have an `itemId`, in pre-order |
| Generics.FlattenStep | sls_api/endpoints/generics.py:710-713 | one loop pass appends the child, when it has an `itemId`, and then its own flattened descendants |
| Generics.FirstValidItem | sls_api/endpoints/generics.py:717-721 | none (the empty dict) iff no item is valid; otherwise the first item with an `itemId` and a type other than null, "subtitle" and "section_title" |
| FileTree.InsertSpec | sls_api/endpoints/tools/files.py:673-683 | storing a split path fails (a `TypeError` on `None`) iff a proper prefix is a file; otherwise the path is a file, each proper prefix a directory, nothing lies below it, and every path that parts ways with it is untouched, so an existing directory is reused with its other entries |
| FileTree.GetThrough | sls_api/endpoints/tools/files.py:681-683 | below the first segment a path is looked up in the directory stored there, or in the fresh empty one |
| FileTree.Insert | sls_api/endpoints/tools/files.py:671-683 | storing split parts fails only with `TypeError`; on success the top-level keys are the old ones plus the first part, and every other top-level entry is unchanged |
| FileTree.RecurseUnfolds | sls_api/endpoints/tools_files.py:421-433 | the model of `_recurse` satisfies its recursion: no tail stores `None` under the head; otherwise the "/"-joined tail goes into the head's directory, created when absent |
| FileTree.Recurse | sls_api/endpoints/tools/files.py:671-683 | `_recurse` on a path fails only with `TypeError`; otherwise it adds the first "/" segment to the top-level keys and no other key |
| FileTree.PathListToTree | sls_api/endpoints/tools/files.py:661-668 | the empty list gives the empty dictionary |
| FileTree.InsertAll | sls_api/endpoints/tools/files.py:661-668 | the loop over the list fails only with `TypeError`; otherwise the top-level keys are the old ones plus the first segment of every path |
| FileTree.LastPathInstalled | sls_api/endpoints/tools_files.py:411-418 | after the whole list, the last path is a file of the tree and its prefixes are directories |
| FileTree.TreeExamples | sls_api/endpoints/tools/files.py:679-683 | "a/b","a/c" share the node "a"; "a/b","a" overwrite the directory with `None`; "a","a/b" raise `TypeError` |
| ProjectFiles.CheckConfig | sls_api/endpoints/tools/files.py:28-37 | no configuration gives "Project config not found."; then, in order, git_repository (skipped in a test), git_branch and file_root are reported as the first missing key, each message iff the earlier checks pass and that key is absent; "Project config OK." iff all pass |
| ProjectFiles.IsATestAsWritten | sls_api/endpoints/tools/files.py:160-169 | no configuration is a test iff in debug mode; a configuration without git_repository raises `KeyError`; otherwise a test iff git_repository is `None` and in debug mode |
| ProjectFiles.CheckProjectConfigAsWritten | sls_api/endpoints/tools/files.py:23-37 | the check as written raises exactly when a configuration exists without git_repository, and the error is `KeyError`; success needs git_branch and file_root |
| ProjectFiles.RepositoryMessageUnreachable | sls_api/endpoints/tools/files.py:30-32 | the "git_repository not in project config." message is never returned; a configuration without the key raises `KeyError` instead |
| ProjectFiles.IsATest | sls_api/endpoints/tools/files.py:162 | the documented test rule: only in debug mode, always for a missing git_repository, and as the code decides where the key is present |
| ProjectFiles.CheckProjectConfig | sls_api/endpoints/tools/files.py:23-37 | the intended check never raises; ok iff the configuration exists with git_branch and file_root and either git_repository or debug mode; the missing-repository message only outside debug mode |
| ProjectFiles.CheckProjectConfigAgrees | sls_api/endpoints/tools/files.py:23-37 | where git_repository is configured, the intended check and the code agree |
| ProjectFiles.MissingRepositoryExample | sls_api/endpoints/tools/files.py:30-32 | a configuration with branch and file root but no repository raises as written and reports the missing repository as intended |
| ProjectFiles.Author | sls_api/endpoints/tools/files.py:278-281 | "name <email>", the name being the address up to its first "@" (all of it without one) and free of "@" |
| ProjectFiles.AuthorOf | sls_api/endpoints/tools/files.py:271 | the "author" value defaults to the token subject; a non-string author raises `AttributeError` at `split` |
| ProjectFiles.XmlPathOk | sls_api/endpoints/tools/files.py:337-338 | passes iff ".xml" occurs in the path and its first occurrence is not at index 0 |
| ProjectFiles.XmlPathExamples | sls_api/endpoints/tools/files.py:337-346 | "a.xml" passes; ".xml/b.xml" and "a.txt" fail |
| ProjectFiles.UpdateFileChecks | sls_api/endpoints/tools/files.py:262-346 | the intended checks in order: unknown project 400, empty body 400, no "file" 400; a "file" that does not decode as base64 raises `ValueError`; a failing configuration check is 500 "Error in git configuration, check configuration file."; a failing path guard, reached once the unmodelled git steps succeed, is 500 "File path error"; success needs all of them and gives the author string |
| ProjectFiles.UpdateFileChecksAsWritten | sls_api/endpoints/tools/files.py:262-293 | the checks as written: a request that reaches the configuration check with a configuration lacking git_repository raises `KeyError` |
| ProjectFiles.UpdateFileAgrees | sls_api/endpoints/tools/files.py:262-346 | where the configuration has git_repository, the checks as written and the intended ones give the same answer |
| ProjectFiles.UpdateFileMissingRepository | sls_api/endpoints/tools/files.py:284-293 | a body with a decodable "file" and a configuration without git_repository raises `KeyError` as written and is 500 with the git-configuration message as intended |
| WebFiles.WebIsATestAsWritten | sls_api/endpoints/tools_files.py:186-191 | `KeyError` iff the configuration lacks git_repository; otherwise a test iff git_repository is `None` and in debug mode (else `None`, falsy) |
| WebFiles.CheckWebRepoConfigAsWritten | sls_api/endpoints/tools_files.py:22-35 | the web-files check as written raises exactly when the project is configured without git_repository, and the error is `KeyError`; success needs git_branch and file_root |
| WebFiles.WebRepositoryMessageUnreachable | sls_api/endpoints/tools_files.py:22-35 | the missing-repository message is never returned, a configuration without the key raises `KeyError`, and where the key is present the check equals the intended configuration check |
| DeTools.CheckProjectGitConfig | sls_api/endpoints/digital_edition_tools.py:592-602 | not found for an unknown project; the first missing key of git_repository, git_config, git_branch, file_root is reported, each iff the earlier keys are present and it is absent (the branch message ending in "-"); ok iff all four are present |
| DeTools.PermissionAsWritten | sls_api/endpoints/digital_edition_tools.py:36-47 | 403 iff there is no positional argument and no "projects" keyword; any other refusal is no response at all; a positional project runs the view iff it is in the identity's projects |
| DeTools.FlaskCallRefused | sls_api/endpoints/digital_edition_tools.py:39-47 | a call with the project as the "project" keyword is refused with 403 whatever the identity holds |
| DeTools.Permission | sls_api/endpoints/digital_edition_tools.py:30-47 | the intended decorator: the project is the first positional argument or the "project" keyword; it proceeds iff the identity's projects hold it and answers 403 otherwise |
| DeTools.FlaskCallGranted | sls_api/endpoints/digital_edition_tools.py:30-47 | the intended decorator lets a user granted the project through a keyword call |
| OaiCommon.Arg | sls_api/endpoints/oai.py:133 | `req.args[name]` is defined iff the name was given, and is the value of its first occurrence |
| OaiCommon.Params.Size | sls_api/endpoints/oai.py:178-193 | `len(valid_params)` counts at most the seven possible keys |
| OaiCommon.SanityCheck | sls_api/endpoints/oai.py:174-194 | no error iff there is no verb or the verb's argument rules hold (Identify/ListSets alone; ListMetadataFormats at most an identifier; ListIdentifiers/ListRecords a prefix and no identifier; GetRecord prefix, identifier and size 3, setName counted); every error is badArgument |
| OaiCommon.Validate | sls_api/endpoints/oai.py:121-196 | an unknown argument returns badArgument at once with no parameters; otherwise the error is the first failing check in the order verb, from, until, set, prefix, and only without one do the verb rules decide; a passing request satisfies its verb's rules; the verb is recorded iff there is no unknown argument and the verb is known |
| OaiCommon.ArgStepsError | sls_api/endpoints/oai.py:133-172 | since each step runs only while no error is set, the error after the steps is the first failing check |
| OaiCommon.ArgStepsParams | sls_api/endpoints/oai.py:133-170 | without an error, the parameters are exactly the given arguments (dates as parsed, the set with its name) |
| OaiCommon.FromStepOk | sls_api/endpoints/oai.py:138-144 | a from step that leaves no error had none before and records the parsed date when the argument is given |
| OaiCommon.UntilStepOk | sls_api/endpoints/oai.py:146-152 | an until step that leaves no error had none before and records the parsed date when the argument is given |
| OaiCommon.IdentifierStepOk | sls_api/endpoints/oai.py:154-155 | the identifier step records the identifier when given |
| OaiCommon.SetStepOk | sls_api/endpoints/oai.py:157-165 | a set step that leaves no error records the set and its configured name |
| OaiCommon.PrefixStepOk | sls_api/endpoints/oai.py:167-172 | a prefix step that leaves no error records the prefix |
| OaiCommon.FirstSome5 | sls_api/endpoints/oai.py:133-172 | the first error of five checks, written out |
| OaiCommon.ValidationFailureIs400 | sls_api/endpoints/oai.py:103-114 | every error validation reports is answered with 400 |
| OaiCommon.FirstSome | sls_api/endpoints/oai.py:133-172 | none iff every check passed; otherwise an error no earlier check reported |
| OaiCommon.LastSome | endpoints/oai.py:19-62 | none iff every check passed; otherwise an error after which every later check passed |
| OaiCommon.StatusFor | sls_api/endpoints/oai.py:103-114 | 200 iff there is no error; 500 for internalError and databaseError, 404 for idDoesNotExist and noRecordsMatch, 400 for every other code |
| OaiCommon.ValidationErrorsAre400 | sls_api/endpoints/oai.py:103-114 | every validation error condition, sanity errors included, maps to 400 |
| OaiCommon.CreateElement | sls_api/endpoints/oai.py:199-206 | one element holding the contents iff they are non-empty, none otherwise |
| OaiCommon.NonEmpty | sls_api/endpoints/oai.py:230-232 | only non-empty pieces are kept and none are invented |
| OaiCommon.CreateSplitElementPieces | sls_api/endpoints/oai.py:220-235 | the elements are the non-empty delimiter-separated pieces in order whether or not the delimiter occurs; the pieces hold no delimiter and join back to the contents |
| OaiCommon.JoinPublishers | sls_api/endpoints/oai.py:487-493 | "p1, p2" when both are non-empty, whichever one is non-empty otherwise, and "" iff both are empty |
| OaiSls.ValidateRequest | sls_api/endpoints/oai.py:157-172 | a passing request's set is SLSeuropeana or SLSfinna with its name recorded and its prefix one of oai_dc, europeana, ead; any other set or prefix is an error |
| OaiSls.ResponseStatus | sls_api/endpoints/oai.py:32-114 | a request failing validation gets 400; one passing it gets the status of the database step's error |
| OaiSls.ValidateRequestAsWritten | sls_api/endpoints/oai.py:128 | as written the argument loop looks up `iteritems`, which a Python 3 `MultiDict` lacks: the call raises `AttributeError` exactly then, and only past that lookup would the intended validation run |
| OaiSls.ResponseStatusAsWritten | sls_api/endpoints/oai.py:32-33 | the exception escapes `process_oai_request`, so as written every request is answered 500 |
| OaiSls.AsWrittenNeverAnswers | sls_api/endpoints/oai.py:32-128 | a request the validation refuses gets 500 as written and 400 as intended; an accepted one whose database step succeeds gets 500 instead of 200 |
| OaiSls.IdentifyRaises | sls_api/endpoints/oai.py:128 | `verb=Identify` raises `AttributeError` as written and is answered 500 |
| OaiSls.PublisherElements | sls_api/endpoints/oai.py:486-494 | one dc:publisher holding "p1, p2", p1 or p2 as given, and none when both are empty |
| OaiSls.EadLevel | sls_api/endpoints/oai.py:634-638 | "fonds" iff the lower-cased `str()` of the archive type is "arkiv", "collection" iff it is "samling", "" otherwise |
| OaiSls.EadLevelIgnoresCase | sls_api/endpoints/oai.py:634-638 | "ARKIV" and "Samling" are recognised, and a missing (None) type gives "" |
| OaiSls.PersonOf | sls_api/endpoints/oai.py:741-746 | an element iff the text before the first " (" is non-empty; its name is that text; it has a role iff the entry contains " (", and the role is the second " ("-piece with every ")" removed |
| OaiSls.PersonsOf | sls_api/endpoints/oai.py:740-746 | one element per entry whose name is non-empty, each as for a single entry, in order |
| OaiSls.Persons | sls_api/endpoints/oai.py:735-746 | the elements of the list are those of its "; "-separated entries, in order; an empty list makes none |
| OaiSls.PersonWithRole | sls_api/endpoints/oai.py:741-744 | "name (role)", with a name free of "(" and a role free of parentheses, gives a persname with that name and role |
| OaiSls.PersonWithoutRole | sls_api/endpoints/oai.py:745-746 | an entry without " (" gives a persname of the whole entry and no role |
| OaiSls.PersonsOfOne | sls_api/endpoints/oai.py:740-746 | a single entry gives exactly the element of that entry |
| OaiSls.PersonsOfAppend | sls_api/endpoints/oai.py:740-746 | the elements of two runs of entries are those of the first run followed by those of the second |
| OaiSls.PersonsOfJoined | sls_api/endpoints/oai.py:735-746 | entries without ";" joined with "; " give back the elements of those entries, one per entry, in order |
| OaiSls.PersonsOfTwo | sls_api/endpoints/oai.py:735-746 | "name (role); other" gives a persname with a role followed by one without |
| OaiLegacy.ValidateRequest | endpoints/oai.py:15-86 | the error is the last failing check in the order unknown argument, verb, from, until, set, prefix, or without one the verb rules' verdict; each parameter is recorded iff its own check passes, whatever the error; a passing request satisfies its verb's rules |
| OaiLegacy.RunChecksError | endpoints/oai.py:19-62 | every step overwrites the error with its own failure, so the error after the steps is the last failing check |
| OaiLegacy.LastSome6 | endpoints/oai.py:19-62 | the last error of six checks, written out |
| OaiLegacy.RunChecksParams | endpoints/oai.py:23-60 | the parameters after the steps: each key as its own check decides, independent of the other checks |
| OaiLegacy.CheckVerbParams | endpoints/oai.py:23-26 | the verb step records the verb iff it is known |
| OaiLegacy.CheckFromParams | endpoints/oai.py:28-34 | the from step records the parsed date when there is one |
| OaiLegacy.CheckUntilParams | endpoints/oai.py:36-42 | the until step records the parsed date when there is one |
| OaiLegacy.CheckSetParams | endpoints/oai.py:47-55 | the set step records a known set with its name and nothing for an unknown one |
| OaiLegacy.CheckPrefixParams | endpoints/oai.py:57-62 | the prefix step records a known prefix and nothing for an unknown one |
| OaiLegacy.AgreesWithNewerHandler | endpoints/oai.py:64-84 | the legacy and the newer handler accept exactly the same requests, with the same parameters, so the verb rules agree |
| OaiLegacy.ReportsLastFailure | endpoints/oai.py:23-55 | with a bad verb and an unknown set the legacy handler reports the set, the newer one the verb |
| OaiLegacy.SubjectElements | endpoints/oai.py:278-285 | no element for an empty subject; the subject itself without a comma; with a comma, element i is the i-th comma-separated piece stripped, at least two of them, none holding a comma or surrounding whitespace |
| OaiLegacy.SubjectsJoined | endpoints/oai.py:278-282 | two or more comma-free pieces joined with "," give one element per piece, each the piece stripped |
| OaiLegacy.StripPieces | endpoints/oai.py:280-282 | stripped comma-free pieces hold no comma and no surrounding whitespace |
| OaiLegacy.CommaSplitsInTwo | endpoints/oai.py:279-280 | a subject with a comma splits into at least two pieces |
| OaiLegacy.PublisherElements | endpoints/oai.py:380-389 | at most one dc:publisher, none iff both fields are empty, holding the joined publishers |
| OaiLibrary.ConfigSetName | sls_api/endpoints/oai_library.py:275-281 | none iff no configured entry has the spec; otherwise the name of the last such entry, which the loop records last |
| OaiLibrary.ValidateRequest | sls_api/endpoints/oai_library.py:240-290 | an unknown argument returns at once; a passing request's set is a configured one with its name recorded and its prefix is oai_dc; an unknown set (after verb and dates pass) gives "Unknown set" and another prefix (after the earlier checks pass) cannotDisseminateFormat |
| OaiLibrary.FirstSomePrefix | sls_api/endpoints/oai_library.py:251-290 | no error among the first n checks iff none of them failed |
| OaiLibrary.LastWordAfterSpace | sls_api/endpoints/oai_library.py:153 | `split(" ")[-1]` of a text ending in a space and a word without spaces is that word |
| OaiLibrary.WhereClauses | sls_api/endpoints/oai_library.py:145-158 | the template unchanged without dates; otherwise " WHERE " and the from-clause, the until-clause, or both in that order joined by " AND " |
| OaiLibrary.AddAfterWhere | sls_api/endpoints/oai_library.py:153-154 | the first clause follows " WHERE" after one space |
| OaiLibrary.AddAfterFrom | sls_api/endpoints/oai_library.py:155-156 | the until-clause follows a from-clause after " AND " |
| OaiLibrary.BindParams | sls_api/endpoints/oai_library.py:161-170 | each of from_date, until_date and ident is bound, with its parameter's value, iff its placeholder occurs in the statement |
| OaiLibrary.BindsFollowDates | sls_api/endpoints/oai_library.py:145-170 | for a template without placeholders exactly the given dates are bound, the from-date first |
| OaiLibrary.PlaceholdersFollowDates | sls_api/endpoints/oai_library.py:145-158 | the statement holds ":from_date" iff a from-date is given, ":until_date" iff an until-date is given, and never ":ident" |
| OaiLibrary.StatementBoth | sls_api/endpoints/oai_library.py:145-158 | the statement with both dates, written out |
| OaiLibrary.StatementFrom | sls_api/endpoints/oai_library.py:145-158 | the statement with a from-date only, written out |
| OaiLibrary.StatementUntil | sls_api/endpoints/oai_library.py:145-158 | the statement with an until-date only, written out |
| OaiLibrary.BuildSqlStatement | sls_api/endpoints/oai_library.py:144-170 | at most three parameters are bound, each one's placeholder occurs in the statement, and a statement holding ":ident" binds the identifier |
| OaiLibrary.NoDate | sls_api/endpoints/oai_library.py:165-170 | a text without ':' holds none of the three placeholders |
| OaiLibrary.OneDate | sls_api/endpoints/oai_library.py:165-170 | a text without ':' followed by one placeholder holds that placeholder and neither of the others |
| OaiLibrary.BothDates | sls_api/endpoints/oai_library.py:165-170 | with both date placeholders the statement holds both and not ":ident" |
| OaiLibrary.GetRecordBindsIdentifier | sls_api/endpoints/oai_library.py:86-87 | the GetRecord template without dates binds the identifier alone |
| OaiLibrary.GetRecordWithoutDates | sls_api/endpoints/oai_library.py:309-312 | a GetRecord request that passes validation names an identifier and carries neither a from- nor an until-date |
| OaiLibrary.QueryBindsRequest | sls_api/endpoints/oai_library.py:68-87 | for a validated request, the list verbs bind exactly the request's dates and GetRecord binds its identifier alone |
| OaiLibrary.BackendError | sls_api/endpoints/oai_library.py:68-120 | an exception gives the handler's code with "Could not retrieve metadata from database."; rows give no error; no rows give noRecordsMatch for the list verbs and idDoesNotExist for GetRecord |
| OaiLibrary.ProcessAsWritten | sls_api/endpoints/oai_library.py:22-139 | no response iff validation reports an error; a database exception is answered with 400; records found are answered with 200 |
| OaiLibrary.ProcessAsWrittenFails | sls_api/endpoints/oai_library.py:28-139 | a bad verb gets no response, and a database failure on a valid Identify gets 400 |
| OaiLibrary.Process | sls_api/endpoints/oai_library.py:22-139 | as intended: a validation error is answered with 400, a database exception with 500, found records with 200, and no records with 404 for the record verbs |
| OaiLibrary.ProcessAgreesWhenAnswered | sls_api/endpoints/oai_library.py:128-139 | where the code answers and the database step did not fail, both give the same status |
| Publishing.Fold | sls_api/endpoints/tools/publishing.py:737-758 | on an object the fold over the object's keys; on a number, boolean or null the first listed field raises `TypeError` at `in`; a non-object body never adds values |
| Publishing.FoldOther | sls_api/endpoints/tools/publishing.py:737-738 | on an array or string, `in` tests elements or substrings and a hit raises `TypeError` at `[]`; on a scalar `in` raises it |
| Publishing.FoldObject | sls_api/endpoints/tools/publishing.py:737-758 | every failure of the fold over an object is a 400 answer |
| Publishing.FoldStep | sls_api/endpoints/tools/publishing.py:737-758 | an absent field is skipped, a present field that does not pass stops with its message, one that passes is stored and the loop goes on |
| Publishing.FoldSucceeds | sls_api/endpoints/tools/publishing.py:737-758 | the fold over an object succeeds iff every listed field the body holds passes its check |
| Publishing.FoldFirstError | sls_api/endpoints/tools/publishing.py:737-758 | a failing fold reports the message of the first listed field that does not pass, every earlier one passing |
| Publishing.FoldKeys | sls_api/endpoints/tools/publishing.py:737-758 | a successful fold's keys are the earlier keys plus the listed fields the body holds |
| Publishing.FoldKeeps | sls_api/endpoints/tools/publishing.py:737-758 | a successful fold keeps every earlier value whose name is not listed again |
| Publishing.FoldStores | sls_api/endpoints/tools/publishing.py:737-758 | a successful fold stores, for each listed field the body holds, its checked value (`str()`-converted for text fields) |
| Publishing.Get | sls_api/endpoints/tools/publishing.py:146 | `request_data.get(k)` is the key's value on an object and an `AttributeError` on anything else |
| Publishing.AddNewProject | sls_api/endpoints/tools/publishing.py:138-163 | "No data provided." for a falsy body; "Project name required." for a missing or null name; success iff the `str()` of the name passes `validate_project_name` and published is absent, null or an integer 0..2; the values are the name and published, defaulting to 1 |
| Publishing.EditProject | sls_api/endpoints/tools/publishing.py:266-303 | a project id that is not a positive integer, a falsy body, and a body with neither deleted nor published are refused in that order; on an object, success iff each present flag is in range; the values are the flags present and date_modified |
| Publishing.AnyMember | sls_api/endpoints/tools/publishing.py:279-280 | on an object, true iff the body holds one of the listed fields |
| Publishing.Dated | sls_api/endpoints/tools/publishing.py:302-303 | a successful fold gains date_modified with the current time; a failure is passed on |
| Publishing.StoredConforms | sls_api/endpoints/tools/publishing.py:739-756 | a value that passes its field is stored as an integer within its bounds, a string or, where nulls pass, a null |
| Publishing.EditRecord | sls_api/endpoints/tools/publishing.py:708-764 | an unknown project, an id that is not a positive integer, and a falsy body are refused in that order; a successful edit carries date_modified |
| Publishing.FoldEmpty | sls_api/endpoints/tools/publishing.py:760-761 | a successful fold gathers nothing iff the body holds none of the listed fields |
| Publishing.EditRecordAccepts | sls_api/endpoints/tools/publishing.py:708-764 | on an object an edit succeeds iff the project and id are valid, the body is non-empty, every listed field it holds passes, and it holds at least one |
| Publishing.EditRecordNothingToUpdate | sls_api/endpoints/tools/publishing.py:760-761 | a valid request holding none of the fields is answered "No valid fields provided to update." |
| Publishing.EditRecordKeys | sls_api/endpoints/tools/publishing.py:737-764 | the stored keys are date_modified and the listed fields the body holds; other keys are ignored |
| Publishing.EditRecordConforms | sls_api/endpoints/tools/publishing.py:737-758 | each stored listed field conforms to its rule |
| Publishing.EditRecordKey | sls_api/endpoints/tools/publishing.py:737-764 | a stored key is date_modified or a listed field the body holds |
| Publishing.EditRecordField | sls_api/endpoints/tools/publishing.py:737-758 | the value stored for one listed field conforms to its rule |
| Publishing.EditPublicationCollection | sls_api/endpoints/tools/publishing.py:404-448 | a bad collection id is "Invalid collection_id."; success carries date_modified |
| Publishing.CollectionValues | sls_api/endpoints/tools/publishing.py:420-442 | a stored name is null or a string, published 0..2 and deleted 0..1 |
| Publishing.EditPublication | sls_api/endpoints/tools/publishing.py:708-764 | a bad publication id is "Invalid publication_id."; success carries date_modified |
| Publishing.PublicationIds | sls_api/endpoints/tools/publishing.py:739-746 | the two id fields are stored as null or positive integers |
| Publishing.PublicationTexts | sls_api/endpoints/tools/publishing.py:739-756 | name and genre are stored as null or strings |
| Publishing.PublicationFlags | sls_api/endpoints/tools/publishing.py:739-752 | published is stored as null or 0..2; deleted, which may not be null, as 0 or 1 |
| Publishing.PublicationKeys | sls_api/endpoints/tools/publishing.py:723-735 | keys of the body outside the nine fields are not stored |
| Publishing.PublicationDeletedNotNull | sls_api/endpoints/tools/publishing.py:739-752 | a null deleted flag is refused whatever else the body holds |
| Publishing.PublicationNullStored | sls_api/endpoints/tools/publishing.py:739-741 | a null value of any field but deleted is stored as null |
| Publishing.UnlistedFieldsIgnored | sls_api/endpoints/tools/publishing.py:760-761 | a body holding only an unlisted key has nothing to update |
| Publishing.EditComment | sls_api/endpoints/tools/publishing.py:885-929 | a bad publication id is "Invalid publication_id."; success carries date_modified |
| Publishing.CommentValues | sls_api/endpoints/tools/publishing.py:901-923 | deleted is stored as 0 or 1, published as 0..2, original_filename as null or a string |
| Publishing.CommentNullDeletedRefused | sls_api/endpoints/tools/publishing.py:914-916 | a null deleted flag is refused with the deleted message |
| Publishing.EditManuscript | sls_api/endpoints/tools/publishing.py:1066-1125 | a bad manuscript id is "Invalid manuscript_id."; success carries date_modified |
| Publishing.ManuscriptValues | sls_api/endpoints/tools/publishing.py:1095-1116 | publication_id is stored as null or at least 1, section_id and sort_order as null or at least 0 |
| Publishing.EditVersion | sls_api/endpoints/tools/publishing.py:1260-1319 | a bad version id is "Invalid version_id."; success carries date_modified |
| Publishing.VersionValues | sls_api/endpoints/tools/publishing.py:1289-1310 | publication_id is stored as null or at least 1; type, section_id and sort_order as null or at least 0 |
| Publishing.ProjectValues | sls_api/endpoints/tools/publishing.py:286-297 | deleted is stored as 0 or 1 and published as 0..2; nulls are refused |
| TeiDelSpans.PySlice | sls_api/scripts/CTeiDocument.py:762 | `s[a:b]` is the slice when a <= b and empty otherwise |
| TeiDelSpans.FindBound | sls_api/scripts/CTeiDocument.py:763-765 | `find` gives -1 or an index where the text fits, at or after a non-negative start |
| TeiDelSpans.ResumeAsWritten | sls_api/scripts/CTeiDocument.py:763-764 | copying resumes one past the first ">" found from the id mark's index, a position within the document |
| TeiDelSpans.AsWrittenDiverges | sls_api/scripts/CTeiDocument.py:760-765 | a document opening with "<delSpan", holding no `id="del` and not ending in ">" never leaves the loop, whatever the number of passes |
| TeiDelSpans.LoopAsWritten | sls_api/scripts/CTeiDocument.py:760-767 | the loop as written only appends to its output, and once no "<delSpan" is left it copies the rest from the resume point and stops |
| TeiDelSpans.RemoveDelSpansAsWritten | sls_api/scripts/CTeiDocument.py:753-770 | a document without "<delSpan" comes back unchanged |
| TeiDelSpans.Cycle | sls_api/scripts/CTeiDocument.py:760-765 | on such a document every pass returns the loop to its first state |
| TeiDelSpans.UnmarkedSpanDiverges | sls_api/scripts/CTeiDocument.py:760-765 | "<delSpan/>a" never finishes |
| TeiDelSpans.FindNone | sls_api/scripts/CTeiDocument.py:760 | no occurrence from the start on means `find` returns -1 |
| TeiDelSpans.ResumeAt | sls_api/scripts/CTeiDocument.py:763-764 | the corrected resume point lies after the span's opening and within the document |
| TeiDelSpans.RemoveFrom | sls_api/scripts/CTeiDocument.py:760-767 | the corrected scan is never longer than the rest it scans, and returns the rest whole when no span opens in it |
| TeiDelSpans.RemoveDelSpans | sls_api/scripts/CTeiDocument.py:752-770 | the result is never longer than the document, and a document without "<delSpan" is returned unchanged |
| TeiDelSpans.ResumeAgrees | sls_api/scripts/CTeiDocument.py:763-764 | over a span with an id mark and a later ">", the code resumes where the corrected scan does |
| TeiDelSpans.LoopStep | sls_api/scripts/CTeiDocument.py:761-765 | one pass of the loop over such a span copies the text before it and resumes after it |
| TeiDelSpans.ClosedStep | sls_api/scripts/CTeiDocument.py:760-765 | a closed span has both marks and the rest after it is closed too |
| TeiDelSpans.AgreesWhenClosed | sls_api/scripts/CTeiDocument.py:752-770 | where every span is closed the code finishes, within one pass per character, with the corrected result |
| TeiDelSpans.AgreesFrom | sls_api/scripts/CTeiDocument.py:760-767 | the loop as written and the corrected scan agree from any position whose remaining spans are closed |
| TeiDelSpans.RemoveStep | sls_api/scripts/CTeiDocument.py:761-765 | the corrected scan copies the text up to the next opening and continues after that span |
| TeiDelSpans.RemoveDelSpansLoop | sls_api/scripts/CTeiDocument.py:757-767 | the corrected scan written as the source's loop computes the corrected result |
| TeiNumbering.BlockIdInjective | sls_api/scripts/CTeiDocument.py:180-183 | within one chapter two blocks get the same id exactly when they get the same number |
| TeiNumbering.NextCounter | sls_api/scripts/CTeiDocument.py:159-187 | the running counter never drops below 1 |
| TeiNumbering.Number | sls_api/scripts/CTeiDocument.py:174-186 | every numbered block gets a number of at least 1 |
| TeiNumbering.BlockNumbered | sls_api/scripts/CTeiDocument.py:163-187 | the block pass keeps every element in place, with its name and enclosing poems |
| TeiNumbering.NumberBlocks | sls_api/scripts/CTeiDocument.py:159-187 | the source's loop, with one counter and the current and previous chapter ids, gives each element its numbered form |
| TeiNumbering.BlockStep | sls_api/scripts/CTeiDocument.py:163-187 | one element of the pass: a selected element inside a chapter takes that chapter's id, a changed id restarts the counter at 1, and the element gets the id of the current number while the counter moves on; any other element changes nothing |
| TeiNumbering.DivAfterLastChapter | sls_api/scripts/CTeiDocument.py:165-172 | the chapter id in force is that of the last selected element inside a chapter |
| TeiNumbering.DivAfterNoChapter | sls_api/scripts/CTeiDocument.py:160-168 | before any selected element inside a chapter, the chapter id is "" |
| TeiNumbering.NextCounterStarted | sls_api/scripts/CTeiDocument.py:159-186 | the counter has moved past 1 exactly when some block has been numbered |
| TeiNumbering.NumberRestarts | sls_api/scripts/CTeiDocument.py:174-175 | a block is number 1 exactly when its chapter id changes or it is the first block |
| TeiNumbering.SkipUnselected | sls_api/scripts/CTeiDocument.py:155-157 | elements the pass does not select change neither counter nor chapter id |
| TeiNumbering.NumberContinues | sls_api/scripts/CTeiDocument.py:174-186 | inside one chapter each block's number is one more than the block before it |
| TeiNumbering.NumberPoem | sls_api/scripts/CTeiDocument.py:194-206 | one poem's pass keeps the document's length |
| TeiNumbering.NumberLinesFrom | sls_api/scripts/CTeiDocument.py:190-206 | the poem passes together keep the document's length |
| TeiNumbering.LastPassWins | sls_api/scripts/CTeiDocument.py:194-206 | a line ends up with the n of the last poem div in document order that encloses it, counted among that div's lines, and other elements are untouched |
| TeiNumbering.LastPoemCons | sls_api/scripts/CTeiDocument.py:194-206 | the last enclosing poem div, read from the front of the div list |
| TeiNumbering.InnermostPoemNumbers | sls_api/scripts/CTeiDocument.py:192-206 | with divs in document order, a line's n counts its place among the lines of its innermost poem |
| TeiNumbering.LastPoemIs | sls_api/scripts/CTeiDocument.py:192-206 | the innermost enclosing poem is the last of the enclosing divs in document order |
| TeiNumbering.AutoNumber | sls_api/scripts/CTeiDocument.py:218-234 | renumbering keeps every element in place, with its name and poems |
| TeiNumbering.AutoNumberLoop | sls_api/scripts/CTeiDocument.py:218-234 | the source's loop with its running counter gives the k-th element of the name the id prefix + k |
| TeiNumbering.CountNamedMonotone | sls_api/scripts/CTeiDocument.py:223-232 | a later element of the name has counted more elements before it |
| TeiNumbering.AutoNumberDistinct | sls_api/scripts/CTeiDocument.py:225-232 | renumbered elements lose their plain id and no two share an xml:id |
| TeiNumbering.AutoNumberConsecutive | sls_api/scripts/CTeiDocument.py:229-232 | the next element of the name is numbered one higher |
| TeiNumbering.CountNamedFlat | sls_api/scripts/CTeiDocument.py:224-232 | elements of other names leave the count unchanged |
| TeiNumbering.AutoNumberFirst | sls_api/scripts/CTeiDocument.py:223 | the first element of the name is numbered 1 |
| TeiNumbering.AutoNumberElements | sls_api/scripts/CTeiDocument.py:152-214 | the whole pass keeps every element in place, and without line numbering keeps each element's name and poems |
| TeiNumbering.BlockIdKept | sls_api/scripts/CTeiDocument.py:152-214 | a block's id survives the line, table and heading passes |
| TeiNumbering.NotInPoem | sls_api/scripts/CTeiDocument.py:201-205 | only `l` elements get a line number |
| TeiNotes.KeepChapterChars | sls_api/scripts/CTeiDocument.py:365 | the result is no longer than the input and holds only digits and dots |
| TeiNotes.KeepChapterCharsFixed | sls_api/scripts/CTeiDocument.py:365 | the filter leaves a string unchanged exactly when it holds only digits and dots |
| TeiNotes.KeepChapterCharsIdempotent | sls_api/scripts/CTeiDocument.py:365 | filtering twice is filtering once |
| TeiNotes.KeepChapterCharsOne | sls_api/scripts/CTeiDocument.py:365 | one character is kept iff it is a digit or a dot |
| TeiNotes.KeepChapterCharsAppend | sls_api/scripts/CTeiDocument.py:365 | the kept characters of a concatenation are those of each part in turn, so none is lost or reordered |
| TeiNotes.GetChapter | sls_api/scripts/CTeiDocument.py:361-369 | no position, or one without "_", has no chapter; a chapter holds only digits and dots |
| TeiNotes.ChapterOfPosition | sls_api/scripts/CTeiDocument.py:363-365 | the chapter of "a_b" is the digits and dots of a |
| TeiNotes.ChapterExample | sls_api/scripts/CTeiDocument.py:361-369 | the chapter of "ch1.2_p3" is "1.2" |
| TeiNotes.FirstAnchor | sls_api/scripts/CTeiDocument.py:378-380 | an anchor is found exactly when some anchor has the id, and it is one of the document's anchors with that id |
| TeiNotes.Compose | sls_api/scripts/CTeiDocument.py:462-468 | the position is empty exactly when the start label is; it begins with the start label and is that label alone exactly when the end label is empty or the same |
| TeiNotes.ComposeSplit | sls_api/scripts/CTeiDocument.py:462-466 | splitting a position at the separator gives back the start label, and the end label when one was added |
| TeiNotes.NotePosition | sls_api/scripts/CTeiDocument.py:373-471 | no position exactly when no anchor has the note's start id; the position is empty exactly when the start anchor has no label |
| TeiNotes.FootnotePosition | sls_api/scripts/CTeiDocument.py:384-430 | a note starting in a placed note is at "Fotnot", whatever its end anchor |
| TeiNotes.PositionWithoutEnd | sls_api/scripts/CTeiDocument.py:462-466 | without an end anchor the position is the start label alone |
| TeiNotes.PositionSegs | sls_api/scripts/CTeiDocument.py:333-343 | a non-empty position gives a notePosition segment, followed by a noteSection segment "ch" + chapter exactly when the position names a chapter |
| TeiNotes.ProcessComments | sls_api/scripts/CTeiDocument.py:318-330 | there is at most one note per comment |
| TeiNotes.NoteKeyInjective | sls_api/scripts/CTeiDocument.py:329 | different comment ids give different note ids |
| TeiNotes.NotesFromComments | sls_api/scripts/CTeiDocument.py:318-330 | every note comes from a comment whose start anchor is in the main text |
| TeiNotes.NoteForEveryComment | sls_api/scripts/CTeiDocument.py:318-330 | every comment whose start anchor is in the main text gets its note |
| TeiNotes.NoteIdNamesComment | sls_api/scripts/CTeiDocument.py:329 | a note's id names the comment it was made from |
| TeiNotes.StartIds | sls_api/scripts/CTeiDocument.py:486-493 | there is at most one id per anchor, and none exactly when no anchor's id starts with "start" |
| TeiNotes.AllNoteIds | sls_api/scripts/CTeiDocument.py:485-495 | `None` exactly when no anchor's id starts with "start", otherwise a non-empty list |
| TeiNotes.FirstNoteId | sls_api/scripts/CTeiDocument.py:476-483 | `None` exactly when no anchor's id starts with "start" |
| TeiNotes.FirstNoteIdIsFirst | sls_api/scripts/CTeiDocument.py:476-495 | the first note id is the head of the list of all note ids |
| TeiNotes.StartIdsExact | sls_api/scripts/CTeiDocument.py:486-492 | a string is a listed note id exactly when "start" followed by it is an anchor's id |
| TeiNotes.RefineIsMax | sls_api/scripts/CTeiDocument.py:527-532 | each variant's tests keep the stronger of the type so far and the variant's own |
| TeiNotes.VariantTypeFromBest | sls_api/scripts/CTeiDocument.py:518-532 | reading the variants in order ends with the strongest type any of them shows |
| TeiNotes.VariantType | sls_api/scripts/CTeiDocument.py:500-540 | the type written is always "", "sub", "ort" or "int", and "" when there are no variant documents |
| TeiNotes.BestRankSeen | sls_api/scripts/CTeiDocument.py:518-532 | the strongest rank reached says which keywords some variant's type contains |
| TeiNotes.VariantTypePriority | sls_api/scripts/CTeiDocument.py:512-532 | the type is "sub" when any variant says sub, else "ort" when any says ort, else "int" when any says int, else empty |
| TeiNotes.ProcessApp | sls_api/scripts/CTeiDocument.py:506-536 | an app keeps its id and has a type exactly when it has an id and the variants give it a non-empty one |
| TeiNotes.ProcessVariants | sls_api/scripts/CTeiDocument.py:500-538 | every app of the text is processed, in place |
| TeiNotes.ProcessVariantsIdempotent | sls_api/scripts/CTeiDocument.py:506-536 | processing the variants twice gives what once gives |
| TeiNotes.LowerIdempotent | sls_api/scripts/CTeiDocument.py:642-654 | lower-casing twice is lower-casing once |
| TeiNotes.TargetsIgnoreCase | sls_api/scripts/CTeiDocument.py:642-658 | the genre and text class targets do not depend on letter case |
| TeiNotes.TargetExamples | sls_api/scripts/CTeiDocument.py:642-658 | "Lyrik" maps to cg_poem, "EST" to ce_readingtext, and an unmapped "Essay" stays "essay" |
| TeiNotes.SetCreation | sls_api/scripts/CTeiDocument.py:602-636 | each non-empty argument sets its creation field, every other field is left as it was, and an item id without "_" keeps the old book id |
| TeiNotes.BookIdPiece | sls_api/scripts/CTeiDocument.py:617-618 | an item id with "_" gives the book id its text before the first "_", itself free of "_" |
| TeiNotes.AddTargets | sls_api/scripts/CTeiDocument.py:638-663 | catRefs are only added: the genre's target for a non-empty genre and the text class when non-empty, nothing else |
| TeiNotes.SetCreationIdempotent | sls_api/scripts/CTeiDocument.py:602-636 | writing the same creation fields twice gives what once gives |
| TeiNotes.SetMetadata | sls_api/scripts/CTeiDocument.py:593-666 | catRefs are only added, each new one being the genre target for a non-empty genre or the text class; creation fields with no argument are left as they were; a non-empty item id is written to idno |
| TeiNotes.SetMetadataIdempotent | sls_api/scripts/CTeiDocument.py:593-666 | writing the same metadata twice gives what once gives: elements are reused, not duplicated |
| Saxon.InitialNamespaces | sls_api/scripts/saxon_xml_document.py:91-94 | the registry never starts empty, and a non-empty list given by the caller is used as it is |
| Saxon.Clashes | sls_api/scripts/saxon_xml_document.py:212-214 | a namespace clashes exactly when some registered one has its prefix or its uri |
| Saxon.AddNamespace | sls_api/scripts/saxon_xml_document.py:212-222 | the namespace is appended, and True returned, exactly when neither its prefix nor its uri is registered; otherwise nothing changes |
| Saxon.AddKeepsDistinct | sls_api/scripts/saxon_xml_document.py:212-222 | adding keeps every prefix and every uri registered at most once |
| Saxon.RegistryDistinct | sls_api/scripts/saxon_xml_document.py:212-222 | any sequence of calls keeps prefixes and uris unique |
| Saxon.DefaultRegistryDistinct | sls_api/scripts/saxon_xml_document.py:212-222 | starting from the default xml and tei namespaces, prefixes and uris stay unique |
| Saxon.AddTwice | sls_api/scripts/saxon_xml_document.py:212-222 | a second identical call is refused and changes nothing |
| Saxon.KeepContent | sls_api/scripts/saxon_xml_document.py:365 | only lines with content after stripping are kept, never more lines than given |
| Saxon.KeepContentExact | sls_api/scripts/saxon_xml_document.py:365 | a line is kept exactly when it is a line of the input with content |
| Saxon.KeepContentAll | sls_api/scripts/saxon_xml_document.py:365 | lines that all have content are kept whole |
| Saxon.SplitLinesAreLines | sls_api/scripts/saxon_xml_document.py:365 | `splitlines(keepends=True)` cuts a text into single lines each ending where the next begins |
| Saxon.SplitConcatLines | sls_api/scripts/saxon_xml_document.py:365 | cutting the concatenation of such lines gives them back |
| Saxon.ContentLineStart | sls_api/scripts/saxon_xml_document.py:365 | a line with content does not begin with a bare line feed |
| Saxon.KeepContentLines | sls_api/scripts/saxon_xml_document.py:365 | the kept lines still meet one another as lines |
| Saxon.RemoveBlankLinesKeeps | sls_api/scripts/saxon_xml_document.py:365 | the lines of the result are exactly the lines of the input that have content |
| Saxon.RemoveBlankLinesIdempotent | sls_api/scripts/saxon_xml_document.py:365 | removing blank lines twice is removing them once |
| Saxon.RemoveBlankLines | sls_api/scripts/saxon_xml_document.py:354-365 | removing blank lines never makes the text longer |
| Saxon.NoteStarts | sls_api/scripts/saxon_xml_document.py:240 | the query selects exactly the anchor ids starting with "start": each selected id is such an anchor id, every such id is selected, and no more are selected than there are anchors |
| Saxon.NoteStartsOne | sls_api/scripts/saxon_xml_document.py:240 | one anchor is selected iff its id starts with "start" |
| Saxon.NoteStartsAppend | sls_api/scripts/saxon_xml_document.py:240 | the selection from two runs of anchors is the selection from the first followed by that from the second, in document order |
| Saxon.ParseCommentIds | sls_api/scripts/saxon_xml_document.py:246-251 | a successful conversion gives one number per id |
| Saxon.CommentIds | sls_api/scripts/saxon_xml_document.py:224-253 | a successful `get_all_comment_ids` gives one number per anchor id starting with "start" |
| Saxon.ParseCommentIdsSuccess | sls_api/scripts/saxon_xml_document.py:246-251 | the conversion succeeds exactly when every id converts, and then gives each id's number in order |
| Saxon.FirstUnconvertedIsFirst | sls_api/scripts/saxon_xml_document.py:246-251 | the first id that fails is preceded only by ids that convert |
| Saxon.ParseCommentIdsFailure | sls_api/scripts/saxon_xml_document.py:248-251 | the conversion fails exactly when some id does not convert, with the message naming the first such id |
| Saxon.CommentIdsRoundTrip | sls_api/scripts/saxon_xml_document.py:240-253 | ids written as "start" + the decimal form of numbers convert back to those numbers |
| Saxon.DeclarationLen | sls_api/scripts/saxon_xml_document.py:379 | a match starts with "<?xml", ends with "?>" and holds at least one character between them |
| Saxon.FormatXmlWithLineEndings | sls_api/scripts/saxon_xml_document.py:379-384 | the result is never shorter than the input |
| Saxon.FormatWithoutDeclaration | sls_api/scripts/saxon_xml_document.py:379-384 | a text without "<?xml" is left as it is |
| Saxon.FirstClose | sls_api/scripts/saxon_xml_document.py:379 | the match ends at the first ">" after "<?xml" |
| Saxon.LeadingDeclaration | sls_api/scripts/saxon_xml_document.py:379-384 | a leading declaration gets a line break after it and the rest is formatted in turn |
| Users.GetProjects | sls_api/models.py:61-67 | `None` exactly for a NULL or empty column; otherwise comma-free entries whose comma-join is the column |
| Users.CanEditProject | sls_api/models.py:75-82 | a user with a NULL or empty column may edit nothing |
| Users.CanEditIffListed | sls_api/models.py:61-82 | a user may edit a project exactly when `get_projects` lists it |
| Users.RightsOfJoinedList | sls_api/models.py:75-80 | for a column written as the comma-join of comma-free names, the rights are exactly those names |
| Users.NoTrimming | sls_api/models.py:75-80 | entries are compared untrimmed: "a, b" grants " b" and not "b" |
| Facsimiles.PublicationIdPart | sls_api/endpoints/facsimiles.py:47 | an id without "_" raises IndexError; otherwise the piece holds no "_" |
| Facsimiles.SplitSingle | sls_api/endpoints/facsimiles.py:47 | a split into one piece means the separator does not occur |
| Facsimiles.PublicationIdOf | sls_api/endpoints/facsimiles.py:47 | for "a_b…" with no "_" in a, the piece is the text after the first "_" up to the next |
| Facsimiles.NextPage | sls_api/endpoints/facsimiles.py:71-76 | the next page is the smallest page number of the collection above the given one, and none exactly when there is no larger one |
| Facsimiles.LastPage | sls_api/endpoints/facsimiles.py:71-78 | without a next facsimile the last page is the row's `number_of_pages` |
| Facsimiles.PagesTile | sls_api/endpoints/facsimiles.py:67-78 | with the same pre-pages, a facsimile ends one page before the next one starts, and never before it starts itself |
| Facsimiles.FileAccess | sls_api/endpoints/facsimiles.py:215-243 | an unknown project is a 400; every other refusal is the 404 "not found in database" |
| Facsimiles.FileAccessIff | sls_api/endpoints/facsimiles.py:215-243 | the file is served exactly for a known project whose status converts and is neither 0 nor, unless internal publications are shown, 1 |
| Metadata.MdPattern | sls_api/endpoints/metadata.py:65-69 | the pattern always ends with "*" |
| Metadata.DashFree | sls_api/endpoints/metadata.py:65 | no piece of a split on "-" holds a dash |
| Metadata.MdPatternShort | sls_api/endpoints/metadata.py:65-69 | an id of at most four parts keeps all of them, joined by "*/" |
| Metadata.MdPatternRebuilt | sls_api/endpoints/metadata.py:65-69 | a longer id keeps parts 0, 1 and 2 and part 4 behind a "0", dropping part 3 and all after part 4 |
| Metadata.MdPatternExample | sls_api/endpoints/metadata.py:65-69 | "1-2-3-4-5" becomes "1*/2*/3*/05*" |
| Metadata.Tooltip | sls_api/endpoints/metadata.py:574-600 | the id is a legacy id exactly when `use_legacy` is set or `int()` rejects it; a numeric id is the parsed number; the project clause is there exactly when a project is given |
| Metadata.NumericRowId | sls_api/endpoints/metadata.py:574-583 | a decimal integer is looked up as that number unless `use_legacy` forces the string |
| Metadata.LegacyRowId | sls_api/endpoints/metadata.py:574-579 | "pe1" is looked up as a legacy id |
| Metadata.NotAnInt | sls_api/endpoints/metadata.py:575-577 | `int()` rejects "pe1" |
| Metadata.TocPut | sls_api/endpoints/metadata.py:129-171 | an unknown project is a 400, a missing identity a 403, and every refusal is a 400 or a 403 |
| Metadata.TocPutIff | sls_api/endpoints/metadata.py:154-171 | an upload goes ahead exactly when the identity is present, the body truthy, and the debug test user asks or the identity lists the project |
| Metadata.TestUserNeedsDebug | sls_api/endpoints/metadata.py:158-166 | the test user without listed projects is refused outside debug mode and admitted in it |

## Left out

- Databases: SQLAlchemy statements and connections, and every CRUD endpoint built only from them.
  - Query results enter as parameters. Examples: the project id a name resolves to, the published flags, facsimile rows, the publication status row.
  - The SQL text is not modelled, except where a rule composes it: the OAI library date clauses and the tooltip query.
- The final `.format` of `build_sql_statement`, which fills in `{ident}`, `{date}` and `{table}`, is not modelled. The date column is given as a string.
- Files, git, subprocesses and the network: `safe_join`, `glob`, reading and writing files, `git ls-files`, commits, image conversion.
  - The checks around this I/O are modelled; the I/O itself is not. In `update_file` (`sls_api/endpoints/tools/files.py:262-346`), the ".xml" path guard runs after the git work, so the model gives its answer as reached when the git steps succeed or, in a test, are skipped.
  - The outcomes of those git steps are left out: the 500 answers for a failing `git fetch`, `git show` or `git merge`, the 409 answer for a file changed in the remote without `force`, and the `file_exists_in_file_root` lookup. Any of these comes before the path guard in a non-test project.
  - Filesystem modification times and the current time are integer parameters.
- Flask and JWT plumbing: routing, `get_jwt_identity`, `request.get_json()`.
  - The identity and the body are JSON values.
  - A missing identity is `None`.
  - `int(os.environ.get("FLASK_DEBUG", 0))` is an `int` parameter.
- XML libraries: lxml parsing, XPath evaluation, XSLT, BeautifulSoup, and the Saxon processor.
  - Documents are flattened into document-ordered elements, anchors or `app` elements.
  - Each of these carries the answers of the queries the code asks.
  - `"xml:id"` stands for the namespaced attribute `{http://www.w3.org/XML/1998/namespace}id`.
- The lemma and note-text children of editor notes are built by HTML and XSLT conversions, so they are not modelled. `ProcessComments` builds each note's id, its target and its position segments.
- Date parsing with `dateutil.parser.parse` in the OAI validators is an oracle parameter of type `string -> Option<string>`.
  - The legacy handler stores the parsed datetime itself rather than a formatted string. The model uses the same oracle for both handlers.
- `strptime` in `Generics` is modelled for the two formats the code uses, over ASCII digits.
- Unicode: `isdigit` and `int()` are modelled over ASCII digits. `lower()` covers ASCII and the Latin-1 upper-case letters.
- `RemoveDelSpans` decodes UTF-8 bytes and encodes the result back. The model works on the decoded text.
- Dictionary key order is not modelled in `path_list_to_tree`, whose trees are maps. Dictionaries elsewhere are ordered association lists.
- The author string of `sls_api/endpoints/tools_files.py:225-228` is the same rule as `ProjectFiles.Author`, so it is not modelled twice.
- The position separator of `__GetNotePosition` is kept as the code points that stand in the source file. Those code points are an en dash that went through two wrong decodings.
- Password hashing, authentication endpoints, the CLI scripts, search, media, Swift and FileMaker are not part of this model. Neither is `slugify_route`, nor the regular-expression work of `__MoveEndAnchors` and `LoadString`.
- OaiCommon.Validate: the argument loop is read as `req.args.items()`. In `sls_api/endpoints/oai.py:128` the code calls `iteritems`, which raises on Python 3; OaiSls.ValidateRequestAsWritten models that (see "## Findings").
- OaiSls.ValidateRequest: the intended validation, with line 128 read as `.items()`; the code as written is OaiSls.ValidateRequestAsWritten.
- OaiSls.ResponseStatus: the intended status; as written every request is answered 500, which is OaiSls.ResponseStatusAsWritten.
- OaiLegacy.ValidateRequest: `endpoints/oai.py` imports `unicode_literals` from `__future__` and is read as Python 2 code, where `MultiDict.iteritems` exists, so its line 19 raises nothing.
- Json: JSON numbers are integers only. Floats such as `1.5` are not modelled, so neither is what `validate_int`, `int_or_none` or `str()` do with one.
- Base64 decoding in `update_file` is not modelled; whether the "file" value decodes is a boolean parameter, `fileDecodes`.
- ProjectFiles.UpdateFileChecks: it uses the intended configuration check, which answers 500 for a configuration without git_repository. The code as written raises `KeyError` there; that behaviour is ProjectFiles.UpdateFileChecksAsWritten.
- Generics.IsValidDate: the contract gives only the shape of an accepted string. The full rule is stated by Generics.ParseDate and Generics.ParseFormatDate.
- Generics.IsValidYearMonth: the contract gives only the shape of an accepted string. The full rule is stated by Generics.ParseYearMonth.
- FileTree.Insert: the contract speaks of the top-level keys only. What lies below them is stated by FileTree.InsertSpec.
- TeiNotes.VariantType: the contract bounds the result to the four types. Which type wins is stated by TeiNotes.VariantTypeFromBest and TeiNotes.VariantTypePriority.
- Saxon.RemoveBlankLines: the contract bounds the length only. Which lines are kept is stated by Saxon.RemoveBlankLinesKeeps.
- Saxon.CommentIds: the contract gives the count of values only. The values themselves are stated by Saxon.ParseCommentIdsSuccess.
- TeiDelSpans.RemoveDelSpansAsWritten: the loop as written is modelled with at most `fuel` passes. `None` stands for "has not finished within `fuel` passes".
- TeiDelSpans.AsWrittenDiverges: this covers only the divergence where no `id="del` follows and the document does not end in ">". The code can also diverge in a second way, covered by no lemma: an id mark with no ">" after it sends copying back to position 0 while the output keeps growing.
- TeiNumbering.InnermostPoemNumbers: with nested poem divs, every pass overwrites `n`. A line therefore keeps the number given by its innermost poem, and the model states that outcome rather than "1, 2, … within each div".

## Findings

| source | as written | input that shows it | evidently intended | confidence | as-written member | corrected member |
|---|---|---|---|---|---|---|
| sls_api/endpoints/tools/files.py:160-169 | `is_a_test` reads `config["git_repository"]`, so `check_project_config` raises `KeyError` for a configuration without that key | a configuration with `git_branch` and `file_root` but no `git_repository` | report "git_repository not in project config." outside debug mode, and count a missing repository as a test in debug mode | not executed | ProjectFiles.IsATestAsWritten, ProjectFiles.RepositoryMessageUnreachable, ProjectFiles.MissingRepositoryExample, ProjectFiles.UpdateFileMissingRepository | ProjectFiles.IsATest, ProjectFiles.CheckProjectConfig, ProjectFiles.UpdateFileChecks |
| sls_api/endpoints/tools_files.py:186-191 | the web-files `is_a_test` reads `web_files_config[project]["git_repository"]`, with the same `KeyError` | a web-files configuration without `git_repository` | the same missing-repository message | not executed | WebFiles.WebIsATestAsWritten, WebFiles.WebRepositoryMessageUnreachable | ProjectFiles.CheckProjectConfig |
| sls_api/scripts/CTeiDocument.py:760-765 | when no `id="del` follows a "<delSpan", `find` returns -1, and `find('>', -1)` looks only at the last character: copying resumes at the end when the document ends in ">" and at 0 otherwise, where the same "<delSpan" is found again, so the loop never ends | "<delSpan/>a" | drop an unclosed span to the end of the document and stop | not executed | TeiDelSpans.UnmarkedSpanDiverges, TeiDelSpans.AsWrittenDiverges | TeiDelSpans.RemoveDelSpans, TeiDelSpans.RemoveDelSpansLoop, TeiDelSpans.AgreesWhenClosed |
| sls_api/endpoints/oai.py:128 | `validate_request` loops over `req.args.iteritems()`, a Python 2 method that werkzeug's `MultiDict` does not have on Python 3, so every request raises `AttributeError` and is answered 500 | `verb=Identify` | loop over `req.args.items()`, as `sls_api/endpoints/oai_library.py:246` does, and answer each request by its validation and database outcome | not executed | OaiSls.ValidateRequestAsWritten, OaiSls.ResponseStatusAsWritten, OaiSls.AsWrittenNeverAnswers, OaiSls.IdentifyRaises | OaiSls.ValidateRequest, OaiSls.ResponseStatus |
| sls_api/endpoints/digital_edition_tools.py:42-46 | the decorator looks for the keyword "projects", while Flask passes the route variable as "project", so a keyword call is always refused | a call with no positional argument and `project="p"`, by a user granted "p" | take the project from the "project" keyword, and answer 403 instead of no response when permission is missing | not executed | DeTools.PermissionAsWritten, DeTools.FlaskCallRefused | DeTools.Permission, DeTools.FlaskCallGranted |
| sls_api/endpoints/oai_library.py:28-141 | all of `process_oai_request`, its `return` included, sits under `if error is None`, so a request that fails validation gets no response | `verb=Bogus` | answer the validation error with its status (400) | not executed | OaiLibrary.ProcessAsWritten, OaiLibrary.ProcessAsWrittenFails | OaiLibrary.Process |
| sls_api/endpoints/oai_library.py:121-131 | the handler's own database error uses the code "InternalError", which is not in the 500 list, so it is answered with 400 | `verb=Identify` with the metadata query raising | use "internalError", the code of section 3.6 of OAI-PMH 2.0, and answer with 500 | not executed | OaiLibrary.ProcessAsWritten, OaiLibrary.ProcessAsWrittenFails | OaiLibrary.Process, OaiLibrary.ProcessAgreesWhenAnswered |
