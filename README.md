# swagger-ui-detector, modelled in Dafny

swagger-ui-detector finds out which swagger-ui release a web page serves and
which published vulnerabilities apply to that release. Three pipelines make up
its core, and each exists in several drifting copies:

- **Vulnerability catalog.** It scrapes Snyk's advisory table into records
  (link, name, version rule) and decides, per rule, whether a version is
  affected.
  - `src/snyk_parser.py` is the newer copy, modelled in module `SnykCatalog`.
  - `snyk_parser.py`, and the `SnykParser` classes of `swagger_ui_detector.py`
    (lines 25-96) and `swagger_detector.py` (lines 28-99), are the older copy.
    These three share their logic and differ only in details outside it:
    the CSS selector of the table, the log calls and their messages, and a
    default `vuln_url` argument in `swagger_detector.py`. One module,
    `LegacySnykCatalog`, models them.
  - What the copies share is in `Catalog`: the record, the rule tokens, the
    comparisons and the filter.
- **Tag resolver.** It asks git for the tags that contain a commit and returns
  the earliest one.
  - `src/git_searcher.py` (module `GitSearch`) sorts and catches git's errors.
  - `swagger_ui_detector.py` (module `UiDetectorGitSearch`) sorts, has two
    hard-coded hashes and catches nothing.
  - `swagger_detector.py` (module `DetectorGitSearch`) does not sort at all.
- **Asset classifier.** Given the page URL, it reads the `src` of every
  script tag to tell swagger-ui 3 (`swagger-ui-bundle.js`) from 2
  (`swagger-ui.js`). For a v3 page it looks for a commit hash in the bundle
  and resolves it through the tag resolver. For a v2 page it reads the
  version comment of the script.
  - `src/swagger_classifier.py` is modelled in module `SwaggerClassifier`.
  - The `SwaggerDetector` classes of `swagger_ui_detector.py` (139-256) and
    `swagger_detector.py` (142-259) are line for line the same, apart from
    logging and the HTML parser.
  - The two regular expressions of the classifier are modelled exactly, in
    module `Scanners`.

Python exceptions are values: `Outcomes.Outcome<T>` is `Ok(value)` or
`Raised(error)`, and Python's `None` is `Option.None`. `packaging.version` is
modelled in module `Pep440` on what the detector gives it: release segments
`N(.N)*` with an optional leading `v`/`V`, compared component by component
with trailing zeros ignored. Any other string raises `InvalidVersion`, as in
`packaging` 22 and later; earlier releases returned a `LegacyVersion` instead
of raising, for `""` and `"$GIT_TAG"` among others.
`sort(key=version.parse)[0]` parses every key first, so one bad key raises. It
then picks the first element that is no later than all the others, which is
what a stable sort puts first.

Two behaviours of `load_vulnerabilities` in `src/snyk_parser.py` are easy to
misread:
- `load_vulnerabilities` in `src/snyk_parser.py` keeps the rows it appended
  before a row fails to parse. It does not end with an empty catalog, so the
  model keeps them too.
- `got_vulns` is never reset by a later load.

## Model

| member | source | states |
|---|---|---|
| Text.JoinSplit | src/git_searcher.py:40 | joining the pieces of `split` with the separator gives the text back |
| Text.SplitJoin | src/git_searcher.py:40 | lines that hold no newline split back into exactly those lines |
| Text.SplitAround | src/snyk_parser.py:72 | splitting at one separator splits each side on its own and concatenates the pieces |
| Text.SplitPiecesLackSeparator | src/snyk_parser.py:72 | no piece of a split holds the separator |
| Text.NoSeparator | src/snyk_parser.py:72 | a string without the separator is one piece |
| Text.Split | snyk_parser.py:57-59 | `split` always returns at least one piece, so a guard on zero pieces never fires |
| Text.SplitPrefix | src/snyk_parser.py:72-73 | characters without the separator in front of a string join its first piece |
| Text.DeleteChars | src/snyk_parser.py:73 | `translate` deleting `=<>` keeps only characters of the input that are not deleted, and never lengthens it |
| Text.DeleteCharsKeepsOthers | src/snyk_parser.py:73 | a string without deleted characters is unchanged |
| Text.DeleteCharsAppend | src/snyk_parser.py:73 | deleting characters distributes over concatenation |
| Text.DeleteCharsDropsAll | src/snyk_parser.py:73 | a string made only of deleted characters becomes empty |
| Text.JoinAlphabet | src/snyk_parser.py:75 | joining pieces over an alphabet that holds the separator stays in that alphabet |
| Pep440.Parse | src/snyk_parser.py:75 | a string that parses is non-empty and holds only digits and dots after at most a leading v or V, and has at least one component; conversely every such string of non-empty digit groups, with or without the v or V, parses to the groups' values (`ParseDotted`, `ParseVDotted`) |
| Pep440.Compare | src/git_searcher.py:44 | the comparison is -1, 0 or 1; 0 exactly when the zero-padded releases agree in every component, -1 exactly when the first component where they differ is smaller in the left one, 1 exactly when it is smaller in the right one |
| Pep440.VersionLe | src/snyk_parser.py:75 | `parse(x) <= parse(y)` holds exactly when the padded releases are equal or x's is lexicographically smaller |
| Pep440.ParseGroups | src/snyk_parser.py:75 | a release parses exactly when every dot group is a non-empty digit string, and component i is group i's decimal value |
| Pep440.ParseDotted | src/snyk_parser.py:75 | digit groups joined with dots parse to their values |
| Pep440.ParseVDotted | src/snyk_parser.py:75 | a v or V followed by digit groups joined with dots parses to the groups' values, the form of every tag |
| Pep440.VersionAlphabet | src/snyk_parser.py:75 | a version holds only digits, dots and a leading v or V |
| Pep440.CompareAntisymmetric | src/git_searcher.py:44 | swapping the operands negates the comparison |
| Pep440.CompareTransitive | src/git_searcher.py:44 | the release order is transitive |
| Pep440.CompareReflexive | src/git_searcher.py:44 | every release equals itself |
| Pep440.TrailingZerosIgnored | src/git_searcher.py:44 | trailing zero components do not change the order ("1.0" is "1") |
| Pep440.ZerosCompare | src/git_searcher.py:44 | a release of zeros compares as the empty release |
| Pep440.VersionLeTotal | src/git_searcher.py:44 | any two versions are ordered one way or the other |
| Pep440.VersionLeTransitive | src/git_searcher.py:44 | `<=` on versions is transitive |
| Pep440.VersionLeReflexive | src/git_searcher.py:44 | every version is `<=` itself |
| Pep440.VersionLtLe | src/git_searcher.py:44 | strictly before and then at most gives strictly before |
| Pep440.JoinStartsWithDigit | src/snyk_parser.py:75 | dotted digit groups have no leading v to strip |
| Pep440.NotAVersion | src/git_searcher.py:44 | in this model, the empty string and a dotless string not starting with v, V or a digit are not versions; `packaging` agrees except for whitespace padding, which it strips (see "## Left out") |
| Pep440.ParseRejects | src/git_searcher.py:41-44 | "" and "$GIT_TAG" are not versions |
| Pep440.ParseVDigit | tests/test_snyk_parser.py:17-18 | "v1" … "v9" parse as one-component releases |
| Pep440.ParseExample4111 | tests/test_snyk_parser.py:223 | "4.11.1" parses as 4.11.1 |
| Pep440.ParseExample413 | tests/test_snyk_parser.py:230 | "4.1.3" parses as 4.1.3 |
| Pep440.ParseExample40 | tests/test_snyk_parser.py:225 | "v4.0" parses as 4.0 |
| Catalog.RuleTokens | src/snyk_parser.py:72-73 | a rule has at least one token, and no token holds a space or a comparison character |
| Catalog.AtMost | src/snyk_parser.py:75 | a one-token rule answers `version <= bound` when both parse and raises otherwise |
| Catalog.Within | src/snyk_parser.py:77-79 | a two-token rule raises exactly when the lower end or the version does not parse, or when the lower end holds and the upper end does not parse; otherwise it answers the inclusive interval test |
| Catalog.Matching | src/snyk_parser.py:91-95 | the scan succeeds exactly when every check does; a record is kept exactly when its check is True, as many times as it is stored, in stored order |
| Catalog.MatchingStopsAtRaise | src/snyk_parser.py:92-93 | once a check raises, the whole scan raises the same exception |
| Catalog.MatchingOne | src/snyk_parser.py:91-95 | a one-record catalog yields the record exactly when its check is True |
| Catalog.NothingMatches | src/snyk_parser.py:91-95 | a catalog whose every check answers False or None yields the empty list |
| Catalog.OnlyMatch | src/snyk_parser.py:91-95 | a catalog where one record answers True and every other False or None yields that record alone |
| Catalog.RecordsBeforeFailure | src/snyk_parser.py:43-52 | the records kept are those of the rows before the first failing row, in row order |
| Catalog.AllRowsKept | src/snyk_parser.py:43-52 | when every row parses, there is one record per row, unchanged |
| Catalog.StripOperator | src/snyk_parser.py:73 | comparison characters in front of a token are deleted and the token stays |
| Catalog.OneToken | src/snyk_parser.py:72-74 | a version behind comparison characters is a one-token rule |
| Catalog.TwoTokens | src/snyk_parser.py:72-76 | two such versions joined by a space are the two tokens |
| Catalog.ManyTokens | src/snyk_parser.py:80-81 | two spaces make three or more tokens |
| SnykCatalog.IsVersionVulnerable | src/snyk_parser.py:60-81 | None exactly for the empty rule and for rules of three or more tokens; the only exception it raises is InvalidVersion |
| SnykCatalog.SnykParser.constructor | src/snyk_parser.py:20-23 | a new parser has no vulnerabilities and its flag is off |
| SnykCatalog.SnykParser.ParsedVulnerabilitiesSuccessfully | src/snyk_parser.py:25-26 | the answer is the flag |
| SnykCatalog.SnykParser.LoadVulnerabilities | src/snyk_parser.py:28-58 | the list is reset; a failed request, a non-200 status or no table leaves it empty; otherwise it holds the records before the first failing row; the flag becomes set exactly when every row parsed and something was loaded, and is never cleared |
| SnykCatalog.SnykParser.GetVulnerabilitiesOfVersion | src/snyk_parser.py:83-95 | the result is the stored records whose check is True, in order; an exception from a check propagates |
| SnykCatalog.FirstFailure | src/snyk_parser.py:43-55 | the rows appended before the loop stops are the records before the first failure |
| SnykCatalog.SingleBound | src/snyk_parser.py:74-75 | one version behind any of `<`, `<=`, `>=` or none is an inclusive upper bound |
| SnykCatalog.Interval | src/snyk_parser.py:76-79 | two versions make an interval inclusive at both ends, whatever comparison characters precede them |
| SnykCatalog.PlainInterval | src/snyk_parser.py:76-79 | the same without comparison characters |
| SnykCatalog.BelowIntervalShortCircuits | src/snyk_parser.py:77-79 | below the lower end the answer is False even when the upper end is not a version |
| SnykCatalog.ThreeOrMoreUndecided | src/snyk_parser.py:80-81 | rules of three or more tokens answer None |
| SnykCatalog.EmptyRuleUndecided | src/snyk_parser.py:70-71 | the empty rule answers None |
| SnykCatalog.OperatorsIgnored | src/snyk_parser.py:73 | comparison characters in front of a rule never change the answer |
| SnykCatalog.SimpleScenarios | tests/test_snyk_parser.py:16-25 | "v1" against "v2" is True, "v2" against "v1" is False |
| SnykCatalog.IntervalInsideScenario | tests/test_snyk_parser.py:26-30 | "v2" against "v1 v3" is True |
| SnykCatalog.IntervalBelowScenario | tests/test_snyk_parser.py:31-35 | "v1" against ">=v2 <v3" is False |
| SnykCatalog.IntervalAboveScenario | tests/test_snyk_parser.py:36-40 | "v4" against ">=v2 <v3" is False |
| SnykCatalog.UndecidedScenarios | tests/test_snyk_parser.py:41-46 | three tokens and the empty rule answer None |
| SnykCatalog.AboveUpperBound | src/snyk_parser.py:72-81 | a version strictly above the upper bound of a `<hi` or `>=lo <hi` rule is not matched by it |
| SnykCatalog.NewerVersionNotMatched | tests/test_snyk_parser.py:149-246 | on any catalog of `<hi` and `>=lo <hi` rules whose upper bounds are 4.1.3 or below major 4, as in the test, "4.11.1" matches nothing |
| SnykCatalog.OlderVersionMatched | tests/test_snyk_parser.py:149-246 | on such a catalog led by "<4.1.3" whose other upper bounds are below major 4, as in the test, "v4.0" matches the "<4.1.3" record alone |
| LegacySnykCatalog.IsVersionVulnerable | snyk_parser.py:47-68 | None exactly for rules of three or more tokens, so never for the empty rule; the only exception it raises is InvalidVersion |
| LegacySnykCatalog.SnykParser.constructor | snyk_parser.py:20-22 | a new parser holds no vulnerabilities |
| LegacySnykCatalog.SnykParser.LoadVulnerabilities | snyk_parser.py:24-45 | the list is reset; a failed request raises UnboundLocalError; a missing table or a bad row raises, keeping the rows before it; the status code is ignored; success exactly when every row parsed |
| LegacySnykCatalog.SnykParser.GetVulnerabilitiesOfVersion | snyk_parser.py:70-82 | the stored records whose check is True, in order; an exception propagates |
| LegacySnykCatalog.AgreesOnNonEmptyRules | snyk_parser.py:57-68 | on every non-empty rule the older check answers as the newer one |
| LegacySnykCatalog.EmptyRuleRaises | snyk_parser.py:57-59 | the `len(vsplit) == 0` guard never fires: the empty rule raises InvalidVersion |
| LegacySnykCatalog.SingleBound | snyk_parser.py:61-62 | one version behind comparison characters is an inclusive upper bound |
| LegacySnykCatalog.Interval | snyk_parser.py:63-66 | two versions make an inclusive interval |
| LegacySnykCatalog.ThreeOrMoreUndecided | snyk_parser.py:67-68 | three or more tokens answer None |
| GitSearch.FirstIndex | src/git_searcher.py:41-42 | `index` finds an occurrence with none before it |
| GitSearch.RemoveFirst | src/git_searcher.py:41-42 | without the placeholder the lines are unchanged; with it, the first placeholder line goes and the lines before and after it keep their order |
| GitSearch.RemoveFirstMultiset | src/git_searcher.py:41-42 | exactly one copy of the placeholder is removed and nothing else |
| GitSearch.FirstLeastIndex | src/git_searcher.py:44-45 | under a total, transitive order the index chosen is no later than every element and strictly before every earlier one |
| GitSearch.VersionOrderIsTotal | src/git_searcher.py:44 | on versions the sort key is a total, transitive order |
| GitSearch.Earliest | src/git_searcher.py:44-45 | `sort(key=version.parse)[0]` raises InvalidVersion exactly when some line is not a version, and otherwise returns one of the lines |
| GitSearch.EarliestIsFirstLeast | src/git_searcher.py:44-45 | the tag returned is the first line no later than every line |
| GitSearch.ParsesAll | src/git_searcher.py:44 | the key loop succeeds exactly when every line is a version |
| GitSearch.FirstLeast | src/git_searcher.py:44-45 | the selection loop finds the first least element |
| GitSearch.EarliestTag | src/git_searcher.py:44-45 | parsing every key and then selecting is `Earliest` |
| GitSearch.Candidates | src/git_searcher.py:40-42 | without a placeholder line the candidates are all of git's lines, with one they are one line fewer (the first placeholder, by `RemoveFirst`) |
| GitSearch.Resolve | src/git_searcher.py:28-51 | a special case is answered as configured; the only exception is InvalidVersion; any other tag found is a version among the remaining lines of a successful git call |
| GitSearch.GitSearcher.constructor | src/git_searcher.py:18-26 | the searcher keeps the repository's tag query and the special cases |
| GitSearch.GitSearcher.GetVersionFromShorthash | src/git_searcher.py:28-51 | the answer is the resolver on git's output, special cases first |
| GitSearch.ResolvedTagIsEarliestLine | src/git_searcher.py:40-45 | a returned tag is a line of git's output, not the placeholder, a version, and no later than every remaining line |
| GitSearch.ResolvesToNone | src/git_searcher.py:37-51 | None exactly for an unknown hash whose git command fails, or whose output leaves no line or only the empty line once the placeholder is removed |
| GitSearch.ResolveRaises | src/git_searcher.py:43-45 | it raises exactly when a remaining line is not a version and the lines are not the lone empty line |
| GitSearch.TrailingNewlineRaises | src/git_searcher.py:40-45 | output ending in a newline leaves an empty line, and the sort raises; GitPython strips the trailing newline of git's output, so ordinary git output does not reach this case |
| GitSearch.LinesWithoutPlaceholder | src/git_searcher.py:40-42 | lines without the placeholder are examined as they are |
| GitSearch.PlaceholderDropped | src/git_searcher.py:41-42 | a placeholder between two lines is dropped |
| GitSearch.RemoveAfterHead | src/git_searcher.py:41-42 | a leading line that is not the placeholder stays in front |
| GitSearch.VersionLine | src/git_searcher.py:44 | a version is one line and never the placeholder |
| GitSearch.ResolveOneLine | src/git_searcher.py:43-45 | a single version line is the answer |
| GitSearch.ResolveTwoLines | src/git_searcher.py:43-45 | of two version lines the first is returned unless the second is strictly older |
| GitSearch.ParseVPair | tests/test_git_searcher.py:12-15 | "v1.2", "v1.3" and the like parse as two-component releases |
| GitSearch.SpecialCaseScenario | tests/test_git_searcher.py:11 | a special case is answered whatever git prints |
| GitSearch.SimpleScenario | tests/test_git_searcher.py:12 | output "v1.2" gives v1.2 |
| GitSearch.TwoTagsScenario | tests/test_git_searcher.py:13 | output "v1.2\nv1.3" gives v1.2 |
| GitSearch.PlaceholderScenario | tests/test_git_searcher.py:15 | output "v1.2\n$GIT_TAG\nv1.3" gives v1.2 |
| GitSearch.MissingTagScenario | tests/test_git_searcher.py:16 | empty output gives None |
| GitSearch.CommandErrorScenario | tests/test_git_searcher.py:24-33 | a failing git command gives None |
| UiDetectorGitSearch.Resolve | swagger_ui_detector.py:114-136 | the hard-coded hashes are answered as listed; a failing git command raises GitCommandError and any other exception is InvalidVersion; any other tag found is a version among the remaining lines |
| UiDetectorGitSearch.SwaggerGitSearcher.constructor | swagger_ui_detector.py:106-112 | the searcher keeps the repository's tag query |
| UiDetectorGitSearch.SwaggerGitSearcher.GetVersionFromShorthash | swagger_ui_detector.py:114-136 | the answer is this copy's resolver on git's output |
| UiDetectorGitSearch.HardCodedAnswered | swagger_ui_detector.py:124-127 | the two hard-coded hashes are answered without git |
| UiDetectorGitSearch.NoneOnlyForPlaceholder | swagger_ui_detector.py:128-136 | None exactly when git printed only the placeholder |
| UiDetectorGitSearch.NothingLeft | swagger_ui_detector.py:128-131 | removing the placeholder empties the lines exactly when it was the whole output |
| UiDetectorGitSearch.EmptyOutputRaises | swagger_ui_detector.py:128-133 | empty output is sorted as one empty line and raises InvalidVersion |
| UiDetectorGitSearch.CommandErrorPropagates | swagger_ui_detector.py:128 | a failing git command raises GitCommandError |
| UiDetectorGitSearch.AgreesWithGitSearcher | swagger_ui_detector.py:128-133 | apart from those cases it answers as src/git_searcher.py does with the hard-coded map |
| DetectorGitSearch.GetVersionFromShorthash | swagger_detector.py:117-139 | never None; raises exactly for a failing command or output of only the placeholder; otherwise returns a line of the output |
| DetectorGitSearch.FirstOrSecondLine | swagger_detector.py:131-136 | the first line, or the second behind a leading placeholder, or IndexError |
| DetectorGitSearch.EmptyOutputGivesEmptyString | swagger_detector.py:131-136 | empty output returns the empty string as the version |
| DetectorGitSearch.PlaceholderOnlyRaises | swagger_detector.py:133-134 | output of only the placeholder raises IndexError |
| DetectorGitSearch.UnsortedDrift | swagger_detector.py:131-136 | for tags 1.3 then 1.2 this copy returns 1.3 where the sorted copy returns 1.2 |
| DetectorGitSearch.TwoLines | swagger_detector.py:131 | two lines without newlines split into those two |
| DetectorGitSearch.SortedPicksOlder | swagger_ui_detector.py:128-133 | the sorted copy returns the older of two tags |
| Scanners.HexRun | src/swagger_classifier.py:60 | the run of `[a-f0-9]` at a position is maximal |
| Scanners.HashTokenIsPattern | src/swagger_classifier.py:60 | the scanner's test at a position holds exactly when `"g[a-f0-9]{5,20}"` matches there, with the run as its width |
| Scanners.FindHash | src/swagger_classifier.py:60 | the position found is the leftmost test that holds, and none means none holds |
| Scanners.SearchHash | src/swagger_classifier.py:60 | a match is a piece of the text made of `"g`, 5 to 20 hex digits and a closing quote |
| Scanners.StripHash | src/swagger_classifier.py:61-62 | `[2:-1]` drops the first two characters and the last one, and nothing else |
| Scanners.SearchHashIsLeftmostMatch | src/swagger_classifier.py:60 | `re.search` gives None exactly when the pattern occurs nowhere, and otherwise the leftmost match |
| Scanners.FoundHashShape | src/swagger_classifier.py:60-62 | `[2:-1]` of a match is 5 to 20 hex digits |
| Scanners.SpaceRun | src/swagger_classifier.py:96 | the run of spaces at a position is maximal |
| Scanners.WordRun | src/swagger_classifier.py:96 | the run of `[0-9a-z.]` at a position is maximal |
| Scanners.VersionTagIsPattern | src/swagger_classifier.py:96 | `" * @version v"` matches at a position only when ` *` takes all of the space run there but the marker's own space |
| Scanners.FindVersion | src/swagger_classifier.py:96 | the position found is the leftmost match, and none means none |
| Scanners.SearchVersion | src/swagger_classifier.py:96 | a match exists exactly when " @version v" occurs in the text; a match is a piece of the text holding that marker |
| Scanners.MarkerFound | src/swagger_classifier.py:96 | the version pattern matches somewhere exactly when " @version v" occurs, since ` *` may take no space |
| Scanners.SearchVersionIsLeftmostMatch | src/swagger_classifier.py:96 | `re.search` gives None exactly when the pattern occurs nowhere, and otherwise the leftmost match |
| Scanners.WordHasNoSpace | src/swagger_classifier.py:96 | the version word holds no space |
| Scanners.VersionMatchParts | src/swagger_classifier.py:96-97 | a match is its extra spaces, " @version v" and the word |
| Scanners.SplitMatch | src/swagger_classifier.py:97 | such a match splits on spaces into the pieces of its spaces, "@version" and the version |
| Scanners.MatchHasThirdPiece | src/swagger_classifier.py:96-97 | every match has a piece 2, so `[2]` never raises |
| Scanners.OneSpaceGivesVersion | src/swagger_classifier.py:96-97 | with one leading space piece 2 is the version |
| Scanners.TwoSpacesGiveMarker | src/swagger_classifier.py:96-97 | with two leading spaces piece 2 is "@version" |
| Scanners.HexRunExact | src/swagger_classifier.py:60 | a run of hex digits closed by a non-hex character is the run measured |
| Scanners.WordRunExact | src/swagger_classifier.py:96 | likewise for the version word |
| Scanners.HashTokenAlone | src/swagger_classifier.py:60-62 | a text that is one hash token is matched whole and stripped to its digits |
| Scanners.MarkerStartsTag | src/swagger_classifier.py:96 | a text starting with " @version v" matches at its start |
| Scanners.WordAfter | src/swagger_classifier.py:96 | a version word after any prefix is the whole run there |
| Scanners.VersionCommentAlone | src/swagger_classifier.py:96-97 | a text " @version v" + word gives "v" + word |
| Scanners.ErrorTextHasNoMatch | tests/test_swagger_classifier.py:44-48 | the body "error" matches neither pattern |
| SwaggerClassifier.Filter | src/swagger_classifier.py:29 | the comprehension keeps sources that mention the name and is non-empty exactly when one does |
| SwaggerClassifier.FilterHead | src/swagger_classifier.py:49 | its `[0]` is the first source that mentions the name |
| SwaggerClassifier.DetectMajor | src/swagger_classifier.py:19-35 | 3 exactly when a source mentions the bundle, 2 exactly when none does but one mentions the older script, 0 otherwise |
| SwaggerClassifier.DetectMinor3 | src/swagger_classifier.py:37-69 | IndexError exactly when no source mentions the bundle; no other TypeError or IndexError escapes |
| SwaggerClassifier.DetectMinor2 | src/swagger_classifier.py:71-104 | raises exactly when no source mentions the script, and then IndexError |
| SwaggerClassifier.GetSwaggerUiVersion | src/swagger_classifier.py:106-130 | never raises IndexError or TypeError, and never raises when the resolver does not |
| SwaggerClassifier.Minor3FetchesBundle | src/swagger_classifier.py:49-54 | only the first bundle source is fetched, as it is when it has a scheme, joined to the page URL otherwise |
| SwaggerClassifier.Minor3Fallback | src/swagger_classifier.py:56-68 | a failed fetch or a bundle without a hash token gives "v3" |
| SwaggerClassifier.Minor3AsksResolver | src/swagger_classifier.py:59-66 | the resolver gets the 5 to 20 hex digits of the leftmost token and its answer is returned, except that IndexError and TypeError give "v3" |
| SwaggerClassifier.Minor2FetchesScript | src/swagger_classifier.py:82-90 | only the first script source is fetched, as it is when it has a scheme, joined to `https://` and the page's host otherwise |
| SwaggerClassifier.Minor2Fallback | src/swagger_classifier.py:92-103 | a failed fetch or a script without a version comment gives "v2" |
| SwaggerClassifier.Minor2ReadsComment | src/swagger_classifier.py:95-97 | with a version comment the answer is piece 2 of the match, which always exists |
| SwaggerClassifier.NoVersionWithoutScripts | src/swagger_classifier.py:116-130 | a page that cannot be fetched or links neither script gives None |
| SwaggerClassifier.DispatchByScript | src/swagger_classifier.py:124-128 | a page linking the bundle goes to the v3 detector, one linking only the older script to the v2 detector |
| SwaggerClassifier.MissingSourceIgnored | src/swagger_classifier.py:29-31 | a script tag without `src` (`str(None)`) never counts |
| SwaggerClassifier.DetectMajorScenarios | tests/test_swagger_classifier.py:19-30 | the four `detect_major` cases give 2, 3, 0 and 0 |
| SwaggerClassifier.Minor3Scenarios | tests/test_swagger_classifier.py:87-142 | a bundle with one hash token gives the resolver's answer; "error" and a failed fetch give "v3" |
| SwaggerClassifier.Minor2Scenarios | tests/test_swagger_classifier.py:33-85 | a script with one version comment gives its version; "error" and a failed fetch give "v2" |

## Left out

- HTTP requests, BeautifulSoup and `urllib.parse` are not modelled. They enter as
  parameters:
  - a `Response` with the table rows already extracted, for the catalog
  - a `Web` record of uninterpreted functions, for the classifier: fetch, script
    sources, scheme, host and join
  - `None` stands for `RequestException`; timeouts are not modelled.
- `base_url` and the joining of advisory links are not modelled. Each row's
  record arrives already extracted, or fails.
- Which CSS selector each copy uses is not modelled.
- The git subprocess is a parameter `tagsContaining`. Every git failure is one
  `CommandFailed`.
- Logging, the command-line front ends (`cli.py`, `src/cli.py`, `main`,
  `estimate`, `print_vulns`) and the `__main__` blocks are not modelled.
- PEP 440 beyond release segments is not modelled: epochs, pre-, post- and
  dev-releases, local versions, and leading or trailing whitespace, which
  `packaging` strips (`" 1"` and `"1\n"` are versions there). Such strings
  are treated as raising `InvalidVersion`, which `packaging` would not do for
  all of them. The detector's own inputs carry no such whitespace: rules are
  stripped and split on spaces, and git's output is split on newlines, so
  only a rule holding another whitespace character, such as a tab, reaches
  this case.
- LegacySnykCatalog.SnykParser.constructor: snyk_parser.py:20-22 and the two
  embedded copies never set `vulnerabilities` before the first load, so a query
  before it raises AttributeError in the source. The model starts it as the
  empty list. The command-line callers always load first.
- SnykCatalog.SnykParser.constructor: the `vulnerabilities` attribute exists
  only after the first load in the source, so reading it earlier raises
  AttributeError. The model starts it as the empty list.
- SwaggerClassifier.DetectMinor3: the resolver is any function returning a
  string, None or an exception. A resolver of another type is not modelled,
  and neither is the AttributeError raised when `git_obj` is None and a hash
  is found.
- GitSearch.Earliest: a comparison sort is modelled by its result (the first
  least element), not by its steps.
- The "three_git" case of tests/test_git_searcher.py:14 has no lemma of its
  own. `GitSearch.ResolvedTagIsEarliestLine` covers it.
- The scenario lemmas take the test strings as arguments that parse to the
  tests' releases (1.2, 1.3, 4.11.1 and so on). The test files' bundle and
  script bodies are replaced by texts holding only the hash token or the
  version comment.
- SnykCatalog.NewerVersionNotMatched, SnykCatalog.OlderVersionMatched: the
  test's 14-record catalog is taken as any catalog of `<hi` and `>=lo <hi`
  rules. Its bounds (3.26.1, 2.0.24 and the others) are not parsed one by
  one. The requires state what the test's bounds satisfy: every upper bound
  is 4.1.3 or has a major version below 4, and the catalog begins with the
  `<4.1.3` record.

## Findings

| source | as written | input that shows it | evidently intended | confidence | as-written member | corrected member |
|---|---|---|---|---|---|---|
| snyk_parser.py:57-59 | the guard `len(vsplit) == 0` can never hold, because `split` returns at least one piece | the empty rule "" raises InvalidVersion for every version | the empty rule answers None, as src/snyk_parser.py:70-71 does | high; not executed | LegacySnykCatalog.EmptyRuleRaises | SnykCatalog.EmptyRuleUndecided |
