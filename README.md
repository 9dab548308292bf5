# swimstats core in Dafny

A verified model of the core of swimstats. swimstats collects Splash Meet Manager result sheets (PDF) from a WebDAV share into a SQLite database of swim times. The model covers:

- **Extractor** (`swimstats/parse_v2.py`, module `Parse`, regexes in `LinePatterns`). The page texts of a result sheet are read line by line. The state is the meet header fields and the current event. Each line goes through the multi-swimmer split, the `PRUEBA n FEM./MASC.` heading, the DSQ/NP/BAJA filter, the trailing-noise clean-ups, the time-at-end and rank-prefix tests, the time parse and the name/birth-year split. `parse_splash_results` is a method with nested loops, proved equal to a fold over the pages.
- **Event titles** (`swimstats/events.py`, module `Events`). The stroke table, the event pattern as a leftmost-match scanner, `normalize_event_name` and `extract_event_and_category`.
- **Times** (`swimstats/stats.py`, module `Stats`). `time_to_seconds`, in integer centiseconds.
- **Names and keys** (`swimstats/normalize.py`, module `Normalize`). `strip_accents`, `norm_key`, and `normalize_name` of `swimstats/parse_v2.py`.
- **Results-sheet detector** (`swimstats/detect.py`, module `Detect`). The additive score and the threshold test.
- **Store** (`swimstats/db.py`, module `Db`). A class `Store` holding the `files`, `results` and `included_categories` tables, with the store operations as methods.
- **Sync** (`swimstats/pipeline.py`, module `Pipeline`). `sync_category` and `sync_multiple_categories` as loops over the store. They take the directory listing, download, text extraction, parser and date parser as parameters, and keep counter, progress and "which rows change" invariants.
- **WebDAV helpers** (`swimstats/webdav.py`, module `Webdav`). `safe_join`, `_href_to_rel`, and the visited-set traversals `walk_pdfs`, `list_directories` and `list_directories_recursive`, over a listing function.
- **Report helpers** (`swimstats/report.py`, module `Report`). `_safe_filename`, `_wrap_text_by_chars`, the integer part of `_rank_estimate`, and the layout of `_draw_table`.
- **Dashboards**. `tag_filter` of `plot_dashboard.py` (module `PlotDashboard`) and `fmt_eta` of `sync_dashboard.py` (module `SyncDashboard`).

Three helper modules support the rest:

- `Text`: Python `str` and `re` helpers.
- `Ordering`: the string order of `sorted`.
- `Wrappers`: `Option`.

Every regular expression is written as a deterministic scanner over `seq<char>`. Its doc comment says why Python's backtracking engine can only produce that one match.

## Model

| member | source | states |
|---|---|---|
| Text.NatToString | swimstats/events.py:36 | `str(n)` is a non-empty digit string with a leading zero only for zero |
| Text.DigitsValueOfNatToString | swimstats/events.py:32-36 | `int(str(n)) == n` |
| Text.NatToStringLength | swimstats/events.py:36 | numbers below 10, 100, 1000 and 10000 print with one to four digits |
| Text.DigitRun | swimstats/events.py:16 | the run of digits starting at a position is maximal |
| Text.SkipSpaces | swimstats/parse_v2.py:14-16 | the whitespace run starting at a position is maximal |
| Text.LStrip | swimstats/events.py:28 | `lstrip()` removes exactly the leading whitespace: what it drops is whitespace and what it keeps does not start with whitespace |
| Text.LStripSuffix | swimstats/events.py:28 | what `lstrip()` keeps is a suffix of its input |
| Text.RStrip | swimstats/events.py:28 | `rstrip()` removes exactly the trailing whitespace |
| Text.Strip | swimstats/events.py:28 | `strip()` leaves text with no whitespace at either end, no longer than the input |
| Text.StrippedIsFixed | swimstats/events.py:28 | stripping stripped text changes nothing |
| Text.StripPadded | swimstats/stats.py:14 | stripping whitespace padding around stripped text gives the text back |
| Text.LStripChar | swimstats/webdav.py:56 | `lstrip("/")` removes exactly the leading slashes: what it drops is slashes and what it keeps does not start with one |
| Text.LStripCharSuffix | swimstats/webdav.py:56 | what `lstrip("/")` keeps is a suffix of its input |
| Text.RStripChar | swimstats/webdav.py:49 | `rstrip("/")` removes exactly the trailing slashes |
| Text.StripChar | swimstats/webdav.py:31 | `strip("/")` leaves no slash at either end |
| Text.CollapseWs | swimstats/events.py:29 | `re.sub(r"\s+", " ", s)` leaves no whitespace run, is empty exactly when the input is, and keeps whether each end is whitespace |
| Text.CollapseWsKeeps | swimstats/events.py:29 | collapsing writes only spaces and input characters, so a property of both holds of every output character |
| Text.CollapsedIsFixed | swimstats/events.py:29 | collapsed text is left alone by the collapse |
| Text.StripKeepsCollapsed | swimstats/events.py:53 | stripping collapsed text keeps it collapsed |
| Text.UpperAppend | swimstats/events.py:21 | `upper()` works piecewise over a concatenation |
| Text.Lower | swimstats/webdav.py:130 | ASCII `lower()` keeps the length |
| Text.FindFrom | swimstats/webdav.py:47-48 | the search returns the first occurrence at or after the start, or none when there is none |
| Text.ContainsIff | swimstats/webdav.py:47 | `m in s` holds exactly when the marker occurs somewhere |
| Text.IndexOf | swimstats/report.py:37 | the index found holds the first occurrence of the character |
| Text.Split | swimstats/report.py:37 | `split(" ")` returns at least one piece |
| Text.SplitPiecesLackSep | swimstats/report.py:37 | no piece of a split contains the separator |
| Text.JoinCons | swimstats/report.py:44 | joining a list with a first element puts the separator after it |
| Text.SplitFirst | swimstats/report.py:37 | the first piece runs up to the first separator and the rest is the split of what follows |
| Text.SplitJoin | swimstats/webdav.py:34 | `split("/")` of pieces joined by `"/"` gives the pieces back when no piece holds a slash |
| Text.IndexOfAfter | swimstats/webdav.py:34 | the first slash of `a + "/" + b` is the one after `a` when `a` has none |
| Text.JoinSplit | swimstats/report.py:37 | joining the pieces of a split with the separator gives the text back |
| Text.LineEnd | swimstats/parse_v2.py:118 | the first line ends at the first line break |
| Text.SplitLines | swimstats/parse_v2.py:118 | no line of `splitlines()` contains a line break |
| Ordering.LessIrreflexive | swimstats/webdav.py:155 | no path sorts before itself |
| Ordering.LessAsymmetric | swimstats/webdav.py:155 | two paths never sort before each other |
| Ordering.LessTransitive | swimstats/webdav.py:155 | string order is transitive |
| Ordering.LessTotal | swimstats/webdav.py:155 | any two different paths are ordered |
| Ordering.Insert | swimstats/webdav.py:155 | inserting into a strictly sorted list keeps it strictly sorted with exactly the old elements and the new one |
| Ordering.SortedSet | swimstats/webdav.py:155 | `sorted(set(xs))` is strictly sorted and holds exactly the elements of `xs` |
| Ordering.SortedUnique | swimstats/webdav.py:155 | two strictly sorted lists with the same elements are equal, so the sorted result is unique |
| Db.NormalizeIso | swimstats/db.py:8-21 | a missing or empty value gives None; a stripped value with '-' at indices 4 and 7 and at least ten characters is cut to its first ten; any other value goes to the RFC 2822 date parser |
| Db.NormalizeIsoOfIso | swimstats/db.py:14-15 | a bare YYYY-MM-DD date comes back unchanged |
| Db.NormalizeIsoIdempotent | swimstats/db.py:8-21 | normalising an ISO-like value a second time gives the same date |
| Db.RowFor | swimstats/db.py:170-182 | the inserted row carries the file path and its id, the swimmer key is `norm_key` of the swimmer (of "" when absent), and a missing category or dataset tag becomes "" |
| Db.RowsFor | swimstats/db.py:158-183 | one row per dictionary, in input order, with consecutive ids from the next free id |
| Db.RowsForSnoc | swimstats/db.py:158-183 | inserting one more dictionary appends exactly its row |
| Db.ResultsOfAppend | swimstats/db.py:156 | selecting one file's rows from a concatenation selects from each part |
| Db.ResultsOfWithout | swimstats/db.py:156 | after the delete, the file has no rows, and every other file keeps its rows |
| Db.ResultsOfRowsFor | swimstats/db.py:158-183 | the inserted rows all belong to the file being replaced |
| Db.ReplaceResultsSpec | swimstats/db.py:151-185 | after the replacement, the file's rows are exactly the new ones in order, and every other file's rows are unchanged |
| Db.CleanPathsMembers | swimstats/db.py:197 | the cleaned list holds exactly the slash-stripped entries that are present and not only whitespace |
| Db.Store.constructor | swimstats/db.py:24-86 | a fresh database has empty tables and hands out id 1 first |
| Db.Store.UpsertFile | swimstats/db.py:113-148 | the file row of the path is inserted or overwritten with the entry's etag, size and dates and the given flags, nothing else changes, and the file is then no longer new or changed (`file_is_new_or_changed`, swimstats/db.py:104-110) |
| Db.Store.FileIsNewOrChanged | swimstats/db.py:104-110 | a path without a file row is new; a file counts as unchanged only when its row holds the entry's etag and size |
| Db.Store.ReplaceResultsForFile | swimstats/db.py:151-185 | the file's old rows are deleted and the new rows appended in order with fresh increasing ids; the other tables are untouched |
| Db.Store.InsertRows | swimstats/db.py:158-183 | the insert loop appends one row per dictionary with consecutive ids and keeps the ids increasing |
| Db.Store.ListIncludedCategories | swimstats/db.py:188-193 | the result is strictly sorted and holds exactly the included paths (only the enabled ones when asked) |
| Db.Store.AddIncludedCategories | swimstats/db.py:196-207 | each cleaned path is inserted enabled or re-enabled; the other tables are untouched |
| Db.Store.RemoveIncludedCategories | swimstats/db.py:210-214 | each cleaned path is deleted; the other tables are untouched |
| Db.Store.SetCategoryEnabled | swimstats/db.py:217-222 | the flag of the slash-stripped path is set when that path is present, and no row is ever inserted |
| Db.WithoutKeepsIds | swimstats/db.py:50 | deleting rows keeps AUTOINCREMENT ids increasing and below the next id |
| Db.EnableAll | swimstats/db.py:198-206 | the included paths afterwards are the earlier ones plus the added ones |
| Db.EnableAllSpec | swimstats/db.py:198-206 | every added path is enabled, and every other path keeps its flag |
| Db.EnableAllIdempotent | swimstats/db.py:196-207 | adding the same paths a second time changes nothing |
| Db.RemoveAll | swimstats/db.py:212-213 | deleting never adds a path |
| Db.RemoveAllSpec | swimstats/db.py:212-213 | exactly the listed paths are gone, and every remaining path keeps its flag |
| Detect.ColonTimeIff | swimstats/detect.py:6 | the time alternative of `RANK_LINE` accepts exactly the `M:SS.cc` and `M:SS` shapes of `time_to_seconds` |
| Detect.ColonTimeHasNoSpace | swimstats/detect.py:6 | a colon time contains no whitespace, so it starts after the line's last whitespace character |
| Detect.LastSpace | swimstats/detect.py:6 | a found index holds a whitespace character |
| Detect.LastSpaceIsLast | swimstats/detect.py:6 | no whitespace follows the found index (none at all when nothing is found) |
| Detect.LastSpaceIs | swimstats/detect.py:6 | a whitespace character with none after it is the one found |
| Detect.LastSpaceBeforeSuffix | swimstats/detect.py:6 | a whitespace character right before a whitespace-free suffix is the last one |
| Detect.RankLineIff | swimstats/detect.py:5-7 | on a line without a line break, the deterministic scan accepts exactly when the regex's parts (rank digits, dot, whitespace, text, whitespace, time) can be placed |
| Detect.IsRankLine | swimstats/detect.py:5-7 | a rank line starts with a digit and has at least six characters (rank, dot, space, text, space, time) |
| Detect.RankLineParts | swimstats/detect.py:5-7 | any placement of the regex's parts makes the scan accept |
| Detect.ShapePlaced | swimstats/detect.py:5-7 | an accepted shape yields a placement of the regex's parts |
| Detect.PlacedShape | swimstats/detect.py:5-7 | a placement of the parts fixes the shape the scan looks for |
| Detect.PruebaFrom | swimstats/detect.py:23 | the search succeeds exactly when `\bPRUEBA\s+\d+\b` matches at some index from the start on |
| Detect.KeywordScore | swimstats/detect.py:17-26 | the keyword points are at most 9 (3 + 2 + 2 + 2), and some point needs a text of at least two characters |
| Detect.CountWhereIsCard | swimstats/detect.py:28-31 | the counting loop's total is the number of lines that satisfy the test |
| Detect.ScoreResultsPdf | swimstats/detect.py:9-34 | the returned score is the keyword points on the upper-cased text of the first `max_pages` pages plus the rank-line count capped at six, and 0 when the document cannot be opened |
| Detect.CountRankLines | swimstats/detect.py:28-31 | the loop counts the lines that are rank lines once stripped |
| Detect.IsResultsPdf | swimstats/detect.py:36-38 | the flag is true exactly when the score reaches the threshold, with the default two pages |
| Detect.ScoreBounds | swimstats/detect.py:9-34 | the score never exceeds 15 (9 keyword points plus at most 6 rank lines) and is 0 for an unreadable document |
| Detect.Score | swimstats/detect.py:9-34 | the score is at most 15 and is 0 for a document that cannot be opened |
| Detect.RankLinesPart | swimstats/detect.py:28-32 | the rank lines add their number, capped at six, on top of the keyword points |
| Detect.UnreadableIsNotResults | swimstats/detect.py:14-15 | an unreadable document is never classified as results under a positive threshold |
| Detect.RankLineExample | swimstats/detect.py:5-7 | `1. ANA 1:05.30` is a rank line |
| Detect.ExampleRankAndSpace | swimstats/detect.py:5-7 | in the example, the rank is one digit and the last whitespace is at index 6 |
| Detect.ExampleShape | swimstats/detect.py:5-7 | the example has the rank-line shape |
| Detect.ExampleTimeIsColonTime | swimstats/detect.py:6 | `1:05.30` is a colon time |
| Detect.ShortTimeIsNotRankLine | swimstats/detect.py:6 | a line ending in a time without minutes (`58.70`) is not a rank line |
| Events.VariantsWellFormed | swimstats/events.py:4-12 | every (key, variant) pair of the flattened stroke table has one of the five stroke keys and a non-empty upper-case ASCII variant |
| Events.VariantsDistinct | swimstats/events.py:4-12 | no variant is listed under two strokes, so the first-match lookup is unambiguous |
| Events.VariantsAreTokens | swimstats/events.py:12-13 | every variant of the table is an alternative of the stroke pattern |
| Events.TokensAreVariants | swimstats/events.py:12-13 | every alternative of the stroke pattern is a variant of the table (the alternatives are the set of variants) |
| Events.TokenVariant | swimstats/events.py:12-13 | each alternative is found at a known position of the stroke table |
| Events.TokensLongestFirst | swimstats/events.py:13 | the alternatives are ordered by non-increasing length, so a longer word is tried before its prefixes |
| Events.TokensNonEmpty | swimstats/events.py:13 | every alternative has at least two letters |
| Events.IndexOfVariant | swimstats/events.py:22-24 | when a variant occurs in a table, the index returned holds it |
| Events.VariantIndex | swimstats/events.py:22-24 | every alternative of the pattern has an index in the stroke table that holds it |
| Events.UpperOfAsciiUpper | swimstats/events.py:23 | `v.upper()` leaves an upper-case ASCII variant unchanged |
| Events.UpperOfFolded | swimstats/events.py:15-18 | text equal to an upper-case variant ignoring case upper-cases to that variant |
| Events.UpperOfFoldedMatch | swimstats/events.py:15-18 | the text of a case-insensitive match of a variant upper-cases to the variant and has no surrounding blanks |
| Events.FirstKeySpec | swimstats/events.py:22-25 | the lookup loop returns a key exactly when some upper-cased variant equals the token, and then the key of the first such pair |
| Events.CanonicalStrokeSpec | swimstats/events.py:20-25 | `_canonical_stroke` gives a key exactly when the stripped upper-cased token is a listed variant; the key is the one that variant is listed under and is one of the five stroke keys |
| Events.CanonicalStroke | swimstats/events.py:20-25 | any key `_canonical_stroke` returns is one of the five stroke keys |
| Events.VariantsAreUpper | swimstats/events.py:23 | upper-casing any variant of the table changes nothing |
| Events.CanonicalOfKeyText | swimstats/events.py:20-25 | a token whose stripped upper-cased text is variant i maps to variant i's key |
| Events.CanonicalOfVariant | swimstats/events.py:20-25 | each variant maps to the key it is listed under |
| Events.StrokeFrom | swimstats/events.py:16 | an alternative found at a position matches there ignoring case and ends on a word boundary |
| Events.StrokeFromNone | swimstats/events.py:16 | no alternative is found exactly when none matches at the position and ends on a word boundary |
| Events.StrokeMatch | swimstats/events.py:15-18 | a match found from a 2-4 digit run is a match of the event pattern starting at those digits, with the digits' value as distance |
| Events.StrokeMatchIsMatch | swimstats/events.py:15-18 | 2-4 digits followed by an alternative that ends on a word boundary form a match of the event pattern |
| Events.DigitsBound | swimstats/events.py:16 | at most four digits read as a distance below 10000 |
| Events.DigitsBoundShort | swimstats/events.py:16 | three, two and one digits read as values below 1000, 100 and 10 |
| Events.EventAt | swimstats/events.py:15-18 | a match attempted at a position is a match of the event pattern that starts there, on a word boundary |
| Events.EventSearchFrom | swimstats/events.py:30 | `search` returns the leftmost position at or after the start where the pattern matches; no earlier position matches |
| Events.EventSearch | swimstats/events.py:30 | any match found is a match of the event pattern in the text |
| Events.CanonicalOfMatch | swimstats/events.py:32-34 | the matched stroke text always has a canonical key: the key of the alternative that matched |
| Events.MatchedKey | swimstats/events.py:20-25 | text matching variant i ignoring case maps to variant i's key, as the variant itself does |
| Events.TokenIsKey | swimstats/events.py:13 | every alternative is non-empty upper-case ASCII and unchanged by strip and upper |
| Events.VariantIsKey | swimstats/events.py:12 | every variant is non-empty upper-case ASCII and unchanged by strip and upper |
| Events.UpperWordIsKey | swimstats/events.py:21 | strip and upper leave a non-empty upper-case ASCII word unchanged |
| Events.FoldedSliceKey | swimstats/events.py:21 | a case-insensitive match of an upper-case word strips and upper-cases to the word |
| Events.SameKeySameStroke | swimstats/events.py:20-25 | `_canonical_stroke` depends only on the stripped upper-cased token |
| Events.FirstNumberFrom | swimstats/events.py:37-38 | a distance is found exactly when a stand-alone 2-4 digit number occurs at or after the start |
| Events.NormalizeEventNameSpec | swimstats/events.py:27-39 | the stroke is known exactly when the event pattern matches the collapsed title; then the name is "<dist>m <Stroke>" with a stroke key and a distance below 10000; otherwise the name is the collapsed title and the distance is present exactly when a stand-alone number occurs in it |
| Events.NormalizeEventName | swimstats/events.py:27-39 | a recognised stroke is one of the five keys and comes with a distance below 10000; without one the name is the stripped, whitespace-collapsed title |
| Events.NormalizeOfMatch | swimstats/events.py:31-36 | with a match, the result is the name, distance and key of the alternative that matched |
| Events.ExtractEventAndCategory | swimstats/events.py:41-54 | a category is present only when the pattern matched, and it is then non-empty, stripped and whitespace-collapsed |
| Events.ExtractCategoryWords | swimstats/events.py:41-54 | with a match in the cleaned title, the category is present exactly when a non-whitespace character lies outside the match, and its words are the words before the match followed by the words after it |
| Events.OutsideSpan | swimstats/events.py:52-53 | a non-whitespace character outside `[start, end)` exists exactly when the text before or the text after is not all whitespace |
| Events.ExtractAgreesWithNormalize | swimstats/events.py:41-54 | the event name agrees with `normalize_event_name` on every input; the "UNKNOWN" fallback is never reached |
| Events.CollapsedText | swimstats/events.py:42-43 | stripping and collapsing whitespace is idempotent, so re-normalising the cleaned text in the no-match branch changes nothing |
| Events.ExtractWithoutMatch | swimstats/events.py:45-47 | with no match, the category is absent and the event is the collapsed title |
| EventsExample.TitleIsClean | swimstats/events.py:28-29 | "100 m Libre" is already stripped and collapsed |
| EventsExample.TitleStroke | swimstats/events.py:16 | in "100 m Libre" the alternative found at position 6 is LIBRE |
| EventsExample.StrokeFromSkipsLong | swimstats/events.py:16 | alternatives longer than the rest of the text never match and can be passed over |
| EventsExample.TitleMatch | swimstats/events.py:15-18 | the event pattern matches "100 m Libre" from 0 to 11 with distance 100 and stroke LIBRE |
| EventsExample.TitleName | swimstats/events.py:35-36 | distance 100 and key LIBRE display as "100m Libre" |
| EventsExample.NormalizeExample | swimstats/events.py:27-36 | `normalize_event_name("100 m Libre")` is ("100m Libre", 100, LIBRE) |
| LinePatterns.DigitRunBack | swimstats/parse_v2.py:145-148 | the digits that end just before a position form a maximal run |
| LinePatterns.SpaceRunStart | swimstats/parse_v2.py:145-151 | the whitespace that ends just before a position forms a maximal run |
| LinePatterns.TextEnd | swimstats/parse_v2.py:24 | the point where a trailing `\s*$` starts: only whitespace follows it and no whitespace precedes it |
| LinePatterns.NameRun | swimstats/parse_v2.py:31 | the run of capitals and spaces starting at a position is maximal |
| LinePatterns.NameStartAt | swimstats/parse_v2.py:31 | a `NAME_START` match begins with a capital (accented capitals included) and ends after its start |
| LinePatterns.NameStarts | swimstats/parse_v2.py:36 | `finditer` yields strictly increasing starts, each of which opens a `NAME_START` match |
| LinePatterns.Pieces | swimstats/parse_v2.py:40 | one piece per pair of consecutive cut points |
| LinePatterns.PiecesAt | swimstats/parse_v2.py:40 | piece k is the stripped text from cut k to cut k + 1 |
| LinePatterns.Cuts | swimstats/parse_v2.py:36-39 | the cut points are the match starts followed by the line length, strictly increasing and within the line |
| LinePatterns.SplitMultiSwimmer | swimstats/parse_v2.py:33-40 | a line with at most one name start is kept whole; otherwise there is one piece per start, the stripped text from that start to the next (or to the end) |
| LinePatterns.StripKeepsFirst | swimstats/parse_v2.py:40 | stripping text that starts with a non-space keeps its first character |
| LinePatterns.NameUpperIsNotSpace | swimstats/parse_v2.py:31 | a name capital is not whitespace |
| LinePatterns.PiecesStartWithName | swimstats/parse_v2.py:33-40 | every piece of a split line is non-empty and starts with a surname capital |
| LinePatterns.RemoveChar | swimstats/parse_v2.py:133 | `replace(".", "")` leaves no dot behind |
| LinePatterns.SexText | swimstats/parse_v2.py:133 | the matched sex text, without its dot and upper-cased, is FEM or MASC as matched |
| LinePatterns.RemoveCharAppendDot | swimstats/parse_v2.py:133 | removing dots ignores a final dot |
| LinePatterns.RemoveCharOfLetters | swimstats/parse_v2.py:133 | removing dots leaves letters unchanged |
| LinePatterns.UpperOfCaseVariant | swimstats/parse_v2.py:133 | a case variant of an upper-case word upper-cases to the word |
| LinePatterns.SexAt | swimstats/parse_v2.py:15 | the sex group is empty, FEM or MASC, and when present "<word>." matches there ignoring case |
| LinePatterns.EventRest | swimstats/parse_v2.py:15-16 | the lazy rest group fails exactly at the end of the line and otherwise holds at least one character |
| LinePatterns.EventLine | swimstats/parse_v2.py:13-18 | a heading match is the match of the spans: the event number is the digit run after `PRUEBA` and its spaces (non-empty, all digits, not followed by a digit), the sex is FEM or MASC as found after the number, and the rest is non-empty |
| LinePatterns.EventLineSpans | swimstats/parse_v2.py:13-18 | a match starts with PRUEBA in any case, then whitespace, a maximal digit run, whitespace, and `FEM.` or `MASC.` in any case |
| LinePatterns.EventLineSexGroup | swimstats/parse_v2.py:133 | the sex is the matched `FEM.`/`MASC.` text with its dot removed and upper-cased |
| LinePatterns.SampleHeadingSpans | swimstats/parse_v2.py:13-18 | in `Prueba 12 fem., 100 m Libre` the number starts at 7 with two digits and `fem.` at 10 |
| LinePatterns.SampleHeadingNum | swimstats/parse_v2.py:13-18 | the digits at 7..9 of the sample are `12` |
| LinePatterns.SampleHeadingRest | swimstats/parse_v2.py:15-16 | the rest of the sample after `fem.,` is `100 m Libre` |
| LinePatterns.EventLineExample | swimstats/parse_v2.py:13-18 | the sample heading gives event 12, sex FEM and rest `100 m Libre` |
| LinePatterns.LastIndexOf | swimstats/parse_v2.py:11 | the index found holds the character and none follows it; none is found exactly when the character is absent |
| LinePatterns.DateAt | swimstats/parse_v2.py:11 | a date match ends within the line and only whitespace follows it |
| LinePatterns.PlaceDateLine | swimstats/parse_v2.py:11 | a place/date match needs a comma in the line, and returns a stripped place and a non-empty date |
| LinePatterns.DropDelta | swimstats/parse_v2.py:145 | dropping a trailing delta leaves a prefix of the line |
| LinePatterns.DropPoints | swimstats/parse_v2.py:147 | dropping trailing integer points leaves a prefix of the line |
| LinePatterns.DropDecimalPoints | swimstats/parse_v2.py:148 | dropping trailing decimal points leaves a prefix of the line |
| LinePatterns.DropDash | swimstats/parse_v2.py:151 | dropping a trailing placeholder dash leaves a prefix of the line |
| LinePatterns.PrefixTrans | swimstats/parse_v2.py:145-151 | a prefix of a prefix is a prefix |
| LinePatterns.DropTrailingNoise | swimstats/parse_v2.py:145-151 | the four clean-ups together leave a prefix of the line |
| LinePatterns.TimeStartFrom | swimstats/parse_v2.py:152 | the start found is the leftmost one whose text up to the trailing whitespace is a whole time token |
| LinePatterns.TimeAtEnd | swimstats/parse_v2.py:20-25 | `TIME_AT_END.search` finds the leftmost start whose text up to the trailing whitespace is a time token; no earlier start is one |
| LinePatterns.TimeText | swimstats/parse_v2.py:158 | the time text has no whitespace and no comma |
| LinePatterns.DropRankPrefix | swimstats/parse_v2.py:50 | removing the rank prefix leaves the text unchanged or a proper suffix of it |
| LinePatterns.RankPrefixStartsWithDigit | swimstats/parse_v2.py:27 | a line opened by a rank prefix starts with a digit |
| Normalize.DecomposeLatin1 | swimstats/normalize.py:7 | each Latin-1 character decomposes to itself or to characters outside the Latin-1 block |
| Normalize.DropMarks | swimstats/normalize.py:8 | the kept characters come from the decomposition and are not combining marks; with no marks nothing is dropped |
| Normalize.OutsideTableIsDecomposed | swimstats/normalize.py:7 | characters outside the table are their own decomposition |
| Normalize.DecomposeIsFinal | swimstats/normalize.py:7 | the decomposition is complete: each character it produces decomposes to itself |
| Normalize.StripAccents | swimstats/normalize.py:4-9 | the result has no decomposable character and no combining mark |
| Normalize.StripAccentsAppend | swimstats/normalize.py:7-8 | accent stripping works piecewise: the result for a concatenation is the concatenation of the results |
| Normalize.StripAccentsOfAccentFree | swimstats/normalize.py:4-9 | accent-free text comes back unchanged |
| Normalize.AsciiIsAccentFree | swimstats/normalize.py:4-9 | ASCII text is accent-free, so `strip_accents` leaves it alone |
| Normalize.StripAccentsIdempotent | swimstats/normalize.py:4-9 | stripping accents twice gives the same text as once |
| Normalize.NonKeyRun | swimstats/normalize.py:15 | the run of characters outside `[A-Z0-9]` starting at a position is maximal |
| Normalize.SubNonKey | swimstats/normalize.py:15 | the result holds only key characters and single spaces; it is empty exactly when the input is, and it starts with a space exactly when the input starts outside `[A-Z0-9]` |
| Normalize.KeyTextTail | swimstats/normalize.py:15 | the tail of key text is key text |
| Normalize.SubNonKeyOfKeyText | swimstats/normalize.py:15 | key text is left unchanged by the substitution |
| Normalize.KeyTextIsCollapsed | swimstats/normalize.py:16 | key text has no whitespace run, so the whitespace collapse leaves it alone |
| Normalize.KeyTextSlice | swimstats/normalize.py:15-16 | a slice of key text is key text |
| Normalize.StripOfKeyText | swimstats/normalize.py:16 | stripped key text is a clean key |
| Normalize.KeyOf | swimstats/normalize.py:15-16 | substitution, collapse and strip give a clean key: `[A-Z0-9]` words separated by single spaces |
| Normalize.NormKey | swimstats/normalize.py:11-17 | `norm_key` always returns a clean key |
| Normalize.KeyOfCleanKey | swimstats/normalize.py:15-16 | a clean key comes back unchanged from the substitution steps |
| Normalize.UpperOfCleanKey | swimstats/normalize.py:14 | upper-casing key text changes nothing |
| Normalize.NormKeyOfCleanKey | swimstats/normalize.py:11-17 | a clean key is a fixed point of `norm_key` |
| Normalize.NormKeyIdempotent | swimstats/normalize.py:11-17 | `norm_key(norm_key(s)) == norm_key(s)` for every text |
| Normalize.NormKeyEmpty | swimstats/normalize.py:13 | the empty text (the stand-in for None) has the empty key |
| Normalize.StripAccentsOne | swimstats/normalize.py:7-8 | one character becomes its decomposition without marks |
| Normalize.StripAccentsSplice | swimstats/normalize.py:7-8 | accent stripping acts on one character independently of its neighbours |
| Normalize.StripAccentsOfPlain | swimstats/normalize.py:7-8 | a character outside the table that is not a mark survives unchanged |
| Normalize.NormKeyIgnoresAccent | swimstats/normalize.py:11-17 | replacing an accented letter by its base letter does not change the key |
| Normalize.UpperSplice | swimstats/normalize.py:14 | upper-casing acts on one character independently of its neighbours |
| Normalize.NormKeyOfSplice | swimstats/normalize.py:11-17 | the key depends on a plain character only through its upper-case form |
| Normalize.UpperOfAsciiLetter | swimstats/normalize.py:14 | an ASCII lower-case letter and its capital upper-case alike |
| Normalize.NormKeyIgnoresCase | swimstats/normalize.py:11-17 | changing an ASCII letter's case does not change the key |
| Normalize.NormalizeNameClean | swimstats/parse_v2.py:184-189 | `normalize_name` gives whitespace-collapsed text with no combining mark, stripped exactly when the accent-stripped stripped input is |
| Normalize.NormalizeName | swimstats/parse_v2.py:184-189 | the name is whitespace-collapsed and empty exactly when the stripped, accent-free input is |
| Normalize.StripAccentsDropsLeadingMark | swimstats/parse_v2.py:187-188 | a combining mark before accent-free text is dropped |
| Normalize.NormalizeNameKeepsLeadingSpace | swimstats/parse_v2.py:184-189 | "́ Ana" normalises to " Ana": the strip runs before the mark is removed, so a space can be left in front |
| Normalize.MarkFirstIsStripped | swimstats/parse_v2.py:186 | a leading combining mark is not whitespace, so the strip keeps the text |
| Normalize.MarkFirstLosesMark | swimstats/parse_v2.py:187-188 | removing accents from "́ Ana" drops only the mark |
| Normalize.SpaceFirstIsCollapsed | swimstats/parse_v2.py:189 | one leading space survives the whitespace collapse |
| Parse.InsertSpaces | swimstats/parse_v2.py:54-55 | after inserting spaces, no letter is directly followed by a digit (or no digit by a letter); nothing is lost and the first character is kept |
| Parse.GlueFixedClean | swimstats/parse_v2.py:50-56 | the prefix with its rank removed and glue split is stripped and whitespace-collapsed |
| Parse.GlueFixed | swimstats/parse_v2.py:50-56 | the cleaned prefix has no whitespace at either end |
| Parse.YearValue | swimstats/parse_v2.py:58 | a stand-alone one- or two-digit number has a value of at most 99 |
| Parse.NoYearInsideRun | swimstats/parse_v2.py:58 | no match of `\b(\d{1,2})\b` starts inside a run of digits |
| Parse.NoYearInsideMatch | swimstats/parse_v2.py:58 | after a match, the next one starts only past its digits |
| Parse.Numbers | swimstats/parse_v2.py:58 | `finditer` yields positions at or after the start, each with a value of at most 99 |
| Parse.NumbersAreMatches | swimstats/parse_v2.py:58 | every listed position is a match of the pattern, with its value, in increasing order |
| Parse.ConsMatches | swimstats/parse_v2.py:58 | a match in front of a list of matches is a list of matches |
| Parse.NumbersComplete | swimstats/parse_v2.py:58 | every match at or after the start is reached: the last listed position is at or past it |
| Parse.NumbersSkip | swimstats/parse_v2.py:58 | a position with no match adds nothing |
| Parse.NumbersCompleteAtMatch | swimstats/parse_v2.py:58 | from a match, every later match is reached |
| Parse.NumbersLastFrom | swimstats/parse_v2.py:58 | the last listed position is not before the start |
| Parse.NumbersAtMatch | swimstats/parse_v2.py:58 | a match is listed first, and the scan resumes past its digits |
| Parse.NoYearBeforeRunEnd | swimstats/parse_v2.py:58 | the next match after a match starts past its digits |
| Parse.NumbersAll | swimstats/parse_v2.py:58 | no match lies after the last listed one, and none at all when the list is empty |
| Parse.LastInRange | swimstats/parse_v2.py:61-65 | the reversed loop finds a listed number within MIN_YY..MAX_YY, or there is none |
| Parse.LastInRangeIsLast | swimstats/parse_v2.py:43-65 | since every value is within 0..99, the reversed loop stops at the last number, and finds none only when there are none |
| Parse.TokensBeforeNumber | swimstats/parse_v2.py:71-76 | the kept tokens are the longest prefix with no one-to-three-digit token, and the token after them is one |
| Parse.SplitNameYear | swimstats/parse_v2.py:58-77 | a returned year is at most 99 |
| Parse.NameAndYear | swimstats/parse_v2.py:49-77 | `_extract_name_yob2` returns a year of at most 99 or none |
| Parse.NameIsClean | swimstats/parse_v2.py:49-77 | the name is whitespace-collapsed and has no combining mark |
| Parse.YearIffLateNumber | swimstats/parse_v2.py:58-69 | a year is found exactly when a stand-alone number starts after index 1 |
| Parse.YearFromLateNumber | swimstats/parse_v2.py:58-69 | a stand-alone number after index 1 gives a year |
| Parse.YearCut | swimstats/parse_v2.py:58-69 | with a year, the cut is the rightmost number's position, after index 1; the name is the normalised stripped text before it and the year is its value |
| Parse.YearIsRightmostNumber | swimstats/parse_v2.py:58-69 | with a year, a number match starts after index 1 |
| Parse.LastNumberIsRightmost | swimstats/parse_v2.py:58 | the last listed number is a match with its value, and no match lies after it |
| Parse.NameWithoutYear | swimstats/parse_v2.py:71-77 | without a year, the name is the normalised join of the tokens before the first one-to-three-digit token |
| Parse.ExtractNameYob | swimstats/parse_v2.py:49-77 | the method returns the name and year of the specification |
| Parse.PickNameYear | swimstats/parse_v2.py:58-77 | the loops return the name and year of the specification |
| Parse.ReversedScan | swimstats/parse_v2.py:59-65 | the reversed loop sets year and cut together, to the last in-range number, or leaves both unset when none is in range |
| Parse.NameTokens | swimstats/parse_v2.py:71-76 | the token loop keeps exactly the tokens before the first one-to-three-digit token |
| Parse.ShortNumberStop | swimstats/parse_v2.py:71-76 | the kept tokens are the prefix up to the first short number |
| Parse.StrippedNonEmpty | swimstats/parse_v2.py:118 | every kept line is non-empty and stripped, and no line is added |
| Parse.PageLines | swimstats/parse_v2.py:117-118 | the lines of a page are non-empty and stripped |
| Parse.HeaderStep | swimstats/parse_v2.py:121-126 | a header line sets the meet name only when unset, sets place and date together only when the date is unset, and leaves the event fields alone |
| Parse.HeaderScan | swimstats/parse_v2.py:120-126 | the header loop never overwrites a meet field that is set and leaves the event fields alone |
| Parse.FirstTen | swimstats/parse_v2.py:120 | `lines[:10]` is a prefix of at most ten lines, all lines when there are fewer |
| Parse.FirstMeetNameSnoc | swimstats/parse_v2.py:121-122 | the first meet-name line of a longer list is that of the shorter list if it has one |
| Parse.FirstPlaceDateSnoc | swimstats/parse_v2.py:123-126 | the first place/date line of a longer list is that of the shorter list if it has one |
| Parse.HeaderScanTakesFirst | swimstats/parse_v2.py:120-126 | from unset fields, the scan takes the first line naming a meet and the first place/date line, and leaves the date unset when there is none |
| Parse.EventOrUnknown | swimstats/parse_v2.py:175 | the event name is never empty, and is the current event when there is one |
| Parse.ResultRowIsWellFormed | swimstats/parse_v2.py:140-181 | a result row has the caller's category, a non-empty event, a rank-prefixed cleaned line ending in a time whose value is the row's time, and an age of at most 99; it carries the current event, category, sex and meet date |
| Parse.EventLineStep | swimstats/parse_v2.py:130-138 | an event heading yields no row, sets sex FEM or MASC and the event number, and an upper-cased category only when the heading has one |
| Parse.SkipLineStep | swimstats/parse_v2.py:140-142 | a line starting with DSQ, NP or BAJA (any case) yields no row and changes nothing |
| Parse.IsSkipLine | swimstats/parse_v2.py:141 | a line that starts with DSQ, NP or BAJA once upper-cased is not empty |
| Parse.EventStepIs | swimstats/parse_v2.py:130-138 | an event heading sets the event state from it |
| Parse.NoRowStepIs | swimstats/parse_v2.py:152-161 | a line without a trailing time, rank prefix or valid time yields no row |
| Parse.RowStepIs | swimstats/parse_v2.py:140-181 | a line with a rank, a trailing time that parses and a name yields exactly that row, state unchanged |
| Parse.ResultRowIs | swimstats/parse_v2.py:144-181 | the row built is the one with the parsed time, name and year |
| Parse.StepFacts | swimstats/parse_v2.py:128-181 | a step emits only well-formed rows and never changes the meet fields |
| Parse.ExtendsTrans | swimstats/parse_v2.py:128-181 | appending rows and keeping the meet fields compose |
| Parse.EmitExtends | swimstats/parse_v2.py:129-181 | one sub-line appends at most one well-formed row |
| Parse.StepExtends | swimstats/parse_v2.py:168-181 | appending a well-formed row keeps the earlier rows |
| Parse.SubLinesFoldExtends | swimstats/parse_v2.py:129 | the sub-line loop appends at most one row per sub-line and keeps earlier rows |
| Parse.LinesFoldExtends | swimstats/parse_v2.py:128-129 | the line loop appends at most one row per sub-line and keeps earlier rows |
| Parse.PageStepExtends | swimstats/parse_v2.py:116-181 | one page appends at most one row per sub-line and keeps earlier rows |
| Parse.PagesFoldExtends | swimstats/parse_v2.py:116-181 | all pages together append only well-formed rows, at most one per sub-line |
| Parse.PagesFoldSnoc | swimstats/parse_v2.py:116 | the page loop processes one more page per iteration |
| Parse.SplashRowsWellFormed | swimstats/parse_v2.py:104-183 | every row of `parse_splash_results` is well formed and there are at most as many as sub-lines |
| Parse.SplashRows | swimstats/parse_v2.py:104-183 | `parse_splash_results` returns at most one row per sub-line of the pages |
| Parse.MeetSetOnce | swimstats/parse_v2.py:107-126 | once set, the meet name, place and date are never changed by later pages |
| Parse.MultiSwimmerLineYieldsNoRow | swimstats/parse_v2.py:155-156 | a line that splits into several swimmer pieces yields no row, since no piece starts with a rank |
| Parse.NoRowFromPieces | swimstats/parse_v2.py:129-181 | pieces starting with a surname capital add no rows |
| Parse.EmitNoRow | swimstats/parse_v2.py:129-181 | a piece starting with a surname capital adds no row |
| Parse.PieceStepNoRow | swimstats/parse_v2.py:130-156 | a piece starting with a surname capital yields no row |
| Parse.PieceHasNoRank | swimstats/parse_v2.py:155 | a text starting with a surname capital has no rank prefix after clean-up |
| Parse.ParseSplashResults | swimstats/parse_v2.py:104-183 | the page loop returns the rows of the specification |
| Parse.ScanHeader | swimstats/parse_v2.py:120-126 | the header loop computes the header scan |
| Parse.HeaderLine | swimstats/parse_v2.py:121-126 | one header line computes the header step |
| Parse.HeaderScanSnoc | swimstats/parse_v2.py:120 | the header scan takes one more line per iteration |
| Parse.ParseLines | swimstats/parse_v2.py:128-181 | the line loop computes the line fold |
| Parse.LinesFoldSnoc | swimstats/parse_v2.py:128 | the line fold takes one more line per iteration |
| Parse.ParseSubLines | swimstats/parse_v2.py:129-181 | the sub-line loop computes the sub-line fold |
| Parse.SubLinesFoldSnoc | swimstats/parse_v2.py:129 | the sub-line fold takes one more sub-line per iteration |
| Parse.ParseSubLine | swimstats/parse_v2.py:130-181 | one sub-line computes one emit step |
| Pipeline.TallyConsistent | swimstats/pipeline.py:27-80 | the counters of the loop count every PDF once: processed plus skipped is the number found, result plus non-result sheets is the number processed, and zero-row sheets are among the result sheets |
| Pipeline.Tally | swimstats/pipeline.py:27-80 | the counters count every outcome once as found |
| Pipeline.TallyAllSkipped | swimstats/pipeline.py:38-43 | when every PDF is unchanged, nothing is processed and all are counted as skipped |
| Pipeline.TagRows | swimstats/pipeline.py:59-60 | the tagging loop sets the dataset tag of every row and changes nothing else |
| Pipeline.StoredRowsCarryTag | swimstats/pipeline.py:58-63 | every stored row of a result sheet carries the sync's dataset tag, the sheet's path, the parsed swimmer and event, and the swimmer's key; one stored row per parsed row |
| Pipeline.SyncFile | swimstats/pipeline.py:38-71 | an unchanged file is skipped with the tables untouched; a failed download stops with the tables untouched; otherwise the file row is upserted with the detection result and, for a result sheet that parses, its old rows are replaced by the tagged parsed rows, while a failed parse stops with the result rows untouched; no other path's file row or result rows change; when it returns an outcome, that outcome and the new file row and result rows of the path are those `Handled` describes |
| Pipeline.SyncStep | swimstats/pipeline.py:37-71 | handling one more entry keeps the loop invariant: one outcome per entry, other paths untouched, handled entries up to date, with distinct paths each handled entry skipped exactly when its etag and size were already stored and its file row and result rows as `Handled` says (unchanged when skipped, the `upsert_file` row otherwise, result rows kept below the threshold and exactly the tagged parsed rows for a result sheet), the entries not yet handled untouched, and nothing changed when everything was up to date |
| Pipeline.HandledFrame | swimstats/pipeline.py:38-63 | the effect of handling an entry depends only on the file row and result rows of its own path |
| Pipeline.NewFileNotSkipped | swimstats/pipeline.py:38-43 | a PDF whose path the store has never seen cannot be counted as skipped |
| Pipeline.TallySnoc | swimstats/pipeline.py:38-68 | one more outcome updates the counters as one loop iteration does |
| Pipeline.TallyCounts | swimstats/pipeline.py:38-68 | `omitidos_sin_cambios` counts the skipped files, `procesados` the others, `pdfs_no_resultados` the files below the threshold, `pdfs_resultados` the result sheets and `resultados_detectados_sin_filas` the result sheets with no rows |
| Pipeline.SyncedCategoryHandled | swimstats/pipeline.py:37-71 | in a category sync over distinct paths, each PDF handled was skipped exactly when already known, and its file row and result rows after the sync are those `Handled` describes |
| Pipeline.SyncNext | swimstats/pipeline.py:37-71 | one loop iteration either keeps the invariant for one more entry or stops on a failed download or parse with the result rows as they were and shows the listing was not up to date |
| Pipeline.SyncEntries | swimstats/pipeline.py:24-80 | returned counters are the tally of one outcome per PDF and are consistent; a stop leaves fewer outcomes and happens only when some PDF was new or changed; the progress calls count up from 0; other paths keep their rows; with distinct paths every PDF ends up known and each PDF handled has the outcome and the file row and result rows `Handled` gives it; a sync of unchanged files processes nothing and skips all |
| Pipeline.ProgressTraceSnoc | swimstats/pipeline.py:33-71 | reporting one more entry extends the progress trace with `done` one higher |
| Pipeline.StillUpToDate | swimstats/pipeline.py:37-71 | handling entry i keeps the earlier entries known when paths are distinct |
| Pipeline.SyncFail | swimstats/pipeline.py:37-71 | a failure on an entry not yet known keeps the invariant for the entries before it and shows the listing was not up to date at the start |
| Pipeline.SyncCategory | swimstats/pipeline.py:12-80 | `sync_category` is a sync of the category: a failed listing stops before any progress call with the tables untouched; otherwise the PDFs are the walk of the category and the counters, progress calls and table changes are those of the entry loop, including, with distinct paths, each PDF's outcome and its own file row and result rows |
| Pipeline.SyncedCategoryConsistent | swimstats/pipeline.py:24-80 | a sync that returned counters had a walk, and its counters are consistent and count every PDF the walk found |
| Pipeline.AllSyncedAt | swimstats/pipeline.py:103-115 | the run at position k syncs the k-th path, and it returned unless it is the last |
| Pipeline.AllSyncedPrefix | swimstats/pipeline.py:103-115 | the runs of the first j paths are themselves a sync of those paths (the loop's state after j iterations) |
| Pipeline.AllSyncedSnoc | swimstats/pipeline.py:103-115 | a sync of the next path, after the last run returned, extends the runs |
| Pipeline.SumStatsConsistent | swimstats/pipeline.py:93-113 | adding up consistent counters gives consistent counters |
| Pipeline.AddConsistent | swimstats/pipeline.py:112-113 | adding two consistent sets of counters gives consistent counters |
| Pipeline.AllSyncedReturned | swimstats/pipeline.py:103-115 | when every run returned, each run's counters are consistent |
| Pipeline.AllSyncedConsistent | swimstats/pipeline.py:93-117 | when every run returned, the summed counters are consistent |
| Pipeline.AllSyncedCounted | swimstats/pipeline.py:103-113 | when every run returned, each run's counters are those of its own outcomes |
| Pipeline.SyncedCategoryTally | swimstats/pipeline.py:27-80 | the counters a completed sync returns are the counters of its outcomes |
| Pipeline.SumStatsTally | swimstats/pipeline.py:93-113 | adding up the per-directory counters gives the counters of all PDFs handled, directory after directory |
| Pipeline.AllOutcomesLast | swimstats/pipeline.py:103-113 | the outcomes of all runs end with those of the last run |
| Pipeline.SumStatsLast | swimstats/pipeline.py:112-113 | the sum over the runs is the sum over all but the last, plus the last run's counters |
| Pipeline.TallyAppend | swimstats/pipeline.py:112-113 | counting two lists of outcomes one after the other is adding their counters field by field |
| Pipeline.AddNothing | swimstats/pipeline.py:93-101 | adding the all-zero starting counters changes nothing |
| Pipeline.CountOutcomeAdd | swimstats/pipeline.py:112-113 | counting one more outcome after a sum counts it in the second summand |
| Pipeline.StatsOf | swimstats/pipeline.py:112-113 | one counter set per run, equal to the run's own counters when it returned them |
| Pipeline.SumStatsSnoc | swimstats/pipeline.py:112-113 | one more run that returned counters adds them to the sum |
| Pipeline.DirsTraceSnoc | swimstats/pipeline.py:103-115 | one more run adds its `dir_start` call, its own calls and, when it returned, its `dir_done` call |
| Pipeline.ChainedSnoc | swimstats/pipeline.py:103-115 | a run that starts from the tables the earlier runs left extends the chain to its own end tables |
| Pipeline.SyncNextCategory | swimstats/pipeline.py:103-115 | one iteration of the path loop adds a sync of the next path on the tables the earlier runs left, and its `dir_start`, own and (when it returned) `dir_done` progress calls; when the sync returned, its counters are added to the running sum of all runs so far |
| Pipeline.SyncPaths | swimstats/pipeline.py:93-116 | one sync per path in order, each starting from the tables the previous one left; the loop stops at a sync that failed; the progress calls are the `dir_start`, per-directory and `dir_done` calls; when all returned, the result is the sum of the per-directory counters |
| Pipeline.SyncMultipleCategories | swimstats/pipeline.py:83-117 | the same for the category paths (none when they are None); when all syncs returned, the totals count the directories and hold the summed counters (consistent by `AllSyncedConsistent`) |
| Webdav.EncodeAll | swimstats/webdav.py:34 | each path segment is encoded on its own, one result per segment |
| Webdav.SafeJoin | swimstats/webdav.py:30-34 | the URL starts with the base without trailing slashes followed by one slash; an empty (or all-slash) path gives exactly that |
| Webdav.SafeJoinPlain | swimstats/webdav.py:30-34 | when encoding leaves every segment unchanged, the URL is the base, a slash and the slash-stripped path |
| Webdav.SafeJoinSegments | swimstats/webdav.py:30-34 | when no encoded segment holds a slash, what follows the base and its slash splits back into the encoded segments of the path, one per segment and in order |
| Webdav.After | swimstats/webdav.py:48-53 | `split(m, 1)[1]` is the text after the first occurrence of the marker |
| Webdav.HrefToRel | swimstats/webdav.py:37-56 | the relative path is the text after the public-files marker if present, otherwise after the public.php marker, otherwise the whole unquoted href, without trailing (and, in the last case, leading) slashes; it never ends in a slash |
| Webdav.RStripSlashes | swimstats/webdav.py:49 | trailing slashes after a path that does not end in one are removed exactly |
| Webdav.HrefToRelOfPublicFiles | swimstats/webdav.py:44-49 | a public-files href built from a relative path gives that path back |
| Webdav.PdfsInSpec | swimstats/webdav.py:123-131 | the entries yielded from one listing are exactly its non-directory PDF entries other than the directory itself |
| Webdav.SubdirsInSpec | swimstats/webdav.py:123-128 | the paths pushed from one listing are exactly those of its directory entries other than the directory itself |
| Webdav.PdfsOfAllAreListed | swimstats/webdav.py:123-131 | every yielded entry is a non-directory PDF entry of the listing of some visited directory |
| Webdav.LeftShrinks | swimstats/webdav.py:116-118 | marking a new directory as seen shrinks the set of directories still to visit |
| Webdav.WalkPdfs | swimstats/webdav.py:110-131 | the walk lists the slash-stripped start first, each directory once, every later one named by an earlier listing, and every named subdirectory; it yields the PDFs of those listings in listing order |
| Webdav.ReadListing | swimstats/webdav.py:123-131 | the entry loop pushes exactly the subdirectories and yields exactly the PDF entries of the listing, in order |
| Webdav.ListingSnoc | swimstats/webdav.py:123-131 | the entry loop handles one more entry per iteration |
| Webdav.WalkSkip | swimstats/webdav.py:115-117 | popping an already seen directory keeps the walk invariant |
| Webdav.WalkVisit | swimstats/webdav.py:115-131 | visiting an unseen directory keeps the walk invariant |
| Webdav.VisitBasics | swimstats/webdav.py:115-121 | a directory popped and not yet seen is new to the listing order |
| Webdav.PdfsOfAllSnoc | swimstats/webdav.py:121-131 | listing one more directory appends its PDFs |
| Webdav.VisitOrder | swimstats/webdav.py:115-121 | a newly visited directory keeps the listing order repeat-free and found by an earlier listing |
| Webdav.DistinctSnoc | swimstats/webdav.py:116-118 | adding an unseen directory keeps the listing order repeat-free |
| Webdav.FoundBeforeSnoc | swimstats/webdav.py:115-128 | each listed directory after the first stays found by an earlier listing |
| Webdav.VisitStack | swimstats/webdav.py:123-128 | after a visit every subdirectory named so far is listed or on the stack |
| Webdav.WalkDone | swimstats/webdav.py:114 | an empty stack ends the walk with the promised listing order and PDFs |
| Webdav.FoundInSnoc | swimstats/webdav.py:127-128 | the subdirectories named after one more listing are the earlier ones and those of the new listing |
| Webdav.WalkStep | swimstats/webdav.py:127-128 | every stacked path is the start or named by a listing |
| Webdav.ListingsOkSnoc | swimstats/webdav.py:120-121 | a successful listing of one more directory keeps every listing so far successful |
| Webdav.WalkFail | swimstats/webdav.py:120-121 | a directory whose listing fails ends the walk: it is listed last, after the order so far, with no PDFs |
| Webdav.DirPaths | swimstats/webdav.py:149-154 | the collected paths are exactly the slash-stripped directory entries other than the base |
| Webdav.ListDirectories | swimstats/webdav.py:141-155 | `list_directories` succeeds exactly when the listing does, and returns the strictly sorted set of subdirectory paths other than the base |
| Webdav.SubdirsBounded | swimstats/webdav.py:157-174 | subdirectories named by listings lie in the finite set of directories |
| Webdav.ListDirectoriesRecursive | swimstats/webdav.py:157-174 | the result is strictly sorted and is exactly the set of subdirectories named by the listings made; every listing is made below the maximum depth, the first for the base at depth 0, each later one for a directory named one level up |
| Webdav.SubdirNames | swimstats/webdav.py:166-169 | the names returned are exactly the subdirectories, a failed listing counting as none |
| Webdav.Discover | swimstats/webdav.py:170-173 | every new name is added to the output and pushed one level deeper; nothing is pushed when no name is new |
| Webdav.SetGrows | swimstats/webdav.py:170-173 | growing the output shrinks what is left to find |
| Webdav.SubsetCard | swimstats/webdav.py:170-173 | a subset has no more elements |
| Webdav.RecSkip | swimstats/webdav.py:164-165 | popping an item at or beyond the maximum depth keeps the loop invariant |
| Webdav.RecVisit | swimstats/webdav.py:163-173 | listing a directory below the maximum depth keeps the loop invariant |
| Webdav.RecVisitNamed | swimstats/webdav.py:170-173 | every output name stays named by a listing, and every listing's names are in the output |
| Webdav.RecVisitFound | swimstats/webdav.py:170-173 | every frontier item stays found one level below a listed directory |
| Webdav.FoundAtDepthSnoc | swimstats/webdav.py:163-173 | being found by a listing survives more listings |
| Webdav.FoundAtDepthBeforeSnoc | swimstats/webdav.py:163-173 | each listed item after the first stays found by an earlier listing |
| Webdav.SetToSeq | swimstats/webdav.py:174 | `sorted(out)` holds exactly the elements of the set |
| Webdav.RecDone | swimstats/webdav.py:162-174 | with the frontier empty, the loop invariants give the promises of `list_directories_recursive` |
| Webdav.QueuedFacts | swimstats/webdav.py:170-173 | the inner loop only pushes names of the listing one level deeper, and pushes nothing when every name is already in the output |
| Webdav.QueuedRecorded | swimstats/webdav.py:170-173 | every name pushed so far is already in the output |
| Webdav.QueuedKeep | swimstats/webdav.py:171 | a name already in the output is not pushed again |
| Webdav.QueuedPush | swimstats/webdav.py:171-173 | a name not yet in the output is added and pushed once, at the end, one level deeper |
| Webdav.PushSkip | swimstats/webdav.py:164-165 | dropping a frontier item at or beyond the maximum depth keeps the record of pushed items |
| Webdav.PushVisit | swimstats/webdav.py:163-173 | listing the top item and pushing its new subdirectories keeps the record of pushed items |
| Webdav.PushVisitPlaces | swimstats/webdav.py:163-173 | after a visit every pushed item is on the frontier, listed, or at or beyond the maximum depth |
| Webdav.PushVisitPushed | swimstats/webdav.py:170-173 | after a visit the pushed items after the base are the output names, each found one level below a listing and pushed once |
| Webdav.RecClosed | swimstats/webdav.py:162-174 | at the end, every subdirectory of a pushed item above the depth limit is in the output |
| Report.KeepSafe | swimstats/report.py:20 | only letters, digits, spaces, `_` and `-` are kept, and nothing is added |
| Report.StripKeepsKept | swimstats/report.py:20 | stripping text of kept characters keeps only kept characters |
| Report.AllKeptSlice | swimstats/report.py:20 | a slice of text of kept characters has only kept characters |
| Report.UnderscoredIsFileChars | swimstats/report.py:21 | replacing each whitespace run by `_` leaves only letters, digits, `_` and `-` |
| Report.SafeFilenameIsFileName | swimstats/report.py:19-22 | every result of `_safe_filename` is a file name: 1 to 120 letters, digits, `_` and `-` ("report" when nothing is left) |
| Report.SafeFilename | swimstats/report.py:19-22 | the name has 1 to 120 characters |
| Report.UnderscoredNoSpace | swimstats/report.py:21 | text without whitespace is left alone by the underscore substitution |
| Report.KeepSafeOfFileChars | swimstats/report.py:20 | text of file-name characters is left alone by the filter |
| Report.SafeFilenameOfFileName | swimstats/report.py:19-22 | a name that is already a file name comes back unchanged |
| Report.SafeFilenameIdempotent | swimstats/report.py:19-22 | sanitising a file name twice gives the same name as once |
| Report.WrapTextByChars | swimstats/report.py:34-50 | the loop returns the wrapped lines of the specification, and a text of at most `max_chars` characters as its only line |
| Report.WrapText | swimstats/report.py:34-36 | a text of at most `max_chars` characters is its own only line |
| Report.WrapFoldGood | swimstats/report.py:40-49 | the word loop closes only non-empty lines that fit or are one word, and the line being filled fits or is one word |
| Report.WrapTextLines | swimstats/report.py:34-50 | every line of a wrapped long text is non-empty, and a line longer than `max_chars` is a single word |
| Report.JoinMerge | swimstats/report.py:44 | joining a merged line "x y" gives the same text as joining x and y separately |
| Report.WrapFoldJoin | swimstats/report.py:40-49 | with non-empty words, the word loop loses and reorders nothing: joined with spaces, its lines are the pending text followed by the words |
| Report.WrapTextJoin | swimstats/report.py:34-50 | for words separated by single spaces, joining the wrapped lines with spaces gives the text back |
| Report.CountsPartition | swimstats/report.py:56-57 | every time is faster than, equal to or slower than the best, and counted once |
| Report.EstimateRank | swimstats/report.py:53-59 | n is the number of times, the rank is between 1 and n + 1, and faster times plus ties are at most n |
| Report.RankOneIff | swimstats/report.py:56 | the rank is 1 exactly when no time is faster than the best |
| Report.TiesIff | swimstats/report.py:57 | there are ties exactly when the best time occurs among the times |
| Report.RankMonotone | swimstats/report.py:56 | a slower best time never gets a better rank |
| Report.Clip | swimstats/report.py:90 | `str(cell)[:60]` is a prefix of the cell of at most 60 characters |
| Report.Clipped | swimstats/report.py:89-90 | one clipped text per cell |
| Report.LineCalls | swimstats/report.py:89-91 | one draw call per cell |
| Report.RowYClosedForm | swimstats/report.py:81-92 | after k body rows the baseline is `y0 - row_h * (k + 1)` |
| Report.RowsDrawn | swimstats/report.py:84-93 | no more rows are drawn than there are |
| Report.DrawTable | swimstats/report.py:62-95 | the calls are the header cells at `y0` followed by the clipped cells of each drawn row, and the returned baseline lies one row below the last row drawn; the rows drawn are all rows, or `max_rows` of them when given |
| Report.RowsDrawnAt | swimstats/report.py:84-93 | the loop stops after exactly the rows the limit allows |
| Report.DrawLine | swimstats/report.py:89-91 | the cell loop draws each text at the running x position |
| Report.RowsDrawnStops | swimstats/report.py:86-87 | the limit is not reached before the last row drawn, and the loop stops at the end of the rows or at the limit |
| Report.TableCallsCount | swimstats/report.py:77-91 | the table makes one call per header cell and one per body cell |
| Report.TableCallsHeader | swimstats/report.py:75-79 | header cell i is drawn at `x0` plus the widths of the columns before it, at `y0` |
| Report.TableCallsBody | swimstats/report.py:84-93 | every call after the header lies on a body row's baseline and has a text of at most 60 characters |
| Report.LineCallsAt | swimstats/report.py:89-91 | cell i is drawn at `x0` plus the widths of the columns before it |
| PlotDashboard.NonEmptyTagsAreNonEmpty | plot_dashboard.py:31-41 | no bound value is an empty tag |
| PlotDashboard.NonEmptyTags | plot_dashboard.py:31-41 | no more values than tags, each one a non-empty given tag |
| PlotDashboard.NonEmptyTagsInOrder | plot_dashboard.py:31-41 | the bound values keep the order of the tags |
| PlotDashboard.NonEmptyTagsCount | plot_dashboard.py:31-41 | each non-empty tag is bound as many times as it is given, and the empty tag never |
| PlotDashboard.TagFilterEmptyIff | plot_dashboard.py:31-41 | the filter is empty (no condition, no values) exactly when no tag is non-empty, None and the empty tuple included |
| PlotDashboard.TagFilter | plot_dashboard.py:31-41 | the condition is empty exactly when no value is bound, and no bound value is empty |
| PlotDashboard.NoNonEmptyIff | plot_dashboard.py:31-41 | no tag is kept exactly when all tags are empty |
| PlotDashboard.OccurrencesAppend | plot_dashboard.py:40 | occurrences of a character in a concatenation add up |
| PlotDashboard.MarksList | plot_dashboard.py:40 | `",".join(["?"] * n)` holds n marks in 2n - 1 characters |
| PlotDashboard.PlaceholdersShape | plot_dashboard.py:40 | the placeholder list is `(`, n marks separated by commas, `)` |
| PlotDashboard.ConditionShape | plot_dashboard.py:40-41 | the condition is the `AND <alias>.dataset_tag IN ` head followed by the placeholder list, and for an alias without `?` holds exactly n marks |
| PlotDashboard.TagFilterPlaceholders | plot_dashboard.py:31-41 | with values, the condition has one placeholder per bound value |
| PlotDashboard.NoOccurrences | plot_dashboard.py:41 | text without a character has no occurrences of it |
| SyncDashboard.ClockOf | sync_dashboard.py:29-32 | hours, minutes and seconds add up to the duration, with minutes and seconds below 60 |
| SyncDashboard.Pad2Reads | sync_dashboard.py:34-36 | `f"{n:02d}"` gives two digits that read back as n |
| SyncDashboard.FmtEtaDashIff | sync_dashboard.py:26-37 | the em dash is shown exactly for a missing or negative estimate |
| SyncDashboard.FmtEta | sync_dashboard.py:26-37 | the text shown is never empty |
| SyncDashboard.FmtEtaHours | sync_dashboard.py:33-34 | from an hour on, the text reads as hours and two-digit minutes, within a minute of the estimate |
| SyncDashboard.FmtEtaMinutes | sync_dashboard.py:35-36 | between a minute and an hour, the text reads back as minutes and two-digit seconds, exactly |
| SyncDashboard.FmtEtaSeconds | sync_dashboard.py:37 | under a minute, the text is the number of seconds |
| Stats.FracCentis | swimstats/stats.py:22-27 | the fraction is below 100 centiseconds, and a single digit counts as tenths |
| Stats.ShapesAtRun | swimstats/stats.py:8-10 | in each pattern the colon or separator sits where the leading digits end, and each later digit group is a whole run, so a text matches each pattern in at most one way |
| Stats.ScanTime | swimstats/stats.py:15-28 | a reading is returned exactly when one of the three patterns matches, and it is that pattern's value: minutes·6000 + seconds·100 + fraction in centiseconds |
| Stats.TimeToCentis | swimstats/stats.py:13-28 | `time_to_seconds` strips its input, then returns the value of the matching pattern, and None exactly when no pattern matches |
| Stats.TimeOfMinSecFrac | swimstats/stats.py:8-27 | an `M:SS.cc` or `M:SS,c` time reads as minutes, seconds and fraction |
| Stats.TimeOfMinSec | swimstats/stats.py:9-24 | an `M:SS` time reads as minutes and seconds with no fraction |
| Stats.TimeOfSecFrac | swimstats/stats.py:10-27 | an `S.cc` or `SS,cc` time reads as seconds and fraction |
| Stats.TwoDigitsValue | swimstats/stats.py:21 | two digits read as tens and units |
| Stats.MinSecFracExample | swimstats/stats.py:8-27 | "1:05.30" reads as 6530 centiseconds |
| Stats.MinSecExample | swimstats/stats.py:9-24 | "1:75" is accepted without a range test on the seconds and reads as 13500 centiseconds |
| Stats.SecFracExample | swimstats/stats.py:10-26 | "58.7" reads as 5870 centiseconds: one fraction digit counts as tenths |
| Stats.CommaExample | swimstats/stats.py:10 | "32,40" reads as 3240 centiseconds: a comma works like a dot |
| Stats.TimeIgnoresPadding | swimstats/stats.py:14 | whitespace around a time does not change its reading |
| Stats.ThreeDigitSecondsRejected | swimstats/stats.py:10-28 | "100.5" matches no pattern (at most two second digits), so the reading is None |
| Db.ResultsOf | swimstats/db.py:156-183 | the rows stored for one path are some of the table's rows |
| Db.Without | swimstats/db.py:156 | deleting a path's rows never adds a row |
| Db.CleanPaths | swimstats/db.py:197 | dropping blank entries never adds a path |
| Detect.CountWhere | swimstats/detect.py:28-31 | the line counter never exceeds the number of lines |
| Text.DigitsSlice | swimstats/events.py:32 | the digits of a matched number read as a digit string |
| Text.DigitRunOfDigits | swimstats/stats.py:8-10 | the digit run starting at a position ends exactly at the first non-digit |
| Text.LStripPadded | swimstats/stats.py:14 | leading whitespace before text that does not start with whitespace is removed exactly |
| Text.RStripPadded | swimstats/stats.py:14 | trailing whitespace after text that does not end with whitespace is removed exactly |
| Text.CollapsedSlice | swimstats/events.py:52-53 | a slice of collapsed text is collapsed |
| Text.Words | swimstats/events.py:52-53 | the words of a text that starts with a non-whitespace character are not empty (the word list is the reference for what strip and collapse keep) |
| Text.NoWordsIffAllSpace | swimstats/events.py:53 | a text has no words exactly when it is all whitespace, the case where `.strip() or None` gives None |
| Text.WordsPrepend | swimstats/events.py:52 | a first character that ends a word, or is whitespace, keeps the words of a concatenation the words of the parts |
| Text.WordsAppend | swimstats/events.py:52 | texts joined at whitespace have the words of the first followed by those of the second |
| Text.WordsSpaceJoin | swimstats/events.py:52 | `before + " " + after` has the words of `before` followed by those of `after` |
| Text.WordsLStrip | swimstats/events.py:42 | `lstrip()` keeps every word |
| Text.WordsStrip | swimstats/events.py:42 | `strip()` keeps every word |
| Text.WordsCollapse | swimstats/events.py:43 | `re.sub(r"\s+", " ", s)` keeps every word |

## Left out

- PDF text extraction (pdfplumber) is not modelled. The extractor takes the page texts. The detector takes the page texts of the document, or `None` when the library cannot open it.
- `swimstats.parse`, the parser module that `swimstats/pipeline.py` imports, is not part of this model. The sync takes the parser as a parameter (`Env.parse`). `Parse.SplashRows` models `parse_v2.py` on its own.
- SQLite itself is not modelled: connections, schema creation, `ensure_migrations`, foreign keys, transactions and commits. The tables are fields of `Db.Store`. Columns the core never reads back (`added_at`, `note`) are left out.
- `_normalize_iso` delegates non-ISO dates to `email.utils.parsedate_to_datetime`. That RFC 2822 parser is a function parameter.
- The WebDAV transport is not modelled: `propfind`, `download_file`, `_auth`, the XML parsing and the configuration constants. Listings and downloads are function parameters, and `quote`/`unquote` are an encoder and a decoder passed in.
- Pipeline.SyncCategory: a listing, download or parse that raises is modelled as a `None` result that ends the sync, and `Pipeline.SyncMultipleCategories` stops there. Writes made before it stay in the store. Python's exception and its traceback are not modelled.
- Webdav.WalkPdfs, Pipeline.SyncCategory and Pipeline.SyncMultipleCategories require every directory a listing names to lie in a finite set (`DirsIn`). A server holds finitely many directories, and the walk's `seen` set only ends the loop under that assumption.
- Webdav.ListDirectoriesRecursive requires the same of its listings (`Bounded`). This is a termination device of the proof: the Python loop also ends by `max_depth` alone, since every listing is finite. Listings that name unboundedly many directories are not covered.
- Pipeline.SyncCategory: `progress_cb` is modelled as the list of calls it would receive. Only the `done` and `total` arguments are constrained. The intermediate "download", "detect" and "parse_store" calls are not listed.
- Floating point is not modelled. Times are integer centiseconds, ETA input is whole seconds, and report coordinates and widths are integers. So `fmt_eta`'s NaN test, `tie_share` in `_rank_estimate`, and `compute_percentiles`, `estimate_percentile_positions` and `seconds_to_time_str` (numpy) are left out.
- Unicode tables are approximate:
  - NFKD uses a table for the accented letters of Latin-1 only;
  - combining marks are U+0300..U+036F;
  - `upper()` covers ASCII and Latin-1;
  - `lower()` covers ASCII;
  - `\w` is approximated by ASCII letters and digits, `_`, and the Latin letters of Latin-1 and Latin Extended-A/B;
  - IGNORECASE is ASCII case folding;
  - `\d` matches the ASCII digits 0-9 only, while Python's `\d` on `str` also matches the other Unicode decimal digits (Arabic-Indic, Devanagari, fullwidth and so on), so a rank, year, time or event number written with those is rejected by the model.
- Normalize.NormalizeNameClean does not promise a stripped result. The code strips before it removes combining marks, so a mark next to a space at either end leaves that space behind. `Normalize.NormalizeNameKeepsLeadingSpace` shows this for "́ Ana". The model follows the code here, not the intended "no leading or trailing whitespace".
- ReportLab rendering is not modelled: `generate_swimmer_report_pdf` (`swimstats/report.py:98-278`), the `setFont` calls and the canvas. `_draw_table` is modelled as the list of `drawString` calls it makes.
- Db.RowFor: a parsed row is a record of optional fields, so a key present with value `None` and an absent key are the same value. `r.get("category", "")` and `r.get("dataset_tag", "")` store NULL for the first and "" for the second; the model stores "" for both.
- Report.DrawTable requires a column width for every cell. With fewer widths, Python raises `IndexError` part-way through drawing, and that is not modelled.
- The Streamlit pages are not modelled: `plot_dashboard.py` apart from `tag_filter`, `sync_dashboard.py` apart from `fmt_eta`, the ETA display, `swimstats/ui_db.py` and `swimstats/plots.py`. Neither are `debug_parse_one.py`, `swimstats/config.py` and `swimstats/__init__.py`. They hold UI code, printing or constants only.
- LinePatterns.PlaceDateLine promises only that a match needs a comma and gives a stripped place and a non-empty date. Where the date starts and ends follows from its body (`DateAt`), not from its contract.
- LinePatterns.DropDelta, LinePatterns.DropPoints, LinePatterns.DropDecimalPoints and LinePatterns.DropDash promise only that the result is a prefix of the line. Which suffix each removes is given by its body.
- LinePatterns.EventRest promises only when the rest group exists and that it is non-empty. Its exact text follows from its body.
- Parse.SplitNameYear and Parse.NameAndYear promise only that a year is at most 99. What becomes the name, and when a year is found, is proved by the lemmas about them (`Parse.YearIffLateNumber`, `Parse.YearIsRightmostNumber`, `Parse.NameWithoutYear` and `Parse.NameIsClean`).
