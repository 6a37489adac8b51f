# gitlab-jobstats: a verified model of the job-log tools

This project models, in Dafny, the logic of the three command-line tools
that work on GitLab CI job logs:

- `jobtrace.py` turns the `section_start:<time>:<name>` and
  `section_end:<time>:<name>` markers of a job log into Chrome trace events.
  Each marker becomes one event, in order. Its time is the marker's unix
  time relative to the first marker, in microseconds.
- `joboutput.py` picks the failed jobs of a jobs CSV and works out where to
  download their traces from and where to save them. This covers the
  token, the API endpoint and the encoded project taken from the job's web
  URL, the trace URL, the trace file, the default output directory and the
  filter chain.
- `teststats.py` strips ANSI colour sequences from job output. It scrapes
  failing-test names with a list of patterns, then counts, for each test,
  the files it failed in. It reports the tests from the most to the least
  frequent.

Modules, one per concern:

| module | file | models |
|---|---|---|
| `Wrappers` | `wrappers.dfy` | `Option` and `Result` |
| `Text` | `text.dfy` | `str.strip` with Python's whitespace set, `int()` of a digit string, `split`/`join`, order-preserving filters, maps and flat maps |
| `SectionMarkers` | `section_markers.dfy` | the `SECTION_BRACKET` pattern as a hand-written recogniser, and `finditer` over a line |
| `JobTrace` | `job_trace.dfy` | `main` of `jobtrace.py`: the `Events` specification and the `Convert` loop proved against it |
| `Utf8` | `utf8.dfy` | UTF-8 encoding, which `quote_plus` applies first, with an independent strict decoder |
| `Quoting` | `quoting.dfy` | `quote_plus`, with `unquote_plus` as its inverse |
| `Urls` | `urls.dfy` | `urllib.parse.urlparse` as CPython 3.12 implements it |
| `Paths` | `paths.dfy` | the part of `pathlib.PurePosixPath` the tool uses: parsing, `parent`, `name`, `stem`, `/` |
| `Glob` | `glob.dfy` | `fnmatch.fnmatchcase` |
| `JobOutput` | `job_output.dfy` | `get_token`, `get_endpoint`, the trace URL and file of `get_job_trace`, the default output directory and the filter chain of `main` |
| `Ansi` | `ansi.dfy` | `ANSI_ESCAPE_SEQ` and `strip_ansi_codes` |
| `TestStats` | `test_stats.dfy` | `scrape_file` and the counting, file map and report of `main` |

Where the source loops and updates variables, the model is imperative and
is proved against a specification function:

- `JobTrace.Convert` has the nested loop over lines and matches. It tracks
  `start_time` and appends events, and it is proved to return
  `Events(Markers(lines))`.
- `TestStats.ScrapeFile` adds names to a set and lists them.
- `TestStats.Tally` updates a counter and a file map file by file, and
  `TestStats.MostCommon` ranks the counter.

The other operations are expressions in the source and are functions here.

Decisions about the semantics, taken from the code:

- `if not start_time` treats a start time of 0 as unset. `JobTrace.Unset`
  says so, and the lemmas about the start time follow from it.
- `\s` in `SECTION_BRACKET` is Python's Unicode whitespace, the set
  `str.isspace` uses. `Text.IsSpace` lists it, and `Text.Strip` uses the
  same set, as `str.strip()` does.
- The `--jobs` default is the string `"*"`, not a list. Iterating it yields
  the single pattern `*` (`JobOutput.DefaultPatterns`). `--jobs` given with
  no value yields the empty list, which selects nothing.
- A test name is a capture group, so it can be `None` when the last group
  did not take part in the match. `TestStats.Group` is `Option<string>`.
- The repository's design notes also describe an incremental pipeline
  synchronisation engine (pagination, early stop, CSV appending). The
  source has no such code: `jobstats.py` only parses arguments and gets a
  token. It is not modelled.

## Model

| member | source | states |
|---|---|---|
| SectionMarkers.RunLength | jobtrace.py:9 | a greedy `+` run: every character before the returned length satisfies the class, and the character at it (if any) does not |
| SectionMarkers.RunLengthUnique | jobtrace.py:9 | any run that cannot be extended has exactly the length `RunLength` computes |
| SectionMarkers.KindAt | jobtrace.py:9 | the alternative `(start\|end)` found is `start` or `end`, and `section_<kind>:` is a prefix of the input |
| SectionMarkers.KindAtOf | jobtrace.py:9 | whenever `section_start:` or `section_end:` begins the text, that kind is the one found |
| SectionMarkers.Groups | jobtrace.py:9 | the groups after the head: a non-empty all-digit timestamp and a non-empty name of name characters |
| SectionMarkers.GroupsSound | jobtrace.py:9 | the groups reported are spelled at the start of the text, and the greedy name cannot be extended |
| SectionMarkers.GroupsComplete | jobtrace.py:9 | every well-formed, maximal timestamp-colon-name at the start of the text is read with exactly those groups |
| SectionMarkers.GroupsOf | jobtrace.py:9 | where the digit run and the name run stand, the groups are those two runs |
| SectionMarkers.MatchAt | jobtrace.py:9 | a match at the start of a string has well-formed groups and fits in the string |
| SectionMarkers.MatchAtSound | jobtrace.py:9 | a match is spelled `section_<kind>:<digits>:<name>` at the start of the string, with a name no longer run could extend |
| SectionMarkers.MatchAtComplete | jobtrace.py:9 | conversely, every well-formed, maximal marker spelled at the start of the string is the match found there |
| SectionMarkers.SpellingIsNameChars | jobtrace.py:9 | the whole text of a marker is made of name characters, so a marker never spans whitespace, `[` or a control character |
| SectionMarkers.MatchAtBarrier | jobtrace.py:9 | text after a non-name character cannot change the match at the start |
| SectionMarkers.MarkerBeforeBarrier | jobtrace.py:9 | a match found in front of a non-name character lies wholly before it |
| SectionMarkers.MarkerKeptByBarrier | jobtrace.py:9 | a match before a non-name character is still found, unchanged, once text follows |
| SectionMarkers.Scan | jobtrace.py:41 | `finditer` over a line: every reported match has well-formed groups |
| SectionMarkers.ScanWithoutSection | jobtrace.py:41 | text in which `section_` never occurs yields no match |
| SectionMarkers.ScanAtMatch | jobtrace.py:41 | after a match, scanning resumes right after its greedy name: the matches are that one, then those of the remaining text |
| SectionMarkers.ScanBarrier | jobtrace.py:41 | the matches of `a`, a non-name character and `rest` are those of `a` followed by those of `rest` |
| JobTrace.StartTime | jobtrace.py:38-45 | `start_time` after some markers is set exactly when there was at least one marker |
| JobTrace.StartTimeSnoc | jobtrace.py:44-45 | one more marker sets `start_time` to its timestamp when it was unset (None or 0) and keeps it otherwise |
| JobTrace.Events | jobtrace.py:40-57 | one event per marker |
| JobTrace.EventsSnoc | jobtrace.py:47-57 | one more marker appends exactly its event, timed against the start time as it stands after that marker |
| JobTrace.EventShape | jobtrace.py:42-56 | event `k` carries marker `k`'s name verbatim, `pid` and `tid` 1, and `ph` is `B` exactly for `start` and `E` otherwise |
| JobTrace.EventAt | jobtrace.py:44-56 | event `k` is marker `k`'s event, timed against the start time as it stands after marker `k` |
| JobTrace.Markers | jobtrace.py:40-41 | the markers of all lines, in line order and left to right within a line, all well formed |
| JobTrace.NextEvent | jobtrace.py:42-57 | handling one more match as the loop body does keeps the event list and `start_time` equal to the specification |
| JobTrace.HandleMarker | jobtrace.py:42-57 | the loop body over one match takes the event list and `start_time` of the earlier markers to those of the earlier markers plus this one |
| JobTrace.AddEvents | jobtrace.py:41-57 | the inner loop over one line's matches extends the events and `start_time` from the markers before the line to the markers up to its end |
| JobTrace.Convert | jobtrace.py:38-57 | the nested loop over lines and matches returns exactly `Events(Markers(lines))` |
| JobTrace.StartTimeWhileZero | jobtrace.py:44-45 | while every timestamp so far is 0, `start_time` stays 0 |
| JobTrace.StartTimeFirstNonZero | jobtrace.py:44-45 | `start_time` is the first non-zero timestamp once there is one |
| JobTrace.StartTimeStable | jobtrace.py:44-45 | once `start_time` is non-zero, later markers never change it |
| JobTrace.RelativeToFirstNonZero | jobtrace.py:43-48 | from the first non-zero timestamp on, `ts` is `(timestamp - first non-zero timestamp) * 1_000_000`, negative when a later marker is older |
| JobTrace.ZeroWhileUnset | jobtrace.py:44-48 | an event whose timestamp and all earlier timestamps are 0 has `ts` 0 |
| JobTrace.FirstEventAtZero | jobtrace.py:44-48 | the first event always has `ts` 0 |
| JobTrace.NoMarkersNoEvents | jobtrace.py:39-41 | lines without markers yield an empty event list |
| JobTrace.FileLines | jobtrace.py:40 | iterating a text file yields non-empty lines |
| JobTrace.FileLinesJoin | jobtrace.py:40 | the lines of a file put back together are the file |
| JobTrace.ScanLineBreak | jobtrace.py:40-41 | the line break that ends a line never changes the markers found in it |
| JobTrace.MarkersOfText | jobtrace.py:40-41 | scanning line by line finds exactly the markers of the whole text |
| Text.DecimalString | jobtrace.py:43 | the decimal spelling of a number: non-empty, all digits, no leading zero except for 0 itself |
| Text.DecimalRoundTrip | jobtrace.py:43 | `int()` of a number's decimal spelling is that number |
| Text.LeadingZeroIgnored | jobtrace.py:43 | `int()` ignores leading zeros |
| Text.TrimStart | joboutput.py:105 | the dropped front is all stripped characters, and the kept part does not start with one |
| Text.TrimEnd | joboutput.py:105 | the dropped back is all stripped characters, and the kept part does not end with one |
| Text.Trim | joboutput.py:105 | the result neither starts nor ends with a stripped character |
| Text.TrimExact | joboutput.py:105 | stripping keeps exactly the span from the first to the last kept character |
| Text.TrimIdempotent | joboutput.py:105 | stripping twice is stripping once |
| Text.Strip | joboutput.py:92 | `str.strip()`: no whitespace at either end |
| Text.BeforeFirst | joboutput.py:105 | `split(sep)[0]`: a prefix of the input in which `sep` does not start, ending at the first `sep` or at the end |
| Text.BeforeFirstAt | joboutput.py:105 | when the first `sep` starts at `i`, the first piece is the text before `i` |
| Text.SplitOn | joboutput.py:70 | `split(c)` gives at least one piece, and no piece holds `c` |
| Text.SplitJoinRoundTrip | joboutput.py:70 | joining the pieces of `split(c)` with `c` gives back the string |
| Text.JoinSplitRoundTrip | joboutput.py:70 | splitting pieces joined with `c` gives back the pieces when none holds `c` |
| Text.Filter | joboutput.py:77-80 | a filter keeps only elements that pass the test |
| Text.FilterMembers | joboutput.py:77-80 | an element is kept exactly when it is in the input and passes the test |
| Text.FilterConcat | joboutput.py:77-80 | filtering keeps input order: it distributes over concatenation |
| Text.FilterTwice | joboutput.py:77-80 | two filters one after the other are one filter by both tests |
| Text.FilterAll | joboutput.py:77-80 | a filter that every element passes keeps the input |
| JobOutput.GetToken | joboutput.py:87-94 | a non-empty `--token` wins; otherwise the token file's contents, stripped; with neither, an error, and only then |
| JobOutput.TokenFromFile | joboutput.py:91-92 | the token read from a file is its text between the surrounding whitespace |
| JobOutput.ProjectPath | joboutput.py:105 | the project path neither starts nor ends with `/` |
| JobOutput.ProjectPathOfJobPage | joboutput.py:105 | for a job page `/<project>/-/jobs/<id>`, the project path is the project |
| JobOutput.GetEndpoint | joboutput.py:97-108 | an error exactly when `urlparse` raises; otherwise the endpoint is `scheme://netloc` and the project is `quote_plus` of the project path, which holds no `/` and no space and decodes back to the project path |
| JobOutput.EndpointOfJobPage | joboutput.py:97-108 | for a job page URL, the endpoint is `scheme://netloc` and the project is `quote_plus` of the project |
| JobOutput.TraceRequest | joboutput.py:127-130 | the trace request fails exactly when `get_endpoint` does, and otherwise fetches the job's trace URL under that endpoint and project and saves to `<job-id>.txt` in the output directory |
| JobOutput.TraceFileInOutdir | joboutput.py:128 | the trace file's parent is the output directory and its name is `<job-id>.txt` |
| JobOutput.QuotedIsSegment | joboutput.py:107 | the encoded project holds none of `/?#;`, tab, CR or LF |
| JobOutput.TracePathProject | joboutput.py:130 | the trace path is `/api/v4/projects/`, then the encoded project as one segment, then `jobs/<id>/trace` |
| JobOutput.TracePathAvoids | joboutput.py:130 | none of `?#;`, tab, CR or LF enters the trace path unless the project brings it |
| JobOutput.TracePathPlain | joboutput.py:130 | the trace path is absolute and holds none of `?#;`, tab, CR or LF |
| JobOutput.TraceUrlParses | joboutput.py:129-130 | the trace URL parses back into the endpoint's scheme and netloc with the trace path as its path |
| JobOutput.OutputDir | joboutput.py:69-72 | an explicit `--output` is used as given |
| JobOutput.DefaultOutputDirBeside | joboutput.py:69-72 | the default output directory is in the CSV's directory and named after the CSV's stem |
| JobOutput.StemIsPart | joboutput.py:72 | the stem of a file name is a valid path part unless it is `.` |
| JobOutput.DefaultOutputDirDotStem | joboutput.py:72 | for a CSV named `..csv` the stem is `.`, and the default output directory is the CSV's own directory |
| JobOutput.SelectJobsIsOneFilter | joboutput.py:77-80 | the three filters are one order-preserving filter by the conjunction of their tests |
| JobOutput.SelectJobsMembers | joboutput.py:77-80 | a job is selected exactly when its name matches a glob, its trace file is absent and its status is `failed` |
| JobOutput.SelectJobsConcat | joboutput.py:77-80 | selection keeps input order: it distributes over concatenation |
| JobOutput.DefaultPatternsKeepAll | joboutput.py:59-77 | the default `*` name filter keeps every job |
| JobOutput.NoPatternsSelectNothing | joboutput.py:58-77 | an empty `--jobs` list selects no job |
| Glob.ClassStart | joboutput.py:77 | the search for the closing `]` starts after the `[`, an optional `!` and one leading `]` |
| Glob.ClassEnd | joboutput.py:77 | a `[` set ends at the first `]` from where the search starts, and no `]` lies in between; `|p|` means the set is not closed |
| Glob.InItemsPlain | joboutput.py:77 | without ranges, the members of a set are exactly the characters it lists |
| Glob.MatchSet | joboutput.py:77 | `[abc]` matches exactly the one-character names whose character is listed |
| Glob.MatchNegatedSet | joboutput.py:77 | `[!abc]` matches exactly the one-character names whose character is not listed |
| Glob.MatchLiteral | joboutput.py:77 | a pattern without `*`, `?` or `[` matches exactly the name it spells |
| Glob.MatchStarThen | joboutput.py:77 | `*` followed by `q` matches exactly when some suffix of the name matches `q` |
| Glob.MatchStar | joboutput.py:77 | `*` matches every name |
| Glob.MatchAnyChars | joboutput.py:77 | a pattern of `?` only matches exactly the names of its length |
| Paths.SplitRoot | joboutput.py:70 | the root and the rest make up the string, and the root is empty, `/` or `//` |
| Paths.SplitRootOf | joboutput.py:70 | a root followed by a relative rest splits back into them |
| Paths.ParseNormal | joboutput.py:70 | every parsed path is a root, then non-empty parts other than `.` with no slash |
| Paths.ParseFormat | joboutput.py:70 | parsing the string form of a normal path gives back that path |
| Paths.ParsePart | joboutput.py:128 | a single valid part parses as a relative path of that one part |
| Paths.Parent | joboutput.py:71 | `parent` keeps the root and drops exactly the last part, when there is one |
| Paths.LastDot | joboutput.py:72 | the index of the last `.` of a name (no `.` after it), or its length exactly when the name has no `.` |
| Paths.StemSuffix | joboutput.py:72 | stem and suffix make up the name, and a suffix is a `.` plus at least one character without a `.` |
| Paths.Join | joboutput.py:128 | `/` with a relative string keeps the root and extends the parts |
| Paths.JoinPart | joboutput.py:128 | joining one valid part appends it, so the result's parent is the path and its name is the part |
| Paths.JoinNothing | joboutput.py:72 | joining an empty name or `.` leaves the path unchanged |
| Utf8.EncodeChar | joboutput.py:107 | one to four bytes per character, one byte exactly for ASCII, continuation bytes after the first |
| Utf8.DecodeMultiOf | joboutput.py:107 | the multi-byte sequence of a character decodes as that character |
| Utf8.DecodeEncode | joboutput.py:107 | strict UTF-8 decoding undoes encoding for every string |
| Utf8.EncodeConcat | joboutput.py:107 | encoding distributes over concatenation |
| Utf8.EncodeAscii | joboutput.py:107 | an ASCII string encodes to its code points, one byte each |
| Quoting.HexDigit | joboutput.py:107 | the escape's digits are upper-case hex and read back as their value |
| Quoting.QuoteByte | joboutput.py:107 | an always-safe byte is kept, a space becomes `+`, and every other byte becomes `%` and two upper-case hex digits that read back as the byte |
| Quoting.QuotePlus | joboutput.py:107 | every character of the result is an unreserved character, `+` or part of an escape, so no `/` and no space survive |
| Quoting.PercentDecodeByte | joboutput.py:107 | the escape of a byte reads back as that byte |
| Quoting.PercentDecodeQuote | joboutput.py:107 | percent-decoding undoes the byte-level quoting |
| Quoting.UnquoteQuote | joboutput.py:107 | `unquote_plus(quote_plus(s)) == s` for every string |
| Quoting.QuotePlusInjective | joboutput.py:107 | distinct projects have distinct encodings |
| Quoting.QuotePlusUnreserved | joboutput.py:107 | ASCII letters, digits and `_.-~` are kept as they are |
| Quoting.QuotePlusConcat | joboutput.py:107 | encoding works character by character, so it distributes over concatenation |
| Quoting.QuotePlusSlash | joboutput.py:107 | `group/project` encodes as `group%2Fproject` |
| Urls.LowerAscii | joboutput.py:103 | the scheme is lower-cased character by character |
| Urls.Clean | joboutput.py:103 | the cleaned URL starts with no C0 control or space and holds no tab, CR or LF |
| Urls.SplitScheme | joboutput.py:103-104 | a scheme is split off at the first `:` only when what precedes it is a valid scheme, and it is lower-cased |
| Urls.SplitNetloc | joboutput.py:103-104 | the network location runs up to the first `/`, `?` or `#`, and the two parts make up the input |
| Urls.SplitAt | joboutput.py:103 | `split(c, 1)`: the first part holds no `c`, and the parts with `c` between them make up the input |
| Urls.LastIndex | joboutput.py:103 | the last occurrence of a character |
| Urls.SplitParams | joboutput.py:103 | the parameters are split off at the first `;` after the last `/`, and hold no `/` |
| Urls.UrlSplit | joboutput.py:103 | `urlsplit` never produces parameters |
| Urls.SplitAfterScheme | joboutput.py:103 | after the scheme, the result keeps the scheme and has no parameters |
| Urls.UrlParse | joboutput.py:103 | parameters are split off only for the schemes that use them |
| Urls.SchemeParts | joboutput.py:103 | the scheme found is lower case or empty, and neither part holds a tab, CR or LF |
| Urls.SplitWellformed | joboutput.py:103 | every successful `urlsplit` result is well formed |
| Urls.ParseWellformed | joboutput.py:103 | every successful `urlparse` result is well formed: a netloc without `/?#` and with balanced brackets, a path without `?#`, a query without `#`, and no tab, CR or LF |
| Urls.ParseCompose | joboutput.py:103-104 | a URL written from simple parts parses back into exactly those parts |
| Ansi.Lead | teststats.py:18 | the optional `[0-9,A-Z]{1,2}` takes at most two parameter characters |
| Ansi.ShortNumber | teststats.py:18 | the optional `;[0-9]{1,2}` is absent or a `;` and one or two digits |
| Ansi.LongNumber | teststats.py:18 | the optional `;[0-9]{3}` is absent or a `;` and exactly three digits |
| Ansi.Final | teststats.py:18 | the optional final character is one of `m`, `\|`, `K` |
| Ansi.MatchLen | teststats.py:18 | a match starting at ESC `[` is at least those two characters and fits in the text |
| Ansi.MatchIsSequence | teststats.py:18 | what the greedy matcher consumes is a string the pattern describes |
| Ansi.GreedyNotLongest | teststats.py:18 | the greedy, backtrack-free match is not always the longest: `ESC[1;123m` loses only six characters and leaves `3m` |
| Ansi.StripCodes | teststats.py:100-101 | the result is never longer than the input |
| Ansi.StripNoEscape | teststats.py:100-101 | a string without ESC is returned unchanged |
| Ansi.StripPlainPrefix | teststats.py:100-101 | text before the first ESC is kept as it is |
| Ansi.StripSubsequence | teststats.py:100-101 | the characters kept are a subsequence of the input, in order |
| Ansi.StripAfterMatch | teststats.py:100-101 | a sequence at the front is removed and scanning goes on right after it |
| Ansi.ColourRemoved | teststats.py:18 | `ESC[n;km`, with one or two digits in each number, is removed |
| Ansi.Colour256Removed | teststats.py:18 | a 256-colour sequence with a three-digit index is removed |
| Ansi.Colour256Leftover | teststats.py:18 | a 256-colour sequence with a one- or two-digit index leaves `;<index>m` behind |
| Ansi.BarIsFinal | teststats.py:18 | `\|` is a final character of a sequence |
| Ansi.NotIdempotent | teststats.py:100-101 | stripping once can leave a sequence that stripping again removes |
| TestStats.Clean | teststats.py:88 | a cleaned line is never longer than the line |
| TestStats.Contribution | teststats.py:91-95 | a match contributes exactly its last group, and a match without groups or no match contributes nothing |
| TestStats.LineNamesSnoc | teststats.py:89-95 | trying one more pattern adds exactly its contribution |
| TestStats.FileNamesSnoc | teststats.py:87-95 | one more line adds exactly the names its cleaned text yields |
| TestStats.LineNamesIff | teststats.py:89-95 | a name is found in a line exactly when some pattern yields it there |
| TestStats.TextNamesIff | teststats.py:87-95 | a name is found in some texts exactly when some pattern yields it on some text |
| TestStats.FileNamesIff | teststats.py:87-95 | a name is in a file's result exactly when some pattern yields it on some cleaned line |
| TestStats.PatternOrder | teststats.py:63-95 | the result does not depend on the order of the patterns |
| TestStats.GrouplessPattern | teststats.py:89-95 | a pattern without capture groups contributes nothing |
| TestStats.ListOf | teststats.py:97 | `list(results)` holds each element of the set exactly once |
| TestStats.ScrapeLine | teststats.py:88-95 | the loop over the patterns adds exactly the names the line yields |
| TestStats.ScrapeFile | teststats.py:81-97 | the file's result has no duplicates and holds exactly the names some pattern yields on some cleaned line |
| TestStats.Count | teststats.py:66-72 | no test is counted in more files than there are |
| TestStats.CountConcat | teststats.py:66-72 | counts and file lists work file by file: they distribute over concatenation, keeping input order |
| TestStats.FilesWithCount | teststats.py:70-72 | a test's file list is as long as its count |
| TestStats.CountSnoc | teststats.py:66-72 | one more file adds 1 and its name exactly for the tests it holds |
| TestStats.FilesWithMembers | teststats.py:70-72 | a name is in a test's file list exactly when a file of that name holds the test |
| TestStats.CountIsFilter | teststats.py:66-72 | a test's count is the number of files that hold it |
| TestStats.SkipFile | teststats.py:68 | a file that does not hold a test changes neither its count nor its file list |
| TestStats.EmptyFileIgnored | teststats.py:68 | a file with an empty result changes no count and no file list |
| TestStats.Copies | teststats.py:71-72 | `n` appends of a name give a list of length `n` |
| TestStats.DistinctOnce | teststats.py:70 | a list without duplicates adds each of its tests to the counter once |
| TestStats.Update | teststats.py:70 | `counter.update(results)` adds each test's number of occurrences in `results` and keeps the other counts |
| TestStats.AppendStep | teststats.py:71-72 | one append adds the file's name to one test's list and leaves the other lists alone |
| TestStats.AppendName | teststats.py:71-72 | the loop over the results appends the file's name to each result's list as often as it occurs, and only to those |
| TestStats.TallyStepAt | teststats.py:66-72 | after one more file, one test's count and file list are those of the longer prefix of the files |
| TestStats.TallyStep | teststats.py:66-72 | one iteration of the file loop keeps the counter and the file map equal to the counts and file lists of the files so far |
| TestStats.Tally | teststats.py:62-72 | each test's count is the number of files holding it, its file list names those files in input order, and only tests with a positive count are keys |
| TestStats.MaxExists | teststats.py:73 | a non-empty set of counted tests has a most frequent one |
| TestStats.SelectStep | teststats.py:73 | taking a most frequent test of those left keeps the ranking invariant |
| TestStats.MostCommon | teststats.py:73 | `most_common()` lists every counted test exactly once, with its count, in non-increasing order of count |
| TestStats.Summarise | teststats.py:62-78 | the report lists every test with count at least 1 exactly once, with the number of files holding it, in non-increasing order, and the file map lists those files |

## Left out

- Input and output: reading the CSV with `csv.DictReader` and reading files, the HTTP download in `http_get_file` (`urlopen`, the status check and `sys.exit`), `mkdir`, and the printing of results. The files and CSV rows are parameters here.
- `json.dump` of the event list: the model produces the list of events, not its JSON text.
- `reconfigure(errors="replace")` in `jobtrace.py`: the input is taken to be already decoded text.
- Argument parsing, logging (including `logging.debug` of each file's results) and the `coloredlogs` setup: configuration with no effect on the results.
- `jobstats.py`: it only parses arguments and gets a token, the same way `JobOutput.GetToken` models.
- `--jobs` given several times: argparse keeps only the last list. The model takes that final list as a parameter.
- The "output already exists" test is membership of the trace file in a set of present files.
- SectionMarkers.MatchAt: `\d` matches only ASCII digits here. Python's `\d` on text also matches other Unicode decimal digits, which `int()` also reads.
- Urls.UrlParse: `_check_bracketed_netloc` (validating a bracketed IPv6 host) and the NFKC check on the network location are not modelled. Neither applies to GitLab job URLs, and both only add error cases.
- Quoting.UnquotePlus: it returns `None` for bytes that are not UTF-8, where Python substitutes U+FFFD. Only encodings of strings are decoded here, and those are valid UTF-8.
- Urls: the CPython 3.12 behaviour of `urlsplit` is modelled. Earlier versions differ in the characters they strip and in the scheme test.
- Urls.Compose: it writes `scheme://netloc` plus path, query and fragment. It is not a model of `urlunparse`, only the inverse of `urlparse` on the parts it accepts.
- TestStats: the three built-in `FAILING_TEST_PATTERNS` and the user's `--pattern` regexes are abstract matchers. The regex engine is not modelled.
- TestStats.MostCommon: the order among tests with equal counts is left open. Python's order there depends on set iteration order within each file.
- JobTrace.FileLines: universal newlines are not modelled; lines end only at `\n`, so a lone `\r` or a `\r\n` ending stays in the line. The events are the same either way, because `\r` is not a name character and ends a marker's name like any barrier (see `SectionMarkers.ScanBarrier` and `JobTrace.MarkersOfText`).
- TestStats: a name that is `None` (a last group that did not take part in the match) is printed as `None`. The model keeps it as an absent value and leaves the printing out.
