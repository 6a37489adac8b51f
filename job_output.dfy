/**
 * The pure logic of `joboutput.py`: choosing the GitLab token, taking the API
 * endpoint and the encoded project out of a job's web URL, building the
 * trace URL and the trace file for a job, the default output directory, and
 * the chain of filters that picks the jobs to download.
 */
module JobOutput {
  import opened Wrappers
  import opened Text
  import opened Quoting
  import opened Urls
  import opened Paths
  import opened Glob

  /** A row of the jobs CSV, reduced to the columns this tool reads. */
  datatype Job = Job(name: string, jobId: string, status: string, jobUrl: string)

  // ---------------------------------------------------------------------------
  // The token
  // ---------------------------------------------------------------------------

  /**
   * `get_token`: `token` is the `--token` argument and `tokenFile` the
   * contents of the `--token-file` file, each when given. A non-empty token
   * wins; otherwise the file's contents with surrounding whitespace stripped;
   * with neither there is no token.
   */
  function GetToken(token: Option<string>, tokenFile: Option<string>): (r: Result<string, string>)
    ensures token.Some? && token.value != [] ==> r == Ok(token.value)
    ensures r.Err? <==> (token.None? || token.value == []) && tokenFile.None?
    ensures r.Ok? && (token.None? || token.value == []) ==>
      r.value == Strip(tokenFile.value) && (r.value == [] || (!IsSpace(r.value[0]) && !IsSpace(r.value[|r.value| - 1])))
  {
    if token.Some? && token.value != [] then Ok(token.value)
    else if tokenFile.Some? then Ok(Strip(tokenFile.value))
    else Err("Failed to find GitLab PAT")
  }

  /** A token read from a file is the file's contents between its leading and trailing whitespace. */
  lemma TokenFromFile(contents: string, i: nat, j: nat)
    requires i < j <= |contents| && !IsSpace(contents[i]) && !IsSpace(contents[j - 1])
    requires forall k :: 0 <= k < i ==> IsSpace(contents[k])
    requires forall k :: j <= k < |contents| ==> IsSpace(contents[k])
    ensures GetToken(None, Some(contents)) == Ok(contents[i..j])
  {
    TrimExact(contents, IsSpace, i, j);
  }

  // ---------------------------------------------------------------------------
  // The endpoint and the project
  // ---------------------------------------------------------------------------

  predicate IsSlash(c: char) {
    c == '/'
  }

  /** The project path in a job's URL path: what precedes the first `/-/`, without leading or trailing `/`. */
  function ProjectPath(path: string): (project: string)
    ensures project == [] || (project[0] != '/' && project[|project| - 1] != '/')
  {
    Trim(BeforeFirst(path, "/-/"), IsSlash)
  }

  /**
   * `get_endpoint`: the endpoint is `scheme://netloc` of the job's URL, and
   * the project is its project path, encoded by `quote_plus`. A URL that
   * `urlparse` rejects is an error.
   */
  function GetEndpoint(job: Job): (r: Result<(string, string), string>)
    ensures r.Err? <==> UrlParse(job.jobUrl).Err?
    ensures r.Ok? ==> var u := UrlParse(job.jobUrl).value;
      r.value == (u.scheme + "://" + u.netloc, QuotePlus(ProjectPath(u.path)))
    ensures r.Ok? ==> '/' !in r.value.1 && ' ' !in r.value.1
    ensures r.Ok? ==> UnquotePlus(r.value.1) == Some(ProjectPath(UrlParse(job.jobUrl).value.path))
  {
    match UrlParse(job.jobUrl)
    case Err(e) => Err(e)
    case Ok(u) =>
      UnquoteQuote(ProjectPath(u.path));
      Ok((u.scheme + "://" + u.netloc, QuotePlus(ProjectPath(u.path))))
  }

  /**
   * A project path GitLab writes: not empty, no `/` at either end, no
   * segment that starts with `-`, and nothing `urlparse` would split off.
   */
  predicate IsProjectPath(project: string) {
    && project != [] && project[0] != '/' && project[|project| - 1] != '/' && project[0] != '-'
    && (forall k :: 0 <= k < |project| - 1 && project[k] == '/' ==> project[k + 1] != '-')
    && '?' !in project && '#' !in project && ';' !in project && NoUnsafe(project)
  }

  /** The path of a job's page: `/<project>/-/jobs/<id>`. */
  function JobPagePath(project: string, jobId: string): string {
    "/" + project + "/-/jobs/" + jobId
  }

  /** The project path of a job's page is the project. */
  lemma ProjectPathOfJobPage(project: string, jobId: string)
    requires IsProjectPath(project)
    ensures ProjectPath(JobPagePath(project, jobId)) == project
  {
    var s := JobPagePath(project, jobId);
    var i := |project| + 1;
    assert s[i..] == "/-/jobs/" + jobId;
    assert "/-/" <= s[i..];
    forall k | 0 <= k < i
      ensures !("/-/" <= s[k..])
    {
      if k == 0 {
        assert s[k + 1] == project[0];
      } else if s[k] == '/' {
        assert s[k] == project[k - 1] && s[k + 1] == project[k];
      }
    }
    BeforeFirstAt(s, "/-/", i);
    assert s[..i] == "/" + project;
    TrimExact("/" + project, IsSlash, 1, i);
    assert ("/" + project)[1..i] == project;
  }

  /** The URL of a job's page on a GitLab instance. */
  function JobPageUrl(scheme: string, netloc: string, project: string, jobId: string): ParsedUrl {
    ParsedUrl(scheme, netloc, JobPagePath(project, jobId), [], [], [])
  }

  /**
   * For the URL of a job's page, the endpoint is the instance's
   * `scheme://netloc` and the project is the project path, encoded.
   */
  lemma EndpointOfJobPage(scheme: string, netloc: string, project: string, jobId: string, name: string, status: string)
    requires Composable(JobPageUrl(scheme, netloc, project, jobId))
    requires IsProjectPath(project)
    ensures GetEndpoint(Job(name, jobId, status, Compose(JobPageUrl(scheme, netloc, project, jobId))))
      == Ok((scheme + "://" + netloc, QuotePlus(project)))
  {
    ParseCompose(JobPageUrl(scheme, netloc, project, jobId));
    ProjectPathOfJobPage(project, jobId);
  }

  // ---------------------------------------------------------------------------
  // The trace URL and the trace file
  // ---------------------------------------------------------------------------

  /** The API URL of a job's trace: the endpoint, then the trace's API path. */
  function TraceUrl(endpoint: string, project: string, jobId: string): string {
    endpoint + TracePath(project, jobId)
  }

  /** The API path of a job's trace. */
  function TracePath(project: string, jobId: string): string {
    ProjectsPrefix + project + "/jobs/" + jobId + "/trace"
  }

  /** The path of the projects collection of the GitLab REST API, version 4. */
  const ProjectsPrefix: string := "/api/v4/projects/"

  /** Where a job's trace is saved: `<job id>.txt` in the output directory. */
  function TraceFile(outdir: Path, jobId: string): Path {
    Join(outdir, jobId + ".txt")
  }

  /** `get_job_trace`'s request: the trace URL and the trace file, or the error `get_endpoint` raises. */
  function TraceRequest(outdir: Path, job: Job): (r: Result<(string, Path), string>)
    ensures r.Err? <==> GetEndpoint(job).Err?
    ensures r.Ok? ==> r.value.0 == TraceUrl(GetEndpoint(job).value.0, GetEndpoint(job).value.1, job.jobId)
    ensures r.Ok? ==> r.value.1 == TraceFile(outdir, job.jobId)
  {
    match GetEndpoint(job)
    case Err(e) => Err(e)
    case Ok((endpoint, project)) => Ok((TraceUrl(endpoint, project, job.jobId), TraceFile(outdir, job.jobId)))
  }

  /** A job id with no `/` names a file directly inside the output directory. */
  lemma TraceFileInOutdir(outdir: Path, jobId: string)
    requires '/' !in jobId
    ensures Parent(TraceFile(outdir, jobId)) == outdir
    ensures Name(TraceFile(outdir, jobId)) == jobId + ".txt"
  {
    var x := jobId + ".txt";
    assert x[|x| - 1] == 't';
    assert x != ".";
    JoinPart(outdir, x);
  }

  /** A job id as GitLab writes it: the characters an API path segment can carry unchanged. */
  predicate IsJobId(jobId: string) {
    jobId != [] && forall k :: 0 <= k < |jobId| ==> '0' <= jobId[k] <= '9'
  }

  /** The encoded project holds none of the characters that end a URL path or a path segment. */
  lemma QuotedIsSegment(project: string)
    ensures var q := QuotePlus(project);
      '/' !in q && '?' !in q && '#' !in q && ';' !in q && NoUnsafe(q)
  {
    var q := QuotePlus(project);
    forall k | 0 <= k < |q| ensures QuotedChar(q[k]) {
    }
  }

  /**
   * The segment of the trace path after `/api/v4/projects/` is exactly the
   * encoded project, since that holds no `/`; the job id follows `/jobs/`.
   */
  lemma TracePathProject(q: string, jobId: string)
    requires '/' !in q
    ensures var p := TracePath(q, jobId);
      && p[..|ProjectsPrefix|] == ProjectsPrefix
      && SplitAt(p[|ProjectsPrefix|..], '/') == (q, "jobs/" + jobId + "/trace")
  {
    var p := TracePath(q, jobId);
    var rest := "jobs/" + jobId + "/trace";
    assert p == ProjectsPrefix + (q + ['/'] + rest);
    assert p[|ProjectsPrefix|..] == q + ['/'] + rest;
    FirstIndexOf(q, '/', rest);
    assert (q + ['/'] + rest)[..|q|] == q;
    assert (q + ['/'] + rest)[|q| + 1..] == rest;
  }

  /** A character the fixed parts of the trace path do not use is in it only if the project or the job id has it. */
  lemma TracePathAvoids(q: string, jobId: string, c: char)
    requires c == '?' || c == '#' || c == ';' || IsUnsafe(c)
    requires c !in q && IsJobId(jobId)
    ensures c !in TracePath(q, jobId)
  {
  }

  /** The trace path is absolute and holds nothing `urlparse` would split off. */
  lemma TracePathPlain(q: string, jobId: string)
    requires '?' !in q && '#' !in q && ';' !in q && NoUnsafe(q) && IsJobId(jobId)
    ensures var p := TracePath(q, jobId);
      p[0] == '/' && '?' !in p && '#' !in p && ';' !in p && NoUnsafe(p)
  {
    TracePathAvoids(q, jobId, '?');
    TracePathAvoids(q, jobId, '#');
    TracePathAvoids(q, jobId, ';');
    TracePathAvoids(q, jobId, '\t');
    TracePathAvoids(q, jobId, '\r');
    TracePathAvoids(q, jobId, '\n');
  }

  /** The trace URL parses back into the instance's scheme and network location and the API path. */
  lemma TraceUrlParses(scheme: string, netloc: string, project: string, jobId: string)
    requires Composable(ParsedUrl(scheme, netloc, [], [], [], []))
    requires IsJobId(jobId)
    ensures var q := QuotePlus(project);
      UrlParse(TraceUrl(scheme + "://" + netloc, q, jobId)) == Ok(ParsedUrl(scheme, netloc, TracePath(q, jobId), [], [], []))
  {
    var q := QuotePlus(project);
    QuotedIsSegment(project);
    var u := ParsedUrl(scheme, netloc, TracePath(q, jobId), [], [], []);
    TracePathPlain(q, jobId);
    assert Wellformed(u);
    assert Tail(u) == TracePath(q, jobId);
    ParseCompose(u);
  }

  // ---------------------------------------------------------------------------
  // The output directory
  // ---------------------------------------------------------------------------

  /** Without `--output`: the CSV's directory joined with the CSV's stem. */
  function DefaultOutputDir(csvName: string): Path {
    var csv := Parse(csvName);
    Join(Parent(csv), Stem(Name(csv)))
  }

  /** The output directory: `--output` when given, otherwise the default. */
  function OutputDir(output: Option<Path>, csvName: string): (outdir: Path)
    ensures output.Some? ==> outdir == output.value
  {
    if output.Some? then output.value else DefaultOutputDir(csvName)
  }

  /** The default output directory sits beside the CSV and is named after the CSV's stem. */
  lemma DefaultOutputDirBeside(csvName: string)
    requires Parse(csvName).parts != [] && Stem(Name(Parse(csvName))) != "."
    ensures Parent(DefaultOutputDir(csvName)) == Parent(Parse(csvName))
    ensures Name(DefaultOutputDir(csvName)) == Stem(Name(Parse(csvName)))
  {
    var csv := Parse(csvName);
    var name := Name(csv);
    ParseNormal(csvName);
    assert IsPart(name);
    StemIsPart(name);
    JoinPart(Parent(csv), Stem(name));
  }

  /** The stem of a part is a part, unless it is `.` (the stem of a name like `..csv`). */
  lemma StemIsPart(name: string)
    requires IsPart(name) && Stem(name) != "."
    ensures IsPart(Stem(name))
  {
    StemSuffix(name);
    if HasSuffix(name) {
      assert Stem(name) == name[..LastDot(name)];
      assert forall c :: c in Stem(name) ==> c in name;
    }
  }

  /** A CSV whose stem is `.`, such as `..csv`, has its traces saved in its own directory. */
  lemma DefaultOutputDirDotStem(csvName: string)
    requires Stem(Name(Parse(csvName))) == "."
    ensures DefaultOutputDir(csvName) == Parent(Parse(csvName))
  {
    JoinNothing(Parent(Parse(csvName)), ".");
  }

  // ---------------------------------------------------------------------------
  // Picking the jobs to download
  // ---------------------------------------------------------------------------

  /** Whether the name matches at least one of the `--jobs` globs. */
  predicate AnyMatch(name: string, patterns: seq<string>) {
    exists k :: 0 <= k < |patterns| && Match(patterns[k], name)
  }

  /** `--jobs` left out: argparse keeps the default string `"*"`, which iterates as the one pattern `*`. */
  const DefaultPatterns: seq<string> := ["*"]

  function NameFilter(patterns: seq<string>): Job -> bool {
    (j: Job) => AnyMatch(j.name, patterns)
  }

  /** `existing` is the set of files already present. */
  function NotDownloaded(outdir: Path, existing: set<Path>): Job -> bool {
    (j: Job) => TraceFile(outdir, j.jobId) !in existing
  }

  predicate IsFailed(j: Job) {
    j.status == "failed"
  }

  /** The three filters of `main`, applied one after the other. */
  function SelectJobs(jobs: seq<Job>, patterns: seq<string>, outdir: Path, existing: set<Path>): seq<Job> {
    Filter(Filter(Filter(jobs, NameFilter(patterns)), NotDownloaded(outdir, existing)), IsFailed)
  }

  /** Whether a job passes all three filters. */
  predicate Selected(j: Job, patterns: seq<string>, outdir: Path, existing: set<Path>) {
    AnyMatch(j.name, patterns) && TraceFile(outdir, j.jobId) !in existing && j.status == "failed"
  }

  function SelectedFilter(patterns: seq<string>, outdir: Path, existing: set<Path>): Job -> bool {
    (j: Job) => Selected(j, patterns, outdir, existing)
  }

  /** The filter chain is one order-preserving filter by the conjunction of the three tests. */
  lemma SelectJobsIsOneFilter(jobs: seq<Job>, patterns: seq<string>, outdir: Path, existing: set<Path>)
    ensures SelectJobs(jobs, patterns, outdir, existing) == Filter(jobs, SelectedFilter(patterns, outdir, existing))
  {
    var first := NameFilter(patterns);
    var second := NotDownloaded(outdir, existing);
    var both: Job -> bool := j => first(j) && second(j);
    FilterTwice(jobs, first, second, both);
    FilterTwice(jobs, both, IsFailed, SelectedFilter(patterns, outdir, existing));
  }

  /** A job is selected exactly when it is in the CSV and passes all three tests. */
  lemma SelectJobsMembers(jobs: seq<Job>, patterns: seq<string>, outdir: Path, existing: set<Path>, j: Job)
    ensures j in SelectJobs(jobs, patterns, outdir, existing) <==> j in jobs && Selected(j, patterns, outdir, existing)
  {
    SelectJobsIsOneFilter(jobs, patterns, outdir, existing);
    FilterMembers(jobs, SelectedFilter(patterns, outdir, existing), j);
  }

  /** Selection keeps the CSV's order: selecting from two runs of rows is selecting from each in turn. */
  lemma SelectJobsConcat(a: seq<Job>, b: seq<Job>, patterns: seq<string>, outdir: Path, existing: set<Path>)
    ensures SelectJobs(a + b, patterns, outdir, existing)
      == SelectJobs(a, patterns, outdir, existing) + SelectJobs(b, patterns, outdir, existing)
  {
    SelectJobsIsOneFilter(a + b, patterns, outdir, existing);
    SelectJobsIsOneFilter(a, patterns, outdir, existing);
    SelectJobsIsOneFilter(b, patterns, outdir, existing);
    FilterConcat(a, b, SelectedFilter(patterns, outdir, existing));
  }

  /** With the default pattern the name filter keeps every job. */
  lemma DefaultPatternsKeepAll(jobs: seq<Job>)
    ensures Filter(jobs, NameFilter(DefaultPatterns)) == jobs
  {
    forall k | 0 <= k < |jobs| ensures NameFilter(DefaultPatterns)(jobs[k]) {
      MatchStar(jobs[k].name);
      assert Match(DefaultPatterns[0], jobs[k].name);
    }
    FilterAll(jobs, NameFilter(DefaultPatterns));
  }

  /** `--jobs` given with no pattern selects nothing: `any` over no patterns is false. */
  lemma NoPatternsSelectNothing(jobs: seq<Job>, outdir: Path, existing: set<Path>)
    ensures SelectJobs(jobs, [], outdir, existing) == []
  {
    forall j | j in SelectJobs(jobs, [], outdir, existing) ensures false {
      SelectJobsMembers(jobs, [], outdir, existing, j);
    }
  }
}
