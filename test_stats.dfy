/**
 * `teststats.py`: scrape failing-test names out of job output files and count,
 * for each test, the files it failed in.
 *
 * A compiled pattern is abstract here: a `Matcher` is what `pattern.match(line)`
 * tells the scraper, `None` when the pattern does not match at the start of the
 * line and otherwise `match.groups()`, each group `None` when it did not take
 * part in the match. A test name is therefore a `Group`.
 */
module TestStats {
  import opened Wrappers
  import Text
  import Ansi

  type Group = Option<string>

  type Matcher = string -> Option<seq<Group>>

  /** A job output file: its name and its lines. */
  datatype InputFile = InputFile(name: string, lines: seq<string>)

  /** A line as the patterns see it: ANSI sequences removed, then whitespace stripped. */
  function Clean(line: string): (r: string)
    ensures |r| <= |line|
  {
    Text.Strip(Ansi.StripCodes(line))
  }

  // ---------------------------------------------------------------------------
  // What one file yields
  // ---------------------------------------------------------------------------

  /** The test name one match contributes: its last group, and nothing when it has no groups. */
  function Contribution(m: Option<seq<Group>>): (r: set<Group>)
    ensures forall x :: x in r <==> m.Some? && m.value != [] && m.value[|m.value| - 1] == x
  {
    if m.Some? && m.value != [] then {m.value[|m.value| - 1]} else {}
  }

  /** Whether pattern `p` matches the cleaned `text` with at least one group, the last one being `x`. */
  predicate Yields(p: Matcher, text: string, x: Group) {
    x in Contribution(p(text))
  }

  /** The names the patterns, tried in order, find in one cleaned line. */
  function LineNames(text: string, patterns: seq<Matcher>): set<Group>
    decreases |patterns|
  {
    if patterns == [] then {}
    else LineNames(text, patterns[..|patterns| - 1]) + Contribution(patterns[|patterns| - 1](text))
  }

  /** The names found in a sequence of cleaned lines. */
  function TextNames(texts: seq<string>, patterns: seq<Matcher>): set<Group>
    decreases |texts|
  {
    if texts == [] then {}
    else TextNames(texts[..|texts| - 1], patterns) + LineNames(texts[|texts| - 1], patterns)
  }

  /** The names found in the lines of one file, each line cleaned first. */
  function FileNames(lines: seq<string>, patterns: seq<Matcher>): set<Group> {
    TextNames(Text.Map(lines, Clean), patterns)
  }

  /** Trying one more pattern adds what it contributes. */
  lemma LineNamesSnoc(text: string, patterns: seq<Matcher>, k: nat)
    requires k < |patterns|
    ensures LineNames(text, patterns[..k + 1]) == LineNames(text, patterns[..k]) + Contribution(patterns[k](text))
  {
    assert patterns[..k + 1][..k] == patterns[..k];
  }

  /** Scanning one more line adds what the patterns find in it, cleaned. */
  lemma FileNamesSnoc(lines: seq<string>, patterns: seq<Matcher>, i: nat)
    requires i < |lines|
    ensures FileNames(lines[..i + 1], patterns) == FileNames(lines[..i], patterns) + LineNames(Clean(lines[i]), patterns)
  {
    Text.MapSnoc(lines, i, Clean);
  }

  /** A name is found in a line exactly when some pattern yields it there. */
  lemma {:induction false} LineNamesIff(text: string, patterns: seq<Matcher>, x: Group)
    ensures x in LineNames(text, patterns) <==> exists k :: 0 <= k < |patterns| && Yields(patterns[k], text, x)
    decreases |patterns|
  {
    if patterns != [] {
      var n := |patterns| - 1;
      var front := patterns[..n];
      LineNamesIff(text, front, x);
      if x in LineNames(text, front) {
        var k :| 0 <= k < |front| && Yields(front[k], text, x);
        assert Yields(patterns[k], text, x);
      }
      forall k | 0 <= k < |patterns| && Yields(patterns[k], text, x)
        ensures x in LineNames(text, patterns)
      {
        if k < n {
          assert Yields(front[k], text, x);
        }
      }
    }
  }

  /** A name is found in a sequence of cleaned lines exactly when some pattern yields it in one of them. */
  lemma {:induction false} TextNamesIff(texts: seq<string>, patterns: seq<Matcher>, x: Group)
    ensures x in TextNames(texts, patterns) <==>
      exists i, k :: 0 <= i < |texts| && 0 <= k < |patterns| && Yields(patterns[k], texts[i], x)
    decreases |texts|
  {
    if texts != [] {
      var n := |texts| - 1;
      var front := texts[..n];
      TextNamesIff(front, patterns, x);
      LineNamesIff(texts[n], patterns, x);
      if x in TextNames(front, patterns) {
        var i, k :| 0 <= i < |front| && 0 <= k < |patterns| && Yields(patterns[k], front[i], x);
        assert front[i] == texts[i];
      }
      forall i, k | 0 <= i < |texts| && 0 <= k < |patterns| && Yields(patterns[k], texts[i], x)
        ensures x in TextNames(texts, patterns)
      {
        if i < n {
          assert front[i] == texts[i];
        }
      }
    }
  }

  /**
   * A name is in a file's result exactly when some line, cleaned, is matched by
   * some pattern with at least one group, the last of which is the name.
   */
  lemma FileNamesIff(lines: seq<string>, patterns: seq<Matcher>, x: Group)
    ensures x in FileNames(lines, patterns) <==>
      exists i, k :: 0 <= i < |lines| && 0 <= k < |patterns| && Yields(patterns[k], Clean(lines[i]), x)
  {
    var texts := Text.Map(lines, Clean);
    TextNamesIff(texts, patterns, x);
    forall i | 0 <= i < |lines|
      ensures texts[i] == Clean(lines[i])
    {
      Text.MapAt(lines, Clean, i);
    }
  }

  /** The result does not depend on the order of the patterns, nor on repeated ones. */
  lemma PatternOrder(lines: seq<string>, ps: seq<Matcher>, qs: seq<Matcher>)
    requires forall k :: 0 <= k < |ps| ==> exists j :: 0 <= j < |qs| && qs[j] == ps[k]
    requires forall j :: 0 <= j < |qs| ==> exists k :: 0 <= k < |ps| && ps[k] == qs[j]
    ensures FileNames(lines, ps) == FileNames(lines, qs)
  {
    forall x
      ensures x in FileNames(lines, ps) <==> x in FileNames(lines, qs)
    {
      FileNamesIff(lines, ps, x);
      FileNamesIff(lines, qs, x);
    }
  }

  /** A pattern that never has a group adds nothing, wherever it matches. */
  lemma GrouplessPattern(lines: seq<string>, ps: seq<Matcher>, p: Matcher)
    requires forall line :: p(line) == None || p(line) == Some([])
    ensures FileNames(lines, ps + [p]) == FileNames(lines, ps)
  {
    var qs := ps + [p];
    forall x
      ensures x in FileNames(lines, qs) <==> x in FileNames(lines, ps)
    {
      FileNamesIff(lines, ps, x);
      FileNamesIff(lines, qs, x);
      assert forall k :: 0 <= k < |ps| ==> qs[k] == ps[k];
    }
  }

  /** `list(results)`: the elements of a set, each once, in an order the set chooses. */
  method ListOf(s: set<Group>) returns (xs: seq<Group>)
    ensures forall i, j :: 0 <= i < j < |xs| ==> xs[i] != xs[j]
    ensures forall x :: x in xs <==> x in s
    ensures |xs| == |s|
  {
    xs := [];
    var rest := s;
    while rest != {}
      invariant rest <= s
      invariant forall x :: x in s <==> x in xs || x in rest
      invariant forall x :: x in xs ==> x !in rest
      invariant forall i, j :: 0 <= i < j < |xs| ==> xs[i] != xs[j]
      invariant |xs| + |rest| == |s|
      decreases |rest|
    {
      var x :| x in rest;
      xs := xs + [x];
      rest := rest - {x};
    }
  }

  /** The inner loop of `scrape_file`: each pattern that matches the cleaned line with groups adds its last group. */
  method ScrapeLine(line: string, patterns: seq<Matcher>, found: set<Group>) returns (results: set<Group>)
    ensures results == found + LineNames(line, patterns)
  {
    results := found;
    for k := 0 to |patterns|
      invariant results == found + LineNames(line, patterns[..k])
    {
      var m := patterns[k](line);
      if m.Some? {
        var g := m.value;
        if g != [] {
          results := results + {g[|g| - 1]};
        }
      }
      LineNamesSnoc(line, patterns, k);
    }
    assert patterns[..|patterns|] == patterns;
  }

  /** `scrape_file`: the distinct names the patterns find in the file's lines. */
  method ScrapeFile(lines: seq<string>, patterns: seq<Matcher>) returns (names: seq<Group>)
    ensures forall i, j :: 0 <= i < j < |names| ==> names[i] != names[j]
    ensures forall x :: x in names <==> x in FileNames(lines, patterns)
  {
    var results: set<Group> := {};
    for i := 0 to |lines|
      invariant results == FileNames(lines[..i], patterns)
    {
      var line := Clean(lines[i]);
      results := ScrapeLine(line, patterns, results);
      FileNamesSnoc(lines, patterns, i);
    }
    assert lines[..|lines|] == lines;
    names := ListOf(results);
  }

  // ---------------------------------------------------------------------------
  // Counting over the files
  // ---------------------------------------------------------------------------

  /** The test "file `f` holds test `t`": `t` is among the names found in `f`. */
  function Holds(patterns: seq<Matcher>, t: Group): InputFile -> bool {
    (f: InputFile) => t in FileNames(f.lines, patterns)
  }

  /** The number of files that hold a test. */
  function Count(files: seq<InputFile>, holds: InputFile -> bool): (n: nat)
    ensures n <= |files|
    decreases |files|
  {
    if files == [] then 0
    else Count(files[..|files| - 1], holds) + (if holds(files[|files| - 1]) then 1 else 0)
  }

  /** The names of the files that hold a test, in input order. */
  function FilesWith(files: seq<InputFile>, holds: InputFile -> bool): seq<string>
    decreases |files|
  {
    if files == [] then []
    else FilesWith(files[..|files| - 1], holds) + (if holds(files[|files| - 1]) then [files[|files| - 1].name] else [])
  }

  /** `counter[t]`: a `Counter` reads a missing key as 0. */
  function CountOf(counter: map<Group, nat>, t: Group): nat {
    if t in counter then counter[t] else 0
  }

  /** `file_map[t]`: a `defaultdict(list)` reads a missing key as the empty list. */
  function FilesOf(fileMap: map<Group, seq<string>>, t: Group): seq<string> {
    if t in fileMap then fileMap[t] else []
  }

  /** Counting and listing work file by file, so they distribute over concatenation and keep input order. */
  lemma {:induction false} CountConcat(a: seq<InputFile>, b: seq<InputFile>, holds: InputFile -> bool)
    ensures Count(a + b, holds) == Count(a, holds) + Count(b, holds)
    ensures FilesWith(a + b, holds) == FilesWith(a, holds) + FilesWith(b, holds)
    decreases |b|
  {
    if b == [] {
      assert a + b == a;
    } else {
      var front := b[..|b| - 1];
      CountConcat(a, front, holds);
      assert (a + b)[..|a + b| - 1] == a + front;
      assert (a + b)[|a + b| - 1] == b[|b| - 1];
    }
  }

  /** A test's file list holds one name per file it failed in: its length is the count. */
  lemma {:induction false} FilesWithCount(files: seq<InputFile>, holds: InputFile -> bool)
    ensures |FilesWith(files, holds)| == Count(files, holds)
    decreases |files|
  {
    if files != [] {
      FilesWithCount(files[..|files| - 1], holds);
    }
  }

  /** One more file adds one to the count and its name to the list exactly when it holds the test. */
  lemma CountSnoc(files: seq<InputFile>, holds: InputFile -> bool, i: nat)
    requires i < |files|
    ensures Count(files[..i + 1], holds) == Count(files[..i], holds) + (if holds(files[i]) then 1 else 0)
    ensures FilesWith(files[..i + 1], holds) == FilesWith(files[..i], holds) + (if holds(files[i]) then [files[i].name] else [])
  {
    assert files[..i + 1][..i] == files[..i];
  }

  /** A name is in a test's file list exactly when some file of that name holds the test. */
  lemma {:induction false} FilesWithMembers(files: seq<InputFile>, holds: InputFile -> bool, x: string)
    ensures x in FilesWith(files, holds) <==> exists i :: 0 <= i < |files| && files[i].name == x && holds(files[i])
    decreases |files|
  {
    if files != [] {
      var n := |files| - 1;
      var front := files[..n];
      FilesWithMembers(front, holds, x);
      if x in FilesWith(front, holds) {
        var i :| 0 <= i < |front| && front[i].name == x && holds(front[i]);
        assert files[i] == front[i];
      }
      forall i | 0 <= i < |files| && files[i].name == x && holds(files[i])
        ensures x in FilesWith(files, holds)
      {
        if i < n {
          assert front[i] == files[i];
        }
      }
    }
  }

  /** The count is the number of files a filter on the same test keeps. */
  lemma {:induction false} CountIsFilter(files: seq<InputFile>, holds: InputFile -> bool)
    ensures Count(files, holds) == |Text.Filter(files, holds)|
    decreases |files|
  {
    if files != [] {
      var front := files[..|files| - 1];
      var last := files[|files| - 1];
      CountIsFilter(front, holds);
      assert files == front + [last];
      Text.FilterConcat(front, [last], holds);
      assert Text.Filter([last], holds) == (if holds(last) then [last] else []) + Text.Filter([], holds);
    }
  }

  /** A file that does not hold the test changes neither its count nor its file list, wherever it is. */
  lemma SkipFile(a: seq<InputFile>, f: InputFile, b: seq<InputFile>, holds: InputFile -> bool)
    requires !holds(f)
    ensures Count(a + [f] + b, holds) == Count(a + b, holds)
    ensures FilesWith(a + [f] + b, holds) == FilesWith(a + b, holds)
  {
    CountConcat(a + [f], b, holds);
    CountConcat(a, [f], holds);
    CountConcat(a, b, holds);
    assert [f][..0] == [];
  }

  /** A file in which no test is found changes neither the counts nor the file lists, wherever it is. */
  lemma EmptyFileIgnored(a: seq<InputFile>, f: InputFile, b: seq<InputFile>, patterns: seq<Matcher>, t: Group)
    requires FileNames(f.lines, patterns) == {}
    ensures Count(a + [f] + b, Holds(patterns, t)) == Count(a + b, Holds(patterns, t))
    ensures FilesWith(a + [f] + b, Holds(patterns, t)) == FilesWith(a + b, Holds(patterns, t))
  {
    SkipFile(a, f, b, Holds(patterns, t));
  }

  /** `n` copies of `name`. */
  function Copies(name: string, n: nat): (r: seq<string>)
    ensures |r| == n
  {
    if n == 0 then [] else Copies(name, n - 1) + [name]
  }

  /** In a list without repetitions every element occurs once. */
  lemma {:induction false} DistinctOnce(xs: seq<Group>, t: Group)
    requires forall i, j :: 0 <= i < j < |xs| ==> xs[i] != xs[j]
    ensures multiset(xs)[t] == if t in xs then 1 else 0
  {
    if xs != [] {
      var front := xs[..|xs| - 1];
      var last := xs[|xs| - 1];
      assert xs == front + [last];
      DistinctOnce(front, t);
      if t == last {
        assert t !in front;
      }
    }
  }

  /** `counter.update(xs)`: each element adds one to its count, a missing key counting as 0. */
  method Update(counter: map<Group, nat>, xs: seq<Group>) returns (r: map<Group, nat>)
    ensures forall t :: CountOf(r, t) == CountOf(counter, t) + multiset(xs)[t]
    ensures forall t :: t in r <==> t in counter || t in xs
  {
    r := counter;
    for j := 0 to |xs|
      invariant forall t :: CountOf(r, t) == CountOf(counter, t) + multiset(xs[..j])[t]
      invariant forall t :: t in r <==> t in counter || t in xs[..j]
    {
      r := r[xs[j] := CountOf(r, xs[j]) + 1];
      assert xs[..j + 1] == xs[..j] + [xs[j]];
    }
    assert xs[..|xs|] == xs;
  }

  /** One more append to the list of `x` adds one more copy of the name there and changes no other list. */
  lemma AppendStep(fileMap: map<Group, seq<string>>, r: map<Group, seq<string>>, seen: multiset<Group>, x: Group, name: string, t: Group)
    requires FilesOf(r, t) == FilesOf(fileMap, t) + Copies(name, seen[t])
    ensures FilesOf(r[x := FilesOf(r, x) + [name]], t) == FilesOf(fileMap, t) + Copies(name, (seen + multiset{x})[t])
  {
    if t == x {
      var c := Copies(name, seen[x]);
      assert Copies(name, seen[x] + 1) == c + [name];
      assert (FilesOf(fileMap, x) + c) + [name] == FilesOf(fileMap, x) + (c + [name]);
    }
  }

  /** `file_map[x].append(name)` for each element `x` of `xs`, a missing key reading as the empty list. */
  method AppendName(fileMap: map<Group, seq<string>>, xs: seq<Group>, name: string) returns (r: map<Group, seq<string>>)
    ensures forall t :: FilesOf(r, t) == FilesOf(fileMap, t) + Copies(name, multiset(xs)[t])
    ensures forall t :: t in r <==> t in fileMap || t in xs
  {
    r := fileMap;
    ghost var seen: multiset<Group> := multiset{};
    for j := 0 to |xs|
      invariant seen == multiset(xs[..j])
      invariant forall t :: FilesOf(r, t) == FilesOf(fileMap, t) + Copies(name, seen[t])
      invariant forall t :: t in r <==> t in fileMap || t in seen
    {
      var x := xs[j];
      forall t
        ensures FilesOf(r[x := FilesOf(r, x) + [name]], t) == FilesOf(fileMap, t) + Copies(name, (seen + multiset{x})[t])
      {
        AppendStep(fileMap, r, seen, x, name, t);
      }
      r := r[x := FilesOf(r, x) + [name]];
      seen := seen + multiset{x};
      assert xs[..j + 1] == xs[..j] + [x];
    }
    assert xs[..|xs|] == xs;
  }

  /**
   * What `main` has after the files `done`: each test's count is the number
   * of those files it failed in, its list names them in order, and every
   * test counted was counted at least once.
   */
  ghost predicate Tallied(counter: map<Group, nat>, fileMap: map<Group, seq<string>>, done: seq<InputFile>, patterns: seq<Matcher>) {
    && (forall t :: CountOf(counter, t) == Count(done, Holds(patterns, t)))
    && (forall t :: FilesOf(fileMap, t) == FilesWith(done, Holds(patterns, t)))
    && (forall t :: t in counter ==> counter[t] > 0)
    && fileMap.Keys == counter.Keys
  }

  /** After one more file, one test's count and file list are those of the longer prefix of the files. */
  lemma TallyStepAt(files: seq<InputFile>, patterns: seq<Matcher>, i: nat, results: seq<Group>,
                    counter0: map<Group, nat>, fileMap0: map<Group, seq<string>>,
                    counter: map<Group, nat>, fileMap: map<Group, seq<string>>, t: Group)
    requires i < |files|
    requires forall a, b :: 0 <= a < b < |results| ==> results[a] != results[b]
    requires t in results <==> t in FileNames(files[i].lines, patterns)
    requires CountOf(counter0, t) == Count(files[..i], Holds(patterns, t))
    requires FilesOf(fileMap0, t) == FilesWith(files[..i], Holds(patterns, t))
    requires CountOf(counter, t) == CountOf(counter0, t) + multiset(results)[t]
    requires FilesOf(fileMap, t) == FilesOf(fileMap0, t) + Copies(files[i].name, multiset(results)[t])
    ensures CountOf(counter, t) == Count(files[..i + 1], Holds(patterns, t))
    ensures FilesOf(fileMap, t) == FilesWith(files[..i + 1], Holds(patterns, t))
  {
    DistinctOnce(results, t);
    CountSnoc(files, Holds(patterns, t), i);
    assert t in results <==> Holds(patterns, t)(files[i]);
  }

  /** Adding one file's distinct names to the counter and the file map keeps them tallied. */
  lemma TallyStep(files: seq<InputFile>, patterns: seq<Matcher>, i: nat, results: seq<Group>,
                  counter0: map<Group, nat>, fileMap0: map<Group, seq<string>>,
                  counter: map<Group, nat>, fileMap: map<Group, seq<string>>)
    requires i < |files|
    requires Tallied(counter0, fileMap0, files[..i], patterns)
    requires forall a, b :: 0 <= a < b < |results| ==> results[a] != results[b]
    requires forall x :: x in results <==> x in FileNames(files[i].lines, patterns)
    requires forall t :: CountOf(counter, t) == CountOf(counter0, t) + multiset(results)[t]
    requires forall t :: t in counter <==> t in counter0 || t in results
    requires forall t :: FilesOf(fileMap, t) == FilesOf(fileMap0, t) + Copies(files[i].name, multiset(results)[t])
    requires forall t :: t in fileMap <==> t in fileMap0 || t in results
    ensures Tallied(counter, fileMap, files[..i + 1], patterns)
  {
    forall t
      ensures CountOf(counter, t) == Count(files[..i + 1], Holds(patterns, t))
      ensures FilesOf(fileMap, t) == FilesWith(files[..i + 1], Holds(patterns, t))
    {
      TallyStepAt(files, patterns, i, results, counter0, fileMap0, counter, fileMap, t);
    }
    forall t | t in counter
      ensures counter[t] > 0
    {
      assert CountOf(counter, t) == counter[t];
      if t in results {
        assert t in multiset(results);
      }
    }
  }

  /**
   * The loop of `main` over the input files: each file's distinct names add
   * one to their count and the file's name to their list, so every test's
   * count is the number of files it failed in and its list names those files
   * in input order.
   */
  method Tally(files: seq<InputFile>, patterns: seq<Matcher>) returns (counter: map<Group, nat>, fileMap: map<Group, seq<string>>)
    ensures forall t :: CountOf(counter, t) == Count(files, Holds(patterns, t))
    ensures forall t :: t in counter ==> counter[t] > 0
    ensures forall t :: FilesOf(fileMap, t) == FilesWith(files, Holds(patterns, t))
    ensures fileMap.Keys == counter.Keys
  {
    counter := map[];
    fileMap := map[];
    for i := 0 to |files|
      invariant Tallied(counter, fileMap, files[..i], patterns)
    {
      var results := ScrapeFile(files[i].lines, patterns);
      ghost var counter0, fileMap0 := counter, fileMap;
      if results != [] {
        counter := Update(counter, results);
        fileMap := AppendName(fileMap, results, files[i].name);
      } else {
        assert forall t :: FilesOf(fileMap, t) + Copies(files[i].name, 0) == FilesOf(fileMap, t);
      }
      TallyStep(files, patterns, i, results, counter0, fileMap0, counter, fileMap);
    }
    assert files[..|files|] == files;
  }

  // ---------------------------------------------------------------------------
  // The report
  // ---------------------------------------------------------------------------

  /** Some key of a non-empty set of counted keys has the largest count. */
  lemma {:induction false} MaxExists(rest: set<Group>, counter: map<Group, nat>)
    requires rest != {} && rest <= counter.Keys
    ensures exists t :: t in rest && forall u :: u in rest ==> counter[u] <= counter[t]
    decreases |rest|
  {
    var x :| x in rest;
    if rest != {x} {
      MaxExists(rest - {x}, counter);
      var t :| t in rest - {x} && forall u :: u in rest - {x} ==> counter[u] <= counter[t];
      if counter[x] > counter[t] {
        assert forall u :: u in rest ==> counter[u] <= counter[x];
      }
    }
  }

  /** No test appears twice in a report. */
  predicate DistinctKeys(report: seq<(Group, nat)>) {
    forall i, j :: 0 <= i < j < |report| ==> report[i].0 != report[j].0
  }

  /** The counts of a report never increase from one entry to a later one. */
  predicate NonIncreasing(report: seq<(Group, nat)>) {
    forall i, j :: 0 <= i < j < |report| ==> report[i].1 >= report[j].1
  }

  /** Every entry of a report is a counted test with its count. */
  predicate Faithful(report: seq<(Group, nat)>, counter: map<Group, nat>) {
    forall i :: 0 <= i < |report| ==> report[i].0 in counter && report[i].1 == counter[report[i].0]
  }

  /** Every test of `keys` has an entry in the report. */
  predicate Lists(report: seq<(Group, nat)>, keys: set<Group>) {
    forall t :: t in keys ==> exists i :: 0 <= i < |report| && report[i].0 == t
  }

  /**
   * Selection so far: the report lists the counted tests not in `rest`, each
   * once, from the most frequent down, and no test left in `rest` was counted
   * more often than any already listed.
   */
  predicate Selecting(counter: map<Group, nat>, report: seq<(Group, nat)>, rest: set<Group>) {
    && rest <= counter.Keys
    && Faithful(report, counter)
    && (forall i :: 0 <= i < |report| ==> report[i].0 !in rest)
    && Lists(report, counter.Keys - rest)
    && DistinctKeys(report)
    && NonIncreasing(report)
    && (forall i, u :: 0 <= i < |report| && u in rest ==> report[i].1 >= counter[u])
    && |report| + |rest| == |counter.Keys|
  }

  /** Moving a test with the largest remaining count from `rest` to the end of the report keeps the selection's invariant. */
  lemma SelectStep(counter: map<Group, nat>, report: seq<(Group, nat)>, rest: set<Group>, t: Group)
    requires Selecting(counter, report, rest)
    requires t in rest && forall u :: u in rest ==> counter[u] <= counter[t]
    ensures Selecting(counter, report + [(t, counter[t])], rest - {t})
  {
    var next := report + [(t, counter[t])];
    var left := rest - {t};
    assert forall i :: 0 <= i < |report| ==> next[i] == report[i];
    assert Faithful(next, counter);
    assert DistinctKeys(next);
    assert NonIncreasing(next);
    forall u | u in counter.Keys - left
      ensures exists i :: 0 <= i < |next| && next[i].0 == u
    {
      if u == t {
        assert next[|report|].0 == u;
      } else {
        assert u in counter.Keys - rest;
        var i :| 0 <= i < |report| && report[i].0 == u;
        assert next[i].0 == u;
      }
    }
  }

  /**
   * `counter.most_common()`: every counted test once, with its count, in
   * non-increasing order of count. Among equal counts the order is left open.
   */
  method MostCommon(counter: map<Group, nat>) returns (report: seq<(Group, nat)>)
    ensures |report| == |counter.Keys|
    ensures Faithful(report, counter)
    ensures Lists(report, counter.Keys)
    ensures DistinctKeys(report)
    ensures NonIncreasing(report)
  {
    report := [];
    var rest := counter.Keys;
    while rest != {}
      invariant Selecting(counter, report, rest)
      decreases |rest|
    {
      MaxExists(rest, counter);
      var t :| t in rest && forall u :: u in rest ==> counter[u] <= counter[t];
      SelectStep(counter, report, rest, t);
      report := report + [(t, counter[t])];
      rest := rest - {t};
    }
    assert counter.Keys - rest == counter.Keys;
  }

  /**
   * `main` without its printing: the counts and file lists of every test
   * found, and the report in which each failing test appears once with the
   * number of files it failed in, the most frequent first.
   */
  method Summarise(files: seq<InputFile>, patterns: seq<Matcher>)
    returns (fileMap: map<Group, seq<string>>, report: seq<(Group, nat)>)
    ensures forall t :: FilesOf(fileMap, t) == FilesWith(files, Holds(patterns, t))
    ensures forall i :: 0 <= i < |report| ==> report[i].1 == Count(files, Holds(patterns, report[i].0)) > 0
    ensures forall t :: Count(files, Holds(patterns, t)) > 0 ==> exists i :: 0 <= i < |report| && report[i].0 == t
    ensures DistinctKeys(report)
    ensures NonIncreasing(report)
  {
    var counter;
    counter, fileMap := Tally(files, patterns);
    report := MostCommon(counter);
    forall i | 0 <= i < |report|
      ensures report[i].1 == Count(files, Holds(patterns, report[i].0)) > 0
    {
      assert CountOf(counter, report[i].0) == Count(files, Holds(patterns, report[i].0));
    }
    forall t | Count(files, Holds(patterns, t)) > 0
      ensures exists i :: 0 <= i < |report| && report[i].0 == t
    {
      assert CountOf(counter, t) > 0;
      assert t in counter.Keys;
    }
  }
}
