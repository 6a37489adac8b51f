/**
 * jobtrace.py: turning the section markers of a GitLab CI job log into Chrome
 * trace events. Every marker becomes one event, in the order the markers
 * appear; the event's time is the marker's unix time relative to the first
 * marker, in microseconds.
 *
 * `Events` is the specification: the event list that the markers `ms` produce,
 * with `StartTime` the value of the `start_time` variable after them.
 * `Convert` is the script's nested loop over lines and matches, proved to
 * produce exactly `Events(Markers(lines))`.
 */
module JobTrace {
  import opened Wrappers
  import opened Text
  import opened SectionMarkers

  /** One trace event: the dictionary the script appends, before it is dumped as JSON. */
  datatype Event = Event(name: string, ph: string, ts: int, pid: int, tid: int)

  /** Per-microsecond factor applied to the elapsed seconds. */
  const MicrosPerSecond: int := 1_000_000

  predicate AllWellFormed(ms: seq<Bracket>) {
    forall k :: 0 <= k < |ms| ==> WellFormed(ms[k])
  }

  /**
   * The marker's unix time: `int()` of its digit group. Every marker that
   * `Scan` reports has an all-digit group (`WellFormed`); other groups read as 0.
   */
  function Stamp(b: Bracket): nat {
    if AllDigits(b.digits) then DecimalValue(b.digits) else 0
  }

  /** Python's `not start_time`: the variable is still `None`, or holds 0. */
  predicate Unset(start: Option<nat>) {
    start == None || start == Some(0)
  }

  /** The value of `start_time` once the markers `ms` have been handled. */
  function StartTime(ms: seq<Bracket>): (start: Option<nat>)
    ensures ms != [] <==> start.Some?
  {
    if ms == [] then None
    else
      var before := StartTime(ms[..|ms| - 1]);
      if Unset(before) then Some(Stamp(ms[|ms| - 1])) else before
  }

  /** The event for marker `b` once `start_time` holds `start`. */
  function EventOf(b: Bracket, start: nat): Event
  {
    Event(b.name, if b.kind == "start" then "B" else "E", (Stamp(b) - start) * MicrosPerSecond, 1, 1)
  }

  /** The events the script emits for the markers `ms`, one per marker. */
  function Events(ms: seq<Bracket>): (es: seq<Event>)
    ensures |es| == |ms|
  {
    if ms == [] then []
    else Events(ms[..|ms| - 1]) + [EventOf(ms[|ms| - 1], StartTime(ms).value)]
  }

  /**
   * Event `k` belongs to marker `k`: it carries the marker's name, it is a
   * begin event (`B`) exactly for `section_start` and an end event (`E`)
   * otherwise, and it is always on process 1, thread 1.
   */
  lemma EventShape(ms: seq<Bracket>, k: nat)
    requires k < |ms|
    ensures Events(ms)[k].name == ms[k].name && Events(ms)[k].pid == 1 && Events(ms)[k].tid == 1
    ensures Events(ms)[k].ph == "B" <==> ms[k].kind == "start"
    ensures Events(ms)[k].ph == "B" || Events(ms)[k].ph == "E"
  {
    EventAt(ms, k);
  }

  /** The markers of a log, line after line and left to right within each line. */
  function Markers(lines: seq<string>): (ms: seq<Bracket>)
    ensures AllWellFormed(ms)
  {
    FlatMapEvery(lines, Scan, WellFormed);
    FlatMap(lines, Scan)
  }

  /** Handling one more marker: `start_time` is set from it exactly when it was unset. */
  lemma StartTimeSnoc(ms: seq<Bracket>, b: Bracket)
    ensures StartTime(ms + [b]) == if Unset(StartTime(ms)) then Some(Stamp(b)) else StartTime(ms)
  {
    assert (ms + [b])[..|ms|] == ms;
  }

  /** Handling one more marker appends exactly its event. */
  lemma EventsSnoc(ms: seq<Bracket>, b: Bracket)
    ensures Events(ms + [b]) == Events(ms) + [EventOf(b, StartTime(ms + [b]).value)]
  {
    assert (ms + [b])[..|ms|] == ms;
  }

  /** `events` and `start_time` as `main` leaves them after the markers `ms`. */
  ghost predicate Handled(ms: seq<Bracket>, events: seq<Event>, start: Option<nat>) {
    events == Events(ms) && start == StartTime(ms)
  }

  /** One more marker `b`, handled as `main` does it, keeps `Handled`. */
  lemma NextEvent(ms: seq<Bracket>, b: Bracket, events: seq<Event>, start: Option<nat>,
                  events': seq<Event>, start': Option<nat>)
    requires Handled(ms, events, start) && AllDigits(b.digits)
    requires start' == if Unset(start) then Some(DecimalValue(b.digits)) else start
    requires events' == events + [Event(b.name, if b.kind == "start" then "B" else "E",
                                        (DecimalValue(b.digits) - start'.value) * MicrosPerSecond, 1, 1)]
    ensures Handled(ms + [b], events', start')
  {
    StartTimeSnoc(ms, b);
    EventsSnoc(ms, b);
  }

  /**
   * The script's `main`: for every line, for every match in it, update
   * `start_time` if it is unset and append the event.
   */
  method Convert(lines: seq<string>) returns (events: seq<Event>)
    ensures events == Events(Markers(lines))
  {
    var startTime: Option<nat> := None;
    events := [];
    var i := 0;
    while i < |lines|
      invariant 0 <= i <= |lines|
      invariant events == Events(Markers(lines[..i]))
      invariant startTime == StartTime(Markers(lines[..i]))
    {
      FlatMapSnoc(lines, i, Scan);
      events, startTime := AddEvents(Markers(lines[..i]), Scan(lines[i]), events, startTime);
      i := i + 1;
    }
    assert lines[..i] == lines;
  }

  /**
   * The inner loop of `main`, over the matches `ms` of one line, after the
   * markers `seen` of the lines before it.
   */
  method AddEvents(ghost seen: seq<Bracket>, ms: seq<Bracket>, events0: seq<Event>, start0: Option<nat>)
    returns (events: seq<Event>, startTime: Option<nat>)
    requires forall k :: 0 <= k < |ms| ==> AllDigits(ms[k].digits)
    requires events0 == Events(seen) && start0 == StartTime(seen)
    ensures events == Events(seen + ms) && startTime == StartTime(seen + ms)
  {
    events, startTime := events0, start0;
    assert seen + ms[..0] == seen;
    var j := 0;
    while j < |ms|
      invariant 0 <= j <= |ms|
      invariant Handled(seen + ms[..j], events, startTime)
    {
      events, startTime := HandleMarker(seen + ms[..j], ms[j], events, startTime);
      SnocSlice(seen, ms, j);
      j := j + 1;
    }
    assert ms[..j] == ms;
  }

  /** The body of the inner loop of `main`: one match `b`, after the markers `seen`. */
  method HandleMarker(ghost seen: seq<Bracket>, b: Bracket, events0: seq<Event>, start0: Option<nat>)
    returns (events: seq<Event>, startTime: Option<nat>)
    requires AllDigits(b.digits) && Handled(seen, events0, start0)
    ensures Handled(seen + [b], events, startTime)
  {
    events, startTime := events0, start0;
    var timestamp := DecimalValue(b.digits);
    if startTime == None || startTime == Some(0) {
      startTime := Some(timestamp);
    }
    var elapsed := timestamp - startTime.value;
    elapsed := elapsed * MicrosPerSecond;
    var marker := if b.kind == "start" then "B" else "E";
    events := events + [Event(b.name, marker, elapsed, 1, 1)];
    NextEvent(seen, b, events0, start0, events, startTime);
  }

  // ---------------------------------------------------------------------------
  // The start time and the timestamps
  // ---------------------------------------------------------------------------

  /** Event `k` is computed from the start time as it stands right after marker `k`. */
  lemma {:induction false} EventAt(ms: seq<Bracket>, k: nat)
    requires k < |ms|
    ensures Events(ms)[k] == EventOf(ms[k], StartTime(ms[..k + 1]).value)
  {
    if k < |ms| - 1 {
      var front := ms[..|ms| - 1];
      EventAt(front, k);
      assert front[..k + 1] == ms[..k + 1];
    } else {
      assert ms[..k + 1] == ms;
    }
  }

  /** While every marker so far has time 0, `start_time` is 0 (or still unset before the first). */
  lemma {:induction false} StartTimeWhileZero(ms: seq<Bracket>)
    requires ms != []
    requires forall k :: 0 <= k < |ms| ==> Stamp(ms[k]) == 0
    ensures StartTime(ms) == Some(0)
  {
    if |ms| > 1 {
      StartTimeWhileZero(ms[..|ms| - 1]);
    }
  }

  /** `start_time` is the time of the first marker whose time is not 0. */
  lemma {:induction false} StartTimeFirstNonZero(ms: seq<Bracket>, j: nat)
    requires j < |ms|
    requires Stamp(ms[j]) != 0
    requires forall k :: 0 <= k < j ==> Stamp(ms[k]) == 0
    ensures StartTime(ms) == Some(Stamp(ms[j]))
  {
    if j < |ms| - 1 {
      StartTimeFirstNonZero(ms[..|ms| - 1], j);
    } else if j > 0 {
      StartTimeWhileZero(ms[..j]);
    }
  }

  /** Once `start_time` holds a non-zero time, later markers never change it. */
  lemma {:induction false} StartTimeStable(ms: seq<Bracket>, more: seq<Bracket>)
    requires StartTime(ms).Some? && StartTime(ms).value != 0
    ensures StartTime(ms + more) == StartTime(ms)
  {
    if more != [] {
      var front, last := more[..|more| - 1], more[|more| - 1];
      StartTimeStable(ms, front);
      assert ms + more == (ms + front) + [last];
      StartTimeSnoc(ms + front, last);
    } else {
      assert ms + more == ms;
    }
  }

  /**
   * When marker `j` is the first with a non-zero time, every event from `j`
   * on is stamped with the whole seconds elapsed since marker `j`, in
   * microseconds; the difference is negative when a later marker carries an
   * earlier time.
   */
  lemma RelativeToFirstNonZero(ms: seq<Bracket>, j: nat, k: nat)
    requires j <= k < |ms|
    requires Stamp(ms[j]) != 0
    requires forall i :: 0 <= i < j ==> Stamp(ms[i]) == 0
    ensures Events(ms)[k].ts == (Stamp(ms[k]) - Stamp(ms[j])) * 1_000_000
  {
    var upto := ms[..k + 1];
    assert upto[j] == ms[j];
    assert forall i :: 0 <= i < j ==> upto[i] == ms[i];
    StartTimeFirstNonZero(upto, j);
    EventAt(ms, k);
  }

  /** Events for markers before the first with a non-zero time all sit at time 0. */
  lemma ZeroWhileUnset(ms: seq<Bracket>, k: nat)
    requires k < |ms|
    requires forall i :: 0 <= i <= k ==> Stamp(ms[i]) == 0
    ensures Events(ms)[k].ts == 0
  {
    EventAt(ms, k);
    StartTimeWhileZero(ms[..k + 1]);
  }

  /** The first event is always at time 0. */
  lemma FirstEventAtZero(ms: seq<Bracket>)
    requires ms != []
    ensures Events(ms)[0].ts == 0
  {
    if Stamp(ms[0]) == 0 {
      ZeroWhileUnset(ms, 0);
    } else {
      RelativeToFirstNonZero(ms, 0, 0);
    }
  }

  /** A log without markers gives an empty event list. */
  lemma NoMarkersNoEvents(lines: seq<string>)
    requires forall k :: 0 <= k < |lines| ==> Scan(lines[k]) == []
    ensures Events(Markers(lines)) == []
  {
    FlatMapEmpty(lines, Scan);
  }

  // ---------------------------------------------------------------------------
  // Lines of a file
  // ---------------------------------------------------------------------------

  /** Iterating over a text file: each line keeps its `\n`; a last line without one is kept too. */
  function FileLines(text: string): (lines: seq<string>)
    ensures forall k :: 0 <= k < |lines| ==> lines[k] != []
    decreases |text|
  {
    if text == [] then []
    else
      var i := FirstIndex(text, '\n');
      if i == |text| then [text] else [text[..i + 1]] + FileLines(text[i + 1..])
  }

  /** The concatenation of a list of strings. */
  function Concat(parts: seq<string>): string {
    if parts == [] then [] else parts[0] + Concat(parts[1..])
  }

  /** The lines of a file, put back together, are the file. */
  lemma {:induction false} FileLinesJoin(text: string)
    ensures Concat(FileLines(text)) == text
    decreases |text|
  {
    if text != [] {
      var i := FirstIndex(text, '\n');
      if i < |text| {
        FileLinesJoin(text[i + 1..]);
        assert text == text[..i + 1] + text[i + 1..];
      }
    }
  }

  /** A trailing line break adds no marker and cuts none short. */
  lemma ScanLineBreak(line: string)
    ensures Scan(line + ['\n']) == Scan(line)
  {
    ScanBarrier(line, '\n', []);
    assert line + ['\n'] + [] == line + ['\n'];
  }

  /**
   * Scanning a log line by line finds exactly the markers that scanning the
   * whole text at once finds: a marker never spans a line break.
   */
  lemma {:induction false} MarkersOfText(text: string)
    ensures Markers(FileLines(text)) == Scan(text)
    decreases |text|
  {
    if text != [] {
      var i := FirstIndex(text, '\n');
      if i == |text| {
        MarkersOfLastLine(text);
      } else {
        MarkersOfText(text[i + 1..]);
        MarkersOfTextStep(text, i);
      }
    }
  }

  /** A text without a line break is one line. */
  lemma MarkersOfLastLine(text: string)
    requires text != [] && FirstIndex(text, '\n') == |text|
    ensures Markers(FileLines(text)) == Scan(text)
  {
    assert FileLines(text) == [text];
    FlatMapOne(text, Scan);
  }

  /** One line of `MarkersOfText`: the first line, through its line break, then the rest. */
  lemma MarkersOfTextStep(text: string, i: nat)
    requires i < |text| && i == FirstIndex(text, '\n')
    requires Markers(FileLines(text[i + 1..])) == Scan(text[i + 1..])
    ensures Markers(FileLines(text)) == Scan(text)
  {
    var line, rest := text[..i], text[i + 1..];
    SplitAround(text, i);
    assert Markers(FileLines(text)) == Scan(text[..i + 1]) + Markers(FileLines(rest)) by {
      FlatMapCons(text[..i + 1], FileLines(rest), Scan);
    }
    assert Scan(text[..i + 1]) == Scan(line) by {
      ScanLineBreak(line);
    }
    assert Scan(text) == Scan(line) + Scan(rest) by {
      ScanBarrier(line, '\n', rest);
    }
  }
}
