/**
 * The section markers that a GitLab CI job log uses to bracket the parts of a
 * job: `section_start:<unix time>:<name>` and `section_end:<unix time>:<name>`.
 * `MatchAt` is a hand-written recogniser for the regular expression
 * `section_(start|end):(\d+):([^\[\s\x00-\x1f]+)` anchored at the start of a
 * string, and `Scan` is `finditer` over one line: it tries every position left
 * to right and resumes after each match.
 */
module SectionMarkers {
  import opened Wrappers
  import opened Text

  /** `[^\[\s\x00-\x1f]`: a character that may appear in a section name. */
  predicate IsNameChar(c: char) {
    c != '[' && !IsSpace(c) && c as int > 0x1f
  }

  predicate AllNameChars(s: string) {
    forall k :: 0 <= k < |s| ==> IsNameChar(s[k])
  }

  /** The three capture groups of one match: the bracket kind, the timestamp digits, the name. */
  datatype Bracket = Bracket(kind: string, digits: string, name: string)

  /** The literal part of a match in front of the timestamp: `section_start:` or `section_end:`. */
  function Head(kind: string): string {
    "section_" + kind + ":"
  }

  /** The part of a match after its head: the timestamp, a colon and the name. */
  function Tail(b: Bracket): string {
    b.digits + ":" + b.name
  }

  /** The text that a match with these groups covers. */
  function Spelling(b: Bracket): string {
    Head(b.kind) + Tail(b)
  }

  /** Groups that the pattern can produce: `start` or `end`, one or more digits, a non-empty name. */
  predicate WellFormed(b: Bracket) {
    && (b.kind == "start" || b.kind == "end")
    && |b.digits| > 0 && AllDigits(b.digits)
    && |b.name| > 0 && AllNameChars(b.name)
  }

  /** The greedy name group cannot be extended: the text `m` ends `s` or a non-name character follows it. */
  predicate Maximal(s: string, m: string) {
    |m| <= |s| && (|m| == |s| || !IsNameChar(s[|m|]))
  }

  /** The length of the longest prefix of `s` whose characters all satisfy `p` (a greedy `+` or `*`). */
  function RunLength(s: string, p: char -> bool): (n: nat)
    ensures n <= |s|
    ensures forall k :: 0 <= k < n ==> p(s[k])
    ensures n == |s| || !p(s[n])
  {
    if s != [] && p(s[0]) then 1 + RunLength(s[1..], p) else 0
  }

  /** A run that cannot be extended has the length `RunLength` computes. */
  lemma {:induction false} RunLengthUnique(s: string, p: char -> bool, m: nat)
    requires m <= |s|
    requires forall k :: 0 <= k < m ==> p(s[k])
    requires m == |s| || !p(s[m])
    ensures RunLength(s, p) == m
  {
    if m > 0 {
      RunLengthUnique(s[1..], p, m - 1);
    }
  }

  // ---------------------------------------------------------------------------
  // The recogniser
  // ---------------------------------------------------------------------------

  /** Which alternative of `(start|end)` the string begins with, colon included; "" when neither. */
  function KindAt(s: string): (kind: string)
    ensures kind == "" || ((kind == "start" || kind == "end") && Head(kind) <= s)
  {
    if Head("start") <= s then "start" else if Head("end") <= s then "end" else ""
  }

  /** The pattern after the head, on the text `t` that follows it: `(\d+):` and the greedy name group. */
  function Groups(kind: string, t: string): (r: Option<Bracket>)
    ensures r.Some? ==> r.value.kind == kind && |r.value.digits| > 0 && AllDigits(r.value.digits)
    ensures r.Some? ==> |r.value.name| > 0 && AllNameChars(r.value.name)
  {
    var d := RunLength(t, IsDigit);
    if d == 0 || d == |t| || t[d] != ':' then None
    else
      var rest := t[d + 1..];
      var n := RunLength(rest, IsNameChar);
      if n == 0 then None else Some(Bracket(kind, t[..d], rest[..n]))
  }

  /** What `Groups` reports is spelled at the start of `t`, and its name group cannot be extended. */
  lemma GroupsSound(kind: string, t: string)
    requires Groups(kind, t).Some?
    ensures Tail(Groups(kind, t).value) <= t && Maximal(t, Tail(Groups(kind, t).value))
  {
    var b := Groups(kind, t).value;
    var d, n := |b.digits|, |b.name|;
    assert Tail(b) == t[..d + 1 + n];
  }

  /**
   * `SECTION_BRACKET.match(s)`: the groups of the match at the start of `s`,
   * if there is one. What it reports is well formed and fits in `s`;
   * `MatchAtSound` and `MatchAtComplete` say exactly which markers it finds.
   */
  function MatchAt(s: string): (r: Option<Bracket>)
    ensures r.Some? ==> WellFormed(r.value) && |Spelling(r.value)| <= |s|
  {
    var kind := KindAt(s);
    if kind == "" then None else Groups(kind, s[|Head(kind)|..])
  }

  /** A reported match is spelled at the start of `s`, and its greedy name cannot be extended. */
  lemma MatchAtSound(s: string)
    requires MatchAt(s).Some?
    ensures Spelling(MatchAt(s).value) <= s && Maximal(s, Spelling(MatchAt(s).value))
  {
    var b := MatchAt(s).value;
    var h := Head(b.kind);
    var t := s[|h|..];
    GroupsSound(b.kind, t);
    PrefixThen(s, h, Tail(b));
    assert |Spelling(b)| < |s| ==> s[|Spelling(b)|] == t[|Tail(b)|];
  }

  /** The alternative `start` is tried first, but `section_end:` never begins with `section_start`. */
  lemma KindAtOf(s: string, kind: string)
    requires (kind == "start" || kind == "end") && Head(kind) <= s
    ensures KindAt(s) == kind
  {
    if kind == "end" {
      assert s[8] == Head(kind)[8] == 'e' != Head("start")[8];
    }
  }

  /** `Groups` finds every well-formed, maximal tail at the start of `t`. */
  lemma GroupsComplete(t: string, b: Bracket)
    requires WellFormed(b) && Tail(b) <= t && Maximal(t, Tail(b))
    ensures Groups(b.kind, t) == Some(b)
  {
    var d, n := |b.digits|, |b.name|;
    assert t[..d] == b.digits && t[d] == ':' && t[d + 1..][..n] == b.name by {
      PrefixParts(t, b.digits + ":", b.name);
      PrefixParts(t, b.digits, ":");
    }
    var u := t[d + 1..];
    assert RunLength(t, IsDigit) == d by {
      RunLengthUnique(t, IsDigit, d);
    }
    assert RunLength(u, IsNameChar) == n by {
      assert n < |u| ==> u[n] == t[|Tail(b)|];
      RunLengthUnique(u, IsNameChar, n);
    }
    GroupsOf(b.kind, t, d, n);
    assert Bracket(b.kind, t[..d], u[..n]) == b;
  }

  /** `Groups` reads the digit group and the name group where its two runs stand. */
  lemma GroupsOf(kind: string, t: string, d: nat, n: nat)
    requires 0 < d < |t| && t[d] == ':' && RunLength(t, IsDigit) == d
    requires 0 < n && RunLength(t[d + 1..], IsNameChar) == n
    ensures Groups(kind, t) == Some(Bracket(kind, t[..d], t[d + 1..][..n]))
  {
  }

  /** The converse of `MatchAtSound`: every well-formed, maximal marker at the start of `s` is found. */
  lemma MatchAtComplete(s: string, b: Bracket)
    requires WellFormed(b) && Spelling(b) <= s && Maximal(s, Spelling(b))
    ensures MatchAt(s) == Some(b)
  {
    var h := Head(b.kind);
    PrefixParts(s, h, Tail(b));
    KindAtOf(s, b.kind);
    var t := s[|h|..];
    assert Tail(b) <= t;
    assert |Spelling(b)| < |s| ==> t[|Tail(b)|] == s[|Spelling(b)|];
    GroupsComplete(t, b);
  }

  /** Every character a marker covers is itself a name character. */
  lemma SpellingIsNameChars(b: Bracket)
    requires WellFormed(b)
    ensures AllNameChars(Spelling(b))
  {
    var h := Head(b.kind);
    assert AllNameChars(h) by {
      forall k | 0 <= k < |h| ensures IsNameChar(h[k]) {
        assert h[k] in "section_startend:";
      }
    }
    var tl := Tail(b);
    assert AllNameChars(tl) by {
      var d := |b.digits|;
      forall k | 0 <= k < |tl| ensures IsNameChar(tl[k]) {
        if k < d {
          assert tl[k] == b.digits[k];
        } else if k > d {
          assert tl[k] == b.name[k - d - 1];
        }
      }
    }
    assert forall k :: 0 <= k < |h| ==> Spelling(b)[k] == h[k];
    assert forall k :: |h| <= k < |Spelling(b)| ==> Spelling(b)[k] == tl[k - |h|];
  }

  /**
   * A character that no marker can contain (a line break, `[`, any whitespace
   * or control character) cuts the string: what matches at the start of
   * `a + [c] + rest` is what matches at the start of `a`.
   */
  lemma MatchAtBarrier(a: string, c: char, rest: string)
    requires !IsNameChar(c)
    ensures MatchAt(a + [c] + rest) == MatchAt(a)
  {
    if MatchAt(a + [c] + rest).Some? {
      MarkerBeforeBarrier(a, c, rest);
    } else if MatchAt(a).Some? {
      MarkerKeptByBarrier(a, c, rest);
    }
  }

  /** A marker found in front of a barrier character lies wholly before it. */
  lemma MarkerBeforeBarrier(a: string, c: char, rest: string)
    requires !IsNameChar(c) && MatchAt(a + [c] + rest).Some?
    ensures MatchAt(a) == MatchAt(a + [c] + rest)
  {
    var t := a + [c] + rest;
    var m := MatchAt(t).value;
    var sp := Spelling(m);
    MatchAtSound(t);
    SpellingIsNameChars(m);
    NameCharsStopAtBarrier(a, c, rest, sp);
    MatchAtComplete(a, m);
  }

  /** A prefix of `a + [c] + rest` made of name characters stops before the barrier `c`. */
  lemma NameCharsStopAtBarrier(a: string, c: char, rest: string, sp: string)
    requires !IsNameChar(c) && sp <= a + [c] + rest
    requires forall k :: 0 <= k < |sp| ==> IsNameChar(sp[k])
    ensures sp <= a
    ensures |sp| < |a| ==> a[|sp|] == (a + [c] + rest)[|sp|]
  {
    var t := a + [c] + rest;
    assert t[|a|] == c;
    assert |sp| <= |a|;
    assert forall k :: 0 <= k < |sp| ==> sp[k] == t[k] == a[k];
  }

  /** A marker at the start of `a` is still found, and still ends where it did, once a barrier follows `a`. */
  lemma MarkerKeptByBarrier(a: string, c: char, rest: string)
    requires !IsNameChar(c) && MatchAt(a).Some?
    ensures MatchAt(a + [c] + rest) == MatchAt(a)
  {
    var t := a + [c] + rest;
    var m := MatchAt(a).value;
    var sp := Spelling(m);
    MatchAtSound(a);
    assert sp <= t;
    assert |sp| < |t| ==> !IsNameChar(t[|sp|]) by {
      if |sp| == |a| {
        assert t[|sp|] == c;
      } else {
        assert t[|sp|] == a[|sp|];
      }
    }
    MatchAtComplete(t, m);
  }

  // ---------------------------------------------------------------------------
  // Scanning a line
  // ---------------------------------------------------------------------------

  /** `finditer` on one string: every non-overlapping match, left to right. */
  function Scan(s: string): (ms: seq<Bracket>)
    ensures forall k :: 0 <= k < |ms| ==> WellFormed(ms[k])
    decreases |s|
  {
    if s == [] then []
    else
      match MatchAt(s)
      case Some(b) => [b] + Scan(s[|Spelling(b)|..])
      case None => Scan(s[1..])
  }

  /** Position `k` of `s` begins with the literal `section_` every marker starts with. */
  predicate SectionAt(s: string, k: nat) {
    k <= |s| && "section_" <= s[k..]
  }

  /** Text in which `section_` never occurs holds no marker. */
  lemma {:induction false} ScanWithoutSection(s: string)
    requires forall k: nat :: !SectionAt(s, k)
    ensures Scan(s) == []
    decreases |s|
  {
    if s != [] {
      assert !SectionAt(s, 0);
      assert MatchAt(s) == None;
      forall k: nat ensures !SectionAt(s[1..], k) {
        assert !SectionAt(s, k + 1);
        if k <= |s[1..]| {
          assert s[1..][k..] == s[k + 1..];
        }
      }
      ScanWithoutSection(s[1..]);
    }
  }

  /** `Scan` of a string that starts with a marker: the marker, then the scan of what follows it. */
  lemma ScanAtMatch(s: string)
    requires MatchAt(s).Some?
    ensures Scan(s) == [MatchAt(s).value] + Scan(s[|Spelling(MatchAt(s).value)|..])
  {
  }

  /** One step of `ScanBarrier` when a marker starts `a`. */
  lemma ScanBarrierStep(a: string, c: char, rest: string, k: nat)
    requires !IsNameChar(c) && MatchAt(a).Some?
    requires k == |Spelling(MatchAt(a).value)|
    requires Scan(a[k..] + [c] + rest) == Scan(a[k..]) + Scan(rest)
    ensures Scan(a + [c] + rest) == Scan(a) + Scan(rest)
  {
    var t := a + [c] + rest;
    var b := MatchAt(a).value;
    assert Scan(t) == [b] + Scan(t[k..]) by {
      MatchAtBarrier(a, c, rest);
      ScanAtMatch(t);
    }
    assert t[k..] == a[k..] + [c] + rest by {
      DropFront(a, [c], rest, k);
    }
    assert Scan(a) == [b] + Scan(a[k..]) by {
      ScanAtMatch(a);
    }
    ConsAppend(Scan(t), Scan(t[k..]), Scan(a), b, Scan(a[k..]), Scan(rest));
  }

  /** One step of `ScanBarrier` when no marker starts `a`. */
  lemma ScanBarrierSkip(a: string, c: char, rest: string)
    requires !IsNameChar(c) && a != [] && MatchAt(a).None?
    requires Scan(a[1..] + [c] + rest) == Scan(a[1..]) + Scan(rest)
    ensures Scan(a + [c] + rest) == Scan(a) + Scan(rest)
  {
    var t := a + [c] + rest;
    MatchAtBarrier(a, c, rest);
    DropFront(a, [c], rest, 1);
  }

  /**
   * Scanning stops at a barrier character: the markers of `a + [c] + rest` are
   * those of `a` followed by those of `rest`. With `c` a line break this says
   * that scanning a log line by line finds what scanning it whole finds.
   */
  lemma {:induction false} ScanBarrier(a: string, c: char, rest: string)
    requires !IsNameChar(c)
    ensures Scan(a + [c] + rest) == Scan(a) + Scan(rest)
    decreases |a|
  {
    if a == [] {
      MatchAtBarrier(a, c, rest);
      assert (a + [c] + rest)[1..] == rest;
    } else if MatchAt(a).Some? {
      var k := |Spelling(MatchAt(a).value)|;
      ScanBarrier(a[k..], c, rest);
      ScanBarrierStep(a, c, rest, k);
    } else {
      ScanBarrier(a[1..], c, rest);
      ScanBarrierSkip(a, c, rest);
    }
  }
}
