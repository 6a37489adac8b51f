/**
 * The part of `pathlib.PurePosixPath` that `joboutput.py` relies on: parsing a
 * path string, `parent`, `name`, `stem`, and joining with `/`. A path is its
 * root (`""`, `"/"` or, by the POSIX rule that exactly two leading slashes are
 * kept, `"//"`) and its parts, with empty parts and `.` dropped.
 */
module Paths {
  import opened Text

  datatype Path = Path(root: string, parts: seq<string>)

  /** A part as `PurePosixPath` keeps it: not empty, not `.`, no separator. */
  predicate IsPart(x: string) {
    x != [] && x != "." && '/' !in x
  }

  /** What parsing can produce: one of the three roots, and parts only. */
  predicate Normal(p: Path) {
    (p.root == [] || p.root == "/" || p.root == "//")
    && forall k :: 0 <= k < |p.parts| ==> IsPart(p.parts[k])
  }

  /** The test parsing keeps a piece of the split path by. */
  predicate KeepPiece(x: string) {
    x != [] && x != "."
  }

  /** A path string that starts at the root. */
  predicate IsAbsolute(s: string) {
    s != [] && s[0] == '/'
  }

  /** `posixpath.splitroot`: one or three or more leading slashes are the root `/`, exactly two are `//`. */
  function SplitRoot(s: string): (r: (string, string))
    ensures r.0 + r.1 == s
    ensures r.0 == [] || r.0 == "/" || r.0 == "//"
  {
    if !IsAbsolute(s) then ([], s)
    else if |s| < 2 || s[1] != '/' || (|s| > 2 && s[2] == '/') then ("/", s[1..])
    else ("//", s[2..])
  }

  /** Parsing a path string: the root, then the pieces between slashes that are neither empty nor `.`. */
  function Parse(s: string): Path {
    var (root, rel) := SplitRoot(s);
    Path(root, Filter(SplitOn(rel, '/'), KeepPiece))
  }

  /** Every parse result is normal: a root, then non-empty parts other than `.` with no slash. */
  lemma ParseNormal(s: string)
    ensures Normal(Parse(s))
  {
    var (root, rel) := SplitRoot(s);
    var pieces := SplitOn(rel, '/');
    var parts := Filter(pieces, KeepPiece);
    forall k | 0 <= k < |parts| ensures IsPart(parts[k]) {
      FilterMembers(pieces, KeepPiece, parts[k]);
    }
  }

  /** `str(path)`: the root and the parts joined by `/`, or `.` for the empty relative path. */
  function Format(p: Path): string {
    if p.root == [] && p.parts == [] then "." else p.root + JoinWith("/", p.parts)
  }

  /** `path.parent`: the last part dropped; a path without parts is its own parent. */
  function Parent(p: Path): (q: Path)
    ensures q.root == p.root && q.parts <= p.parts
    ensures p.parts != [] ==> |q.parts| == |p.parts| - 1
  {
    if p.parts == [] then p else Path(p.root, p.parts[..|p.parts| - 1])
  }

  /** `path.name`: the last part, or `""` when there is none. */
  function Name(p: Path): string {
    if p.parts == [] then [] else p.parts[|p.parts| - 1]
  }

  /** The index of the last `.` of `name`, or `|name|` when there is none. */
  function LastDot(name: string): (i: nat)
    ensures i <= |name|
    ensures i < |name| ==> name[i] == '.'
    ensures forall k :: i < k < |name| ==> name[k] != '.'
    ensures i == |name| ==> '.' !in name
  {
    if name == [] then 0
    else if name[|name| - 1] == '.' then |name| - 1
    else
      var i := LastDot(name[..|name| - 1]);
      if i == |name| - 1 then |name| else i
  }

  /** Whether `name` has a suffix: its last `.` is neither its first nor its last character. */
  predicate HasSuffix(name: string) {
    0 < LastDot(name) < |name| - 1
  }

  /** `path.stem`: the name without its suffix. */
  function Stem(name: string): string {
    if HasSuffix(name) then name[..LastDot(name)] else name
  }

  /** `path.suffix`: from the last `.` on, when the name has a suffix. */
  function Suffix(name: string): string {
    if HasSuffix(name) then name[LastDot(name)..] else []
  }

  /** The stem and the suffix make up the name; the suffix is empty or a `.` followed by no `.`. */
  lemma StemSuffix(name: string)
    ensures Stem(name) + Suffix(name) == name
    ensures Suffix(name) == [] || (|Suffix(name)| >= 2 && Suffix(name)[0] == '.' && '.' !in Suffix(name)[1..])
  {
    if HasSuffix(name) {
      var i := LastDot(name);
      assert name == name[..i] + name[i..];
      assert forall k :: 0 <= k < |name[i..][1..]| ==> name[i..][1..][k] == name[i + 1 + k];
    }
  }

  /**
   * `path / s`: an absolute `s` replaces the path; otherwise the parts of `s`
   * are appended to those of the path.
   */
  function Join(p: Path, s: string): (q: Path)
    ensures !IsAbsolute(s) ==> q.root == p.root && p.parts <= q.parts
  {
    var t := Parse(s);
    if IsAbsolute(s) then t else Path(p.root, p.parts + t.parts)
  }

  /** A single part parses as a relative path holding just that part. */
  lemma ParsePart(x: string)
    requires IsPart(x)
    ensures Parse(x) == Path([], [x])
  {
    assert SplitRoot(x) == ([], x);
    assert FirstIndex(x, '/') == |x|;
    assert SplitOn(x, '/') == [x];
  }

  /** Joining a single part appends it: the result's parent is the path and its name is the part. */
  lemma JoinPart(p: Path, x: string)
    requires IsPart(x)
    ensures Join(p, x) == Path(p.root, p.parts + [x])
    ensures Parent(Join(p, x)) == p && Name(Join(p, x)) == x
  {
    ParsePart(x);
    assert (p.parts + [x])[..|p.parts|] == p.parts;
  }

  /** Joining `""` or `.` leaves the path as it is. */
  lemma JoinNothing(p: Path, x: string)
    requires x == [] || x == "."
    ensures Join(p, x) == p
  {
    assert SplitRoot(x) == ([], x);
    assert FirstIndex(x, '/') == |x|;
    assert SplitOn(x, '/') == [x];
    assert p.parts + [] == p.parts;
  }

  /** The first of several parts joined by `/` starts the joined string. */
  lemma JoinStartsWithFirst(parts: seq<string>)
    requires |parts| > 0 && parts[0] != []
    ensures |JoinWith("/", parts)| > 0 && JoinWith("/", parts)[0] == parts[0][0]
  {
  }

  /** A root followed by text that does not start with a slash splits back into the two. */
  lemma SplitRootOf(root: string, rel: string)
    requires root == [] || root == "/" || root == "//"
    requires !IsAbsolute(rel)
    ensures SplitRoot(root + rel) == (root, rel)
  {
    var s := root + rel;
    if root == "/" {
      assert s[1..] == rel;
    } else if root == "//" {
      assert s[2..] == rel;
    } else {
      assert s == rel;
    }
  }

  /** Parsing a normal path's string gives back the path: `Format` loses nothing. */
  lemma ParseFormat(p: Path)
    requires Normal(p)
    ensures Parse(Format(p)) == p
  {
    var joined := JoinWith("/", p.parts);
    if p.parts == [] {
      assert joined == [];
      if p.root == [] {
        assert SplitRoot(".") == ([], ".");
        assert SplitOn(".", '/') == ["."];
      } else {
        SplitRootOf(p.root, []);
        assert Format(p) == p.root + [];
        assert SplitOn([], '/') == [[]];
      }
    } else {
      JoinStartsWithFirst(p.parts);
      assert p.parts[0][0] in p.parts[0];
      SplitRootOf(p.root, joined);
      JoinSplitRoundTrip(p.parts, '/');
      FilterAll(p.parts, KeepPiece);
    }
  }
}
