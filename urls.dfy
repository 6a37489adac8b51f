/**
 * `urllib.parse.urlparse` as CPython 3.12 implements it, which `get_endpoint`
 * uses to take a job's web URL apart: leading C0 controls and spaces are
 * stripped, tab, CR and LF are removed everywhere, then the scheme, the
 * network location, the fragment, the query and (for the schemes that use
 * them) the `;` parameters are split off in that order.
 *
 * `Compose` is the partner: `ParseCompose` proves that a URL written from
 * simple parts parses back into exactly those parts.
 */
module Urls {
  import opened Wrappers
  import opened Text

  /** The six fields of `urlparse`'s `ParseResult`. */
  datatype ParsedUrl = ParsedUrl(
    scheme: string, netloc: string, path: string, params: string, query: string, fragment: string)

  /** `_WHATWG_C0_CONTROL_OR_SPACE`: the characters `urlsplit` strips from the front. */
  predicate IsC0OrSpace(c: char) {
    c as int <= 0x20
  }

  /** `_UNSAFE_URL_BYTES_TO_REMOVE`: tab, CR and LF, removed wherever they occur. */
  predicate IsUnsafe(c: char) {
    c == '\t' || c == '\r' || c == '\n'
  }

  predicate IsAsciiAlpha(c: char) {
    'A' <= c <= 'Z' || 'a' <= c <= 'z'
  }

  /** `scheme_chars`: ASCII letters, digits and `+-.`. */
  predicate IsSchemeChar(c: char) {
    IsAsciiAlpha(c) || '0' <= c <= '9' || c == '+' || c == '-' || c == '.'
  }

  /** `/`, `?` and `#`: the characters that end the network location. */
  predicate EndsNetloc(c: char) {
    c == '/' || c == '?' || c == '#'
  }

  /** `uses_params`: the schemes whose last path segment may carry `;` parameters. */
  const UsesParams: set<string> := {"", "ftp", "hdl", "prospero", "http", "imap", "https", "shttp",
    "rtsp", "rtsps", "rtspu", "sip", "sips", "mms", "sftp", "tel"}

  function LowerChar(c: char): char {
    if 'A' <= c <= 'Z' then (c as int + 32) as char else c
  }

  /** `str.lower` on ASCII: a scheme holds nothing else. */
  function LowerAscii(s: string): (r: string)
    ensures |r| == |s|
    ensures forall k :: 0 <= k < |s| ==> r[k] == LowerChar(s[k])
  {
    if s == [] then [] else [LowerChar(s[0])] + LowerAscii(s[1..])
  }

  /** A string with no upper-case ASCII letter is its own lower case. */
  lemma LowerAsciiLower(s: string)
    requires forall k :: 0 <= k < |s| ==> !('A' <= s[k] <= 'Z')
    ensures LowerAscii(s) == s
  {
  }

  predicate IsKept(c: char) {
    !IsUnsafe(c)
  }

  /** The URL after the cleaning `urlsplit` starts with. */
  function Clean(url: string): (r: string)
    ensures r == [] || !IsC0OrSpace(r[0])
    ensures forall k :: 0 <= k < |r| ==> !IsUnsafe(r[k])
  {
    Filter(TrimStart(url, IsC0OrSpace), IsKept)
  }

  /** A scheme `urlsplit` accepts: an ASCII letter, then scheme characters. */
  predicate IsScheme(s: string) {
    |s| > 0 && IsAsciiAlpha(s[0]) && forall k :: 0 <= k < |s| ==> IsSchemeChar(s[k])
  }

  /**
   * The scheme and the rest: the text before the first `:` when it is a
   * scheme, lower-cased; otherwise no scheme and the whole URL.
   */
  function SplitScheme(url: string): (r: (string, string))
    ensures r.0 == [] ==> r.1 == url
    ensures r.0 != [] ==>
      (exists i :: 0 < i < |url| && url[i] == ':' && IsScheme(url[..i]) && r.0 == LowerAscii(url[..i]) && r.1 == url[i + 1..])
  {
    var i := FirstIndex(url, ':');
    if 0 < i < |url| && IsScheme(url[..i]) then (LowerAscii(url[..i]), url[i + 1..]) else ([], url)
  }

  /** `_splitnetloc(url, 2)` after the `//`: the network location runs up to the first `/`, `?` or `#`. */
  function SplitNetloc(s: string): (r: (string, string))
    ensures r.0 + r.1 == s
    ensures forall k :: 0 <= k < |r.0| ==> !EndsNetloc(r.0[k])
    ensures r.1 == [] || EndsNetloc(r.1[0])
  {
    var i := FirstWhere(s, EndsNetloc);
    (s[..i], s[i..])
  }

  /** `s.split(c, 1)` when `c` occurs, and `(s, "")` when it does not. */
  function SplitAt(s: string, c: char): (r: (string, string))
    ensures c !in r.0
    ensures c in s ==> s == r.0 + [c] + r.1
    ensures c !in s ==> r == (s, [])
  {
    var i := FirstIndex(s, c);
    if i == |s| then (s, []) else (s[..i], s[i + 1..])
  }

  /** The index of the last `c` in `s`. */
  function LastIndex(s: string, c: char): (i: nat)
    requires c in s
    ensures i < |s| && s[i] == c
    ensures forall k :: i < k < |s| ==> s[k] != c
  {
    if s[|s| - 1] == c then |s| - 1 else LastIndex(s[..|s| - 1], c)
  }

  /** `_splitparams`: the parameters start at the first `;` after the last `/`, if there is one. */
  function SplitParams(path: string): (r: (string, string))
    requires ';' in path
    ensures (r.1 == [] && r.0 == path) || path == r.0 + ";" + r.1
    ensures '/' !in r.1
  {
    var j := if '/' in path then LastIndex(path, '/') else 0;
    var i := j + FirstIndex(path[j..], ';');
    if i == |path| then (path, []) else (path[..i], path[i + 1..])
  }

  /** `urlsplit`: a bracket without its partner in the network location is a `ValueError`. */
  function UrlSplit(url: string): (r: Result<ParsedUrl, string>)
    ensures r.Ok? ==> r.value.params == []
  {
    var (scheme, rest) := SplitScheme(Clean(url));
    SplitAfterScheme(scheme, rest)
  }

  /** The part of `urlsplit` after the scheme is known: network location, fragment, query. */
  function SplitAfterScheme(scheme: string, rest: string): (r: Result<ParsedUrl, string>)
    ensures r.Ok? ==> r.value.scheme == scheme && r.value.params == []
  {
    var (netloc, rest) := if "//" <= rest then SplitNetloc(rest[2..]) else ([], rest);
    if ('[' in netloc) != (']' in netloc) then Err("Invalid IPv6 URL")
    else
      var (rest, fragment) := SplitAt(rest, '#');
      var (path, query) := SplitAt(rest, '?');
      Ok(ParsedUrl(scheme, netloc, path, [], query, fragment))
  }

  /** `urlparse`: `urlsplit`, then the parameters split off the path for the schemes that use them. */
  function UrlParse(url: string): (r: Result<ParsedUrl, string>)
    ensures r.Ok? && r.value.params != [] ==> r.value.scheme in UsesParams
  {
    match UrlSplit(url)
    case Err(e) => Err(e)
    case Ok(u) =>
      if u.scheme in UsesParams && ';' in u.path then
        var (path, params) := SplitParams(u.path);
        Ok(u.(path := path, params := params))
      else Ok(u)
  }

  /** No tab, CR or LF. */
  predicate NoUnsafe(s: string) {
    '\t' !in s && '\r' !in s && '\n' !in s
  }

  /**
   * What every parse result satisfies: a lower-case scheme or none, a network
   * location without `/?#` and with balanced brackets, a path and parameters
   * without `?#`, a query without `#`, and no tab, CR or LF anywhere.
   */
  predicate Wellformed(u: ParsedUrl) {
    && (u.scheme == [] || (IsScheme(u.scheme) && LowerAscii(u.scheme) == u.scheme))
    && '/' !in u.netloc && '?' !in u.netloc && '#' !in u.netloc
    && (('[' in u.netloc) == (']' in u.netloc))
    && '?' !in u.path && '#' !in u.path && '?' !in u.params && '#' !in u.params
    && '#' !in u.query
    && NoUnsafe(u.scheme) && NoUnsafe(u.netloc) && NoUnsafe(u.path)
    && NoUnsafe(u.params) && NoUnsafe(u.query) && NoUnsafe(u.fragment)
  }

  /** The scheme `SplitScheme` finds is lower case, and both parts keep the input free of tab, CR and LF. */
  lemma SchemeParts(s: string)
    requires NoUnsafe(s)
    ensures var (scheme, rest) := SplitScheme(s);
      && (scheme == [] || (IsScheme(scheme) && LowerAscii(scheme) == scheme))
      && NoUnsafe(scheme) && NoUnsafe(rest)
  {
    var (scheme, rest) := SplitScheme(s);
    if scheme != [] {
      var i := FirstIndex(s, ':');
      assert s == s[..i] + [':'] + rest;
      LowerScheme(s[..i]);
    }
  }

  /** Lower-casing a scheme gives a lower-case scheme. */
  lemma LowerScheme(x: string)
    requires IsScheme(x)
    ensures IsScheme(LowerAscii(x)) && LowerAscii(LowerAscii(x)) == LowerAscii(x) && NoUnsafe(LowerAscii(x))
  {
    var y := LowerAscii(x);
    assert forall k :: 0 <= k < |y| ==> IsSchemeChar(y[k]) && !('A' <= y[k] <= 'Z');
    LowerAsciiLower(y);
  }

  lemma SplitAtSafe(s: string, c: char)
    requires NoUnsafe(s)
    ensures NoUnsafe(SplitAt(s, c).0) && NoUnsafe(SplitAt(s, c).1)
  {
  }

  /** The network location `SplitAfterScheme` takes holds none of `/?#`, and neither part gains a tab, CR or LF. */
  lemma NetlocPart(rest: string)
    requires NoUnsafe(rest)
    ensures var (netloc, rest1) := if "//" <= rest then SplitNetloc(rest[2..]) else ([], rest);
      && '/' !in netloc && '?' !in netloc && '#' !in netloc
      && NoUnsafe(netloc) && NoUnsafe(rest1)
  {
    if "//" <= rest {
      var (netloc, rest1) := SplitNetloc(rest[2..]);
      assert rest == rest[..2] + (netloc + rest1);
    }
  }

  /** After the network location: the path holds neither `?` nor `#`, the query no `#`, and no part a tab, CR or LF. */
  lemma TailParts(rest1: string)
    requires NoUnsafe(rest1)
    ensures var (rest2, fragment) := SplitAt(rest1, '#');
      var (path, query) := SplitAt(rest2, '?');
      && '?' !in path && '#' !in path && '#' !in query
      && NoUnsafe(path) && NoUnsafe(query) && NoUnsafe(fragment)
  {
    var (rest2, fragment) := SplitAt(rest1, '#');
    SplitAtSafe(rest1, '#');
    var (path, query) := SplitAt(rest2, '?');
    SplitAtSafe(rest2, '?');
    assert '#' !in rest2;
    if '?' in rest2 {
      assert rest2 == path + ['?'] + query;
    }
  }

  /** What `SplitAfterScheme` returns is well formed when its inputs are. */
  lemma AfterSchemeWellformed(scheme: string, rest: string)
    requires scheme == [] || (IsScheme(scheme) && LowerAscii(scheme) == scheme)
    requires NoUnsafe(scheme) && NoUnsafe(rest)
    ensures SplitAfterScheme(scheme, rest).Ok? ==> Wellformed(SplitAfterScheme(scheme, rest).value)
  {
    var (netloc, rest1) := if "//" <= rest then SplitNetloc(rest[2..]) else ([], rest);
    NetlocPart(rest);
    if ('[' in netloc) == (']' in netloc) {
      var (rest2, fragment) := SplitAt(rest1, '#');
      var (path, query) := SplitAt(rest2, '?');
      TailParts(rest1);
      var u := ParsedUrl(scheme, netloc, path, [], query, fragment);
      assert SplitAfterScheme(scheme, rest) == Ok(u);
      assert Wellformed(u);
    }
  }

  /** Every successful split is well formed. */
  lemma SplitWellformed(url: string)
    ensures UrlSplit(url).Ok? ==> Wellformed(UrlSplit(url).value)
  {
    var c := Clean(url);
    SchemeParts(c);
    var (scheme, rest) := SplitScheme(c);
    AfterSchemeWellformed(scheme, rest);
  }

  /** Splitting the parameters off a well-formed result keeps it well formed. */
  lemma ParamsWellformed(u: ParsedUrl)
    requires Wellformed(u) && u.params == [] && ';' in u.path
    ensures Wellformed(u.(path := SplitParams(u.path).0, params := SplitParams(u.path).1))
  {
  }

  /** Every successful parse is well formed. */
  lemma ParseWellformed(url: string)
    ensures UrlParse(url).Ok? ==> Wellformed(UrlParse(url).value)
  {
    SplitWellformed(url);
    var r := UrlSplit(url);
    if r.Ok? && r.value.scheme in UsesParams && ';' in r.value.path {
      ParamsWellformed(r.value);
    }
  }
  // ---------------------------------------------------------------------------
  // Writing a URL from its parts, and reading it back
  // ---------------------------------------------------------------------------

  /** `scheme://netloc` followed by the path and, when present, `?query` and `#fragment`. */
  function Compose(u: ParsedUrl): string {
    u.scheme + "://" + u.netloc + Tail(u)
  }

  /** What follows the network location: the path, then `?query` and `#fragment` when they are not empty. */
  function Tail(u: ParsedUrl): string {
    BeforeFragment(u) + (if u.fragment == [] then [] else "#" + u.fragment)
  }

  function BeforeFragment(u: ParsedUrl): string {
    u.path + (if u.query == [] then [] else "?" + u.query)
  }

  /**
   * The parts `Compose` can write so that they read back unchanged: a scheme,
   * a path that is empty or absolute and holds no `;`, and no parameters.
   */
  predicate Composable(u: ParsedUrl) {
    Wellformed(u) && u.scheme != [] && u.params == [] && ';' !in u.path
    && (u.path == [] || u.path[0] == '/')
  }

  /** The text after the network location splits at its first `#` into what precedes the fragment and the fragment. */
  lemma FragmentSplits(u: ParsedUrl)
    requires Composable(u)
    ensures SplitAt(Tail(u), '#') == (BeforeFragment(u), u.fragment)
  {
    var t := Tail(u);
    if u.fragment != [] {
      assert t == BeforeFragment(u) + ['#'] + u.fragment;
      FirstIndexOf(BeforeFragment(u), '#', u.fragment);
      assert t[..|BeforeFragment(u)|] == BeforeFragment(u);
      assert t[|BeforeFragment(u)| + 1..] == u.fragment;
    } else {
      assert t == BeforeFragment(u);
      assert '#' !in t;
    }
  }

  /** What precedes the fragment splits at its first `?` into the path and the query. */
  lemma QuerySplits(u: ParsedUrl)
    requires Composable(u)
    ensures SplitAt(BeforeFragment(u), '?') == (u.path, u.query)
  {
    var b := BeforeFragment(u);
    if u.query != [] {
      assert b == u.path + ['?'] + u.query;
      FirstIndexOf(u.path, '?', u.query);
      assert b[..|u.path|] == u.path;
      assert b[|u.path| + 1..] == u.query;
    } else {
      assert b == u.path;
    }
  }

  /** The network location of a composed URL ends where its path, query or fragment begins. */
  lemma NetlocSplits(u: ParsedUrl)
    requires Composable(u)
    ensures SplitNetloc(u.netloc + Tail(u)) == (u.netloc, Tail(u))
  {
    forall k | 0 <= k < |u.netloc| ensures !EndsNetloc(u.netloc[k]) {
      assert u.netloc[k] in u.netloc;
    }
    FirstWhereOf(u.netloc, Tail(u), EndsNetloc);
    assert (u.netloc + Tail(u))[..|u.netloc|] == u.netloc;
  }

  /** The text after `scheme:` reads back as the network location and the rest. */
  lemma AfterSchemeOf(u: ParsedUrl)
    requires Composable(u)
    ensures SplitAfterScheme(u.scheme, "//" + u.netloc + Tail(u)) == Ok(u)
  {
    var rest := "//" + u.netloc + Tail(u);
    assert "//" <= rest && rest[2..] == u.netloc + Tail(u);
    NetlocSplits(u);
    FragmentSplits(u);
    QuerySplits(u);
    assert ParsedUrl(u.scheme, u.netloc, u.path, [], u.query, u.fragment) == u;
  }

  /** A composed URL survives the cleaning untouched. */
  lemma CleanComposed(u: ParsedUrl)
    requires Composable(u)
    ensures Clean(Compose(u)) == Compose(u)
  {
    var s := Compose(u);
    assert s[0] == u.scheme[0];
    assert TrimStart(s, IsC0OrSpace) == s;
    assert NoUnsafe(s);
    forall k | 0 <= k < |s| ensures IsKept(s[k]) {
      assert s[k] in s;
    }
    FilterAll(s, IsKept);
  }

  /** The scheme of a composed URL is found and kept as it is. */
  lemma SchemeOf(u: ParsedUrl)
    requires Composable(u)
    ensures SplitScheme(Compose(u)) == (u.scheme, "//" + u.netloc + Tail(u))
  {
    var s := Compose(u);
    var rest := "//" + u.netloc + Tail(u);
    assert s == u.scheme + [':'] + rest;
    assert ':' !in u.scheme by {
      forall k | 0 <= k < |u.scheme| ensures u.scheme[k] != ':' {
        assert IsSchemeChar(u.scheme[k]);
      }
    }
    FirstIndexOf(u.scheme, ':', rest);
    assert s[..|u.scheme|] == u.scheme;
    assert s[|u.scheme| + 1..] == rest;
  }

  /** Parsing a composed URL gives back its parts: `urlparse` inverts `Compose`. */
  lemma ParseCompose(u: ParsedUrl)
    requires Composable(u)
    ensures UrlParse(Compose(u)) == Ok(u)
  {
    CleanComposed(u);
    SchemeOf(u);
    AfterSchemeOf(u);
  }
}
