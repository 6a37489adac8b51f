/**
 * Character classes and string helpers that the three tools take from Python's
 * standard library: whitespace as `str.isspace` and the regex `\s` class see it,
 * `str.strip`, `int` on a digit string and `str` on a count, `str.split`,
 * `str.join`, and order-preserving filtering of a list.
 */
module Text {

  /** Python's whitespace (`str.isspace`, and `\s` in a `str` regex): the same set of code points. */
  predicate IsSpace(c: char) {
    || c == ' '
    || ('\t' <= c <= '\r')
    || ('\U{1c}' <= c <= '\U{1f}')
    || c == '\U{85}' || c == '\U{a0}' || c == '\U{1680}'
    || ('\U{2000}' <= c <= '\U{200a}')
    || c == '\U{2028}' || c == '\U{2029}' || c == '\U{202f}' || c == '\U{205f}' || c == '\U{3000}'
  }

  predicate IsDigit(c: char) {
    '0' <= c <= '9'
  }

  predicate AllDigits(s: string) {
    forall k :: 0 <= k < |s| ==> IsDigit(s[k])
  }

  function DigitValue(c: char): (d: nat)
    requires IsDigit(c)
    ensures d < 10
  {
    c as int - '0' as int
  }

  function DigitChar(d: nat): (c: char)
    requires d < 10
    ensures IsDigit(c) && DigitValue(c) == d
  {
    ('0' as int + d) as char
  }

  // ---------------------------------------------------------------------------
  // Trimming (`str.strip()` and `str.strip(chars)`)
  // ---------------------------------------------------------------------------

  /** Drops the longest prefix of characters for which `drop` holds. */
  function TrimStart(s: string, drop: char -> bool): (r: string)
    ensures |r| <= |s| && r == s[|s| - |r|..]
    ensures forall k :: 0 <= k < |s| - |r| ==> drop(s[k])
    ensures r == [] || !drop(r[0])
  {
    if s != [] && drop(s[0]) then TrimStart(s[1..], drop) else s
  }

  /** Drops the longest suffix of characters for which `drop` holds. */
  function TrimEnd(s: string, drop: char -> bool): (r: string)
    ensures |r| <= |s| && r == s[..|r|]
    ensures forall k :: |r| <= k < |s| ==> drop(s[k])
    ensures r == [] || !drop(r[|r| - 1])
  {
    if s != [] && drop(s[|s| - 1]) then TrimEnd(s[..|s| - 1], drop) else s
  }

  /**
   * `s.strip(chars)`: what is left once every leading and trailing character
   * in the stripped set is gone; `TrimExact` says which slice of `s` that is.
   */
  function Trim(s: string, drop: char -> bool): (r: string)
    ensures |r| <= |s|
    ensures r == [] || (!drop(r[0]) && !drop(r[|r| - 1]))
  {
    TrimEnd(TrimStart(s, drop), drop)
  }

  /** `TrimStart` stops at the first character it does not drop. */
  lemma {:induction false} TrimStartAt(s: string, drop: char -> bool, i: nat)
    requires i < |s| && !drop(s[i])
    requires forall k :: 0 <= k < i ==> drop(s[k])
    ensures TrimStart(s, drop) == s[i..]
  {
    if i > 0 {
      TrimStartAt(s[1..], drop, i - 1);
      assert s[1..][i - 1..] == s[i..];
    }
  }

  /** `TrimEnd` stops at the last character it does not drop. */
  lemma {:induction false} TrimEndAt(s: string, drop: char -> bool, j: nat)
    requires 0 < j <= |s| && !drop(s[j - 1])
    requires forall k :: j <= k < |s| ==> drop(s[k])
    ensures TrimEnd(s, drop) == s[..j]
  {
    if j < |s| {
      TrimEndAt(s[..|s| - 1], drop, j);
      assert s[..|s| - 1][..j] == s[..j];
    }
  }

  /** The slice `Trim` keeps is the one between the dropped characters around it. */
  lemma TrimExact(s: string, drop: char -> bool, i: nat, j: nat)
    requires i < j <= |s| && !drop(s[i]) && !drop(s[j - 1])
    requires forall k :: 0 <= k < i ==> drop(s[k])
    requires forall k :: j <= k < |s| ==> drop(s[k])
    ensures Trim(s, drop) == s[i..j]
  {
    TrimStartAt(s, drop, i);
    TrimEndOfSuffix(s, drop, i, j);
  }

  /** `TrimEnd` on the suffix of `s` from `i` stops at the last character before `j` it does not drop. */
  lemma TrimEndOfSuffix(s: string, drop: char -> bool, i: nat, j: nat)
    requires i < j <= |s| && !drop(s[j - 1])
    requires forall k :: j <= k < |s| ==> drop(s[k])
    ensures TrimEnd(s[i..], drop) == s[i..j]
  {
    var t := s[i..];
    assert forall k :: j - i <= k < |t| ==> t[k] == s[i + k];
    TrimEndAt(t, drop, j - i);
    assert t[..j - i] == s[i..j];
  }

  /** Python's `str.strip()` with no argument. */
  function Strip(s: string): (r: string)
    ensures |r| <= |s|
    ensures r == [] || (!IsSpace(r[0]) && !IsSpace(r[|r| - 1]))
  {
    Trim(s, IsSpace)
  }

  /** Trimming a string that has nothing to trim leaves it alone, so trimming twice is trimming once. */
  lemma TrimIdempotent(s: string, drop: char -> bool)
    ensures Trim(Trim(s, drop), drop) == Trim(s, drop)
  {
    var r := Trim(s, drop);
    assert r == [] || !drop(r[0]);
    assert TrimStart(r, drop) == r;
    assert r == [] || !drop(r[|r| - 1]);
  }

  // ---------------------------------------------------------------------------
  // Decimal numerals (`int(digits)` and `str(n)`)
  // ---------------------------------------------------------------------------

  /** Python's `int(ds)` on a string of ASCII digits; leading zeros are allowed. */
  function DecimalValue(ds: string): (n: nat)
    requires AllDigits(ds)
  {
    if ds == [] then 0 else DecimalValue(ds[..|ds| - 1]) * 10 + DigitValue(ds[|ds| - 1])
  }

  /** Python's `str(n)` for a natural number: its shortest decimal numeral. */
  function DecimalString(n: nat): (ds: string)
    ensures |ds| > 0 && AllDigits(ds)
    ensures ds[0] == '0' ==> n == 0 && ds == "0"
  {
    if n < 10 then [DigitChar(n)] else DecimalString(n / 10) + [DigitChar(n % 10)]
  }

  /** Reading back the numeral that `DecimalString` writes gives the number. */
  lemma {:induction false} DecimalRoundTrip(n: nat)
    ensures DecimalValue(DecimalString(n)) == n
  {
    var ds := DecimalString(n);
    if n >= 10 {
      DecimalRoundTrip(n / 10);
      assert ds[..|ds| - 1] == DecimalString(n / 10);
    }
  }

  /** A leading zero does not change the value of a numeral. */
  lemma {:induction false} LeadingZeroIgnored(ds: string)
    requires AllDigits(ds)
    ensures AllDigits("0" + ds) && DecimalValue("0" + ds) == DecimalValue(ds)
  {
    var z := "0" + ds;
    if ds != [] {
      LeadingZeroIgnored(ds[..|ds| - 1]);
      assert z[..|z| - 1] == "0" + ds[..|ds| - 1];
    }
  }

  // ---------------------------------------------------------------------------
  // Searching, splitting and joining
  // ---------------------------------------------------------------------------

  /** The index of the first `c` in `s`, or `|s|` when there is none. */
  function FirstIndex(s: string, c: char): (i: nat)
    ensures i <= |s|
    ensures i < |s| ==> s[i] == c
    ensures forall k :: 0 <= k < i ==> s[k] != c
  {
    if s == [] || s[0] == c then 0 else 1 + FirstIndex(s[1..], c)
  }

  /** The first `c` of `x + [c] + y` is the one after `x` when `x` holds none. */
  lemma FirstIndexOf(x: string, c: char, y: string)
    requires c !in x
    ensures FirstIndex(x + [c] + y, c) == |x|
  {
    assert (x + [c] + y)[|x|] == c;
  }

  /** The index of the first character of `s` that satisfies `p`, or `|s|` when there is none. */
  function FirstWhere(s: string, p: char -> bool): (i: nat)
    ensures i <= |s|
    ensures i < |s| ==> p(s[i])
    ensures forall k :: 0 <= k < i ==> !p(s[k])
  {
    if s == [] || p(s[0]) then 0 else 1 + FirstWhere(s[1..], p)
  }

  /** The first character of `x + y` satisfying `p` is at `|x|` when `x` has none and `y` starts with one. */
  lemma {:induction false} FirstWhereOf(x: string, y: string, p: char -> bool)
    requires forall k :: 0 <= k < |x| ==> !p(x[k])
    requires y == [] || p(y[0])
    ensures FirstWhere(x + y, p) == |x|
  {
    if x != [] {
      FirstWhereOf(x[1..], y, p);
      assert (x + y)[1..] == x[1..] + y;
    } else {
      assert x + y == y;
    }
  }

  /** The first index from `i` on where `sep` starts in `s`, and `|s|` when there is none. */
  function FirstSep(s: string, sep: string, i: nat): (n: nat)
    requires |sep| > 0 && i <= |s|
    ensures i <= n <= |s|
    ensures n == |s| || sep <= s[n..]
    ensures forall k :: i <= k < n ==> !(sep <= s[k..])
    decreases |s| - i
  {
    if i == |s| || sep <= s[i..] then i else FirstSep(s, sep, i + 1)
  }

  /** Python's `s.split(sep)[0]`: the part of `s` before the first occurrence of `sep`. */
  function BeforeFirst(s: string, sep: string): (r: string)
    requires |sep| > 0
    ensures r <= s
    ensures r == s || sep <= s[|r|..]
    ensures forall k :: 0 <= k < |r| ==> !(sep <= s[k..])
  {
    s[..FirstSep(s, sep, 0)]
  }

  /** `BeforeFirst` stops at the first place where `sep` starts. */
  lemma BeforeFirstAt(s: string, sep: string, i: nat)
    requires |sep| > 0 && i <= |s| && sep <= s[i..]
    requires forall k :: 0 <= k < i ==> !(sep <= s[k..])
    ensures BeforeFirst(s, sep) == s[..i]
  {
    var n := FirstSep(s, sep, 0);
    assert n == i;
  }

  /** A prefix followed by a prefix of what remains is a prefix. */
  lemma PrefixThen<T>(s: seq<T>, x: seq<T>, y: seq<T>)
    requires x <= s && y <= s[|x|..]
    ensures x + y <= s
  {
    assert (x + y)[..|x|] == x;
    forall k | |x| <= k < |x| + |y| ensures (x + y)[k] == s[k] {
      assert (x + y)[k] == y[k - |x|] == s[|x|..][k - |x|];
    }
  }

  /** The pieces of a prefix sit one after another at the front of the sequence. */
  lemma PrefixParts<T>(s: seq<T>, x: seq<T>, y: seq<T>)
    requires x + y <= s
    ensures x <= s && s[|x|..|x| + |y|] == y
  {
    assert x == (x + y)[..|x|];
    assert y == (x + y)[|x|..];
  }

  /** Dropping a prefix of the first piece of a concatenation drops it from the whole. */
  lemma DropFront<T>(x: seq<T>, m: seq<T>, y: seq<T>, k: nat)
    requires k <= |x|
    ensures (x + m + y)[k..] == x[k..] + m + y
  {
  }

  /** Regrouping `[b] + (x + y)` as `([b] + x) + y`, stated on names so that callers need no extensionality. */
  lemma ConsAppend<T>(whole: seq<T>, tail: seq<T>, front: seq<T>, b: T, x: seq<T>, y: seq<T>)
    requires whole == [b] + tail && tail == x + y && front == [b] + x
    ensures whole == front + y
  {
    assert [b] + (x + y) == ([b] + x) + y;
  }

  /** Extending a slice of the second piece by one element extends the concatenation by it. */
  lemma SnocSlice<T>(x: seq<T>, m: seq<T>, j: nat)
    requires j < |m|
    ensures x + m[..j + 1] == (x + m[..j]) + [m[j]]
  {
    assert m[..j + 1] == m[..j] + [m[j]];
  }

  /** A sequence around its element `i`: what comes before it, the element, what comes after it. */
  lemma SplitAround<T>(s: seq<T>, i: nat)
    requires i < |s|
    ensures s[..i + 1] == s[..i] + [s[i]]
    ensures s == s[..i] + [s[i]] + s[i + 1..]
  {
  }

  /** Python's `sep.join(parts)`. */
  function JoinWith(sep: string, parts: seq<string>): string {
    if parts == [] then ""
    else if |parts| == 1 then parts[0]
    else parts[0] + sep + JoinWith(sep, parts[1..])
  }

  /** Python's `s.split(c)` for a one-character separator: never empty, no piece holds `c`. */
  function SplitOn(s: string, c: char): (parts: seq<string>)
    ensures |parts| >= 1
    ensures forall k :: 0 <= k < |parts| ==> c !in parts[k]
    decreases |s|
  {
    var i := FirstIndex(s, c);
    if i == |s| then [s] else [s[..i]] + SplitOn(s[i + 1..], c)
  }

  /** Splitting on `c` and joining with `c` gives back the string. */
  lemma {:induction false} SplitJoinRoundTrip(s: string, c: char)
    ensures JoinWith([c], SplitOn(s, c)) == s
    decreases |s|
  {
    var i := FirstIndex(s, c);
    if i < |s| {
      var rest := SplitOn(s[i + 1..], c);
      var parts := [s[..i]] + rest;
      assert SplitOn(s, c) == parts;
      assert parts[0] == s[..i] && parts[1..] == rest;
      assert JoinWith([c], parts) == s[..i] + [c] + JoinWith([c], rest);
      SplitJoinRoundTrip(s[i + 1..], c);
      assert s == s[..i] + [c] + s[i + 1..];
    }
  }

  /** Joining pieces that hold no `c` with `c`, then splitting on `c`, gives back the pieces. */
  lemma {:induction false} JoinSplitRoundTrip(parts: seq<string>, c: char)
    requires |parts| >= 1
    requires forall k :: 0 <= k < |parts| ==> c !in parts[k]
    ensures SplitOn(JoinWith([c], parts), c) == parts
  {
    var s := JoinWith([c], parts);
    if |parts| == 1 {
      assert FirstIndex(s, c) == |s|;
    } else {
      var p := parts[0];
      assert s == p + [c] + JoinWith([c], parts[1..]);
      assert FirstIndex(s, c) == |p| by {
        assert forall k :: 0 <= k < |p| ==> s[k] == p[k];
        assert s[|p|] == c;
      }
      assert s[..|p|] == p;
      assert s[|p| + 1..] == JoinWith([c], parts[1..]);
      JoinSplitRoundTrip(parts[1..], c);
      assert SplitOn(s, c) == [p] + SplitOn(s[|p| + 1..], c);
    }
  }

  // ---------------------------------------------------------------------------
  // Order-preserving filtering (a generator expression with an `if`)
  // ---------------------------------------------------------------------------

  function Filter<T>(s: seq<T>, keep: T -> bool): (r: seq<T>)
    ensures |r| <= |s|
    ensures forall k :: 0 <= k < |r| ==> keep(r[k])
  {
    if s == [] then []
    else
      assert s == [s[0]] + s[1..];
      (if keep(s[0]) then [s[0]] else []) + Filter(s[1..], keep)
  }

  /** Filtering keeps exactly the elements that pass. */
  lemma {:induction false} FilterMembers<T>(s: seq<T>, keep: T -> bool, x: T)
    ensures x in Filter(s, keep) <==> x in s && keep(x)
  {
    if s != [] {
      FilterMembers(s[1..], keep, x);
      assert s == [s[0]] + s[1..];
    }
  }

  /** Filtering works piece by piece, so the survivors keep their relative order. */
  lemma {:induction false} FilterConcat<T>(a: seq<T>, b: seq<T>, keep: T -> bool)
    ensures Filter(a + b, keep) == Filter(a, keep) + Filter(b, keep)
  {
    if a != [] {
      FilterConcat(a[1..], b, keep);
      assert (a + b)[0] == a[0];
      assert (a + b)[1..] == a[1..] + b;
      var head := if keep(a[0]) then [a[0]] else [];
      assert Filter(a + b, keep) == head + Filter(a[1..] + b, keep);
      assert Filter(a, keep) == head + Filter(a[1..], keep);
    } else {
      assert a + b == b;
    }
  }

  /** Two filters in a row are one filter by the conjunction of their tests. */
  lemma {:induction false} FilterTwice<T>(s: seq<T>, first: T -> bool, second: T -> bool, both: T -> bool)
    requires forall x :: both(x) == (first(x) && second(x))
    ensures Filter(Filter(s, first), second) == Filter(s, both)
  {
    if s != [] {
      FilterTwice(s[1..], first, second, both);
      var head := if first(s[0]) then [s[0]] else [];
      FilterConcat(head, Filter(s[1..], first), second);
    }
  }

  /** A filter whose test passes every element keeps the whole sequence. */
  lemma {:induction false} FilterAll<T>(s: seq<T>, keep: T -> bool)
    requires forall k :: 0 <= k < |s| ==> keep(s[k])
    ensures Filter(s, keep) == s
  {
    if s != [] {
      FilterAll(s[1..], keep);
    }
  }

  // ---------------------------------------------------------------------------
  // Nested iteration (`for x in xs: for y in f(x): ...`)
  // ---------------------------------------------------------------------------

  /** `[f(x) for x in xs]`. */
  function Map<T, U>(xs: seq<T>, f: T -> U): (ys: seq<U>)
    ensures |ys| == |xs|
  {
    if xs == [] then [] else Map(xs[..|xs| - 1], f) + [f(xs[|xs| - 1])]
  }

  /** Each element of the result is `f` of the element at the same place. */
  lemma {:induction false} MapAt<T, U>(xs: seq<T>, f: T -> U, i: nat)
    requires i < |xs|
    ensures Map(xs, f)[i] == f(xs[i])
  {
    if i < |xs| - 1 {
      MapAt(xs[..|xs| - 1], f, i);
    }
  }

  /** One more element of `xs` adds its image at the end. */
  lemma MapSnoc<T, U>(xs: seq<T>, i: nat, f: T -> U)
    requires i < |xs|
    ensures Map(xs[..i + 1], f) == Map(xs[..i], f) + [f(xs[i])]
  {
    assert xs[..i + 1][..i] == xs[..i];
  }

  /** The elements of `f(x)` for every `x` of `xs`, in order. */
  function FlatMap<T, U>(xs: seq<T>, f: T -> seq<U>): seq<U> {
    if xs == [] then [] else FlatMap(xs[..|xs| - 1], f) + f(xs[|xs| - 1])
  }

  /** A single element contributes just its part. */
  lemma FlatMapOne<T, U>(x: T, f: T -> seq<U>)
    ensures FlatMap([x], f) == f(x)
  {
    assert [x][..0] == [];
  }

  /** One more element of `xs` adds its part at the end. */
  lemma FlatMapSnoc<T, U>(xs: seq<T>, i: nat, f: T -> seq<U>)
    requires i < |xs|
    ensures FlatMap(xs[..i + 1], f) == FlatMap(xs[..i], f) + f(xs[i])
  {
    assert xs[..i + 1][..i] == xs[..i];
  }

  /** `FlatMap` read from the front: the first element's part, then the rest's. */
  lemma {:induction false} FlatMapCons<T, U>(x: T, xs: seq<T>, f: T -> seq<U>)
    ensures FlatMap([x] + xs, f) == f(x) + FlatMap(xs, f)
  {
    if xs != [] {
      var all := [x] + xs;
      assert all[..|all| - 1] == [x] + xs[..|xs| - 1];
      FlatMapCons(x, xs[..|xs| - 1], f);
    }
  }

  /** A property that every part's elements have, every element of the whole has. */
  lemma {:induction false} FlatMapEvery<T, U>(xs: seq<T>, f: T -> seq<U>, p: U -> bool)
    requires forall x, k :: x in xs && 0 <= k < |f(x)| ==> p(f(x)[k])
    ensures forall k :: 0 <= k < |FlatMap(xs, f)| ==> p(FlatMap(xs, f)[k])
  {
    if xs != [] {
      var front := xs[..|xs| - 1];
      assert forall x :: x in front ==> x in xs;
      FlatMapEvery(front, f, p);
    }
  }

  /** Parts that are all empty flatten to nothing. */
  lemma {:induction false} FlatMapEmpty<T, U>(xs: seq<T>, f: T -> seq<U>)
    requires forall k :: 0 <= k < |xs| ==> f(xs[k]) == []
    ensures FlatMap(xs, f) == []
  {
    if xs != [] {
      FlatMapEmpty(xs[..|xs| - 1], f);
    }
  }
}
