/**
 * `fnmatch.fnmatchcase`: shell-style matching of a whole name against a
 * pattern, case-sensitively. `*` matches any run of characters, `?` any one
 * character, `[...]` one character of a set (`[!...]` one outside it, with
 * `a-z` ranges, a `]` right after the opening bracket or `!` taken literally,
 * and a reversed range matching nothing); a `[` without a closing `]` and
 * every other character match themselves.
 */
module Glob {
  import opened Text

  /**
   * For a pattern starting with `[`: where the search for the closing `]`
   * begins. A `!` and then a `]` right after the bracket belong to the set.
   */
  function ClassStart(p: string): (i: nat)
    requires |p| > 0
    ensures 1 <= i <= |p| && i <= 3
  {
    var i := if |p| > 1 && p[1] == '!' then 2 else 1;
    if i < |p| && p[i] == ']' then i + 1 else i
  }

  /**
   * For a pattern starting with `[`: the index of the first `]` from
   * `ClassStart(p)` on, which closes the set, or `|p|` when there is none and
   * the set is not closed.
   */
  function ClassEnd(p: string): (j: nat)
    requires |p| > 0
    ensures ClassStart(p) <= j <= |p|
    ensures j < |p| ==> p[j] == ']'
    ensures forall k :: ClassStart(p) <= k < j ==> p[k] != ']'
  {
    var i := ClassStart(p);
    i + FirstIndex(p[i..], ']')
  }

  /** Whether `c` is one of the characters or ranges listed in `items`. */
  function InItems(items: string, c: char): bool
    decreases |items|
  {
    if items == [] then false
    else if |items| >= 3 && items[1] == '-' then (items[0] <= c <= items[2]) || InItems(items[3..], c)
    else items[0] == c || InItems(items[1..], c)
  }

  /** Whether `c` matches the set between the brackets; a leading `!` negates it. */
  function InClass(body: string, c: char): bool {
    if body != [] && body[0] == '!' then !InItems(body[1..], c) else InItems(body, c)
  }

  /** Whether `p` has a closing bracket at its head's set, so that its `[` opens a set. */
  predicate OpensClass(p: string) {
    |p| > 0 && p[0] == '[' && ClassEnd(p) < |p|
  }

  /** `fnmatchcase(name, pattern)`: the whole name must match the whole pattern. */
  function Match(p: string, n: string): bool
    decreases |p| + |n|
  {
    if p == [] then n == []
    else if p[0] == '*' then Match(p[1..], n) || (n != [] && Match(p, n[1..]))
    else if p[0] == '?' then n != [] && Match(p[1..], n[1..])
    else if OpensClass(p) then
      var j := ClassEnd(p);
      n != [] && InClass(p[1..j], n[0]) && Match(p[j + 1..], n[1..])
    else n != [] && n[0] == p[0] && Match(p[1..], n[1..])
  }

  /** A pattern character that matches only itself. */
  predicate IsLiteral(c: char) {
    c != '*' && c != '?' && c != '['
  }

  /** A pattern with no `*`, `?` or `[` matches exactly the name it spells. */
  lemma {:induction false} MatchLiteral(p: string, n: string)
    requires forall k :: 0 <= k < |p| ==> IsLiteral(p[k])
    ensures Match(p, n) <==> n == p
  {
    if p != [] && n != [] {
      MatchLiteral(p[1..], n[1..]);
      assert n == [n[0]] + n[1..] && p == [p[0]] + p[1..];
    }
  }

  /** `*` followed by `q` matches exactly the names that have a suffix `q` matches. */
  lemma {:induction false} MatchStarThen(q: string, n: string)
    ensures Match("*" + q, n) <==> exists k :: 0 <= k <= |n| && Match(q, n[k..])
  {
    var p := "*" + q;
    assert p[1..] == q;
    if n != [] {
      MatchStarThen(q, n[1..]);
      if Match(p, n[1..]) {
        var k :| 0 <= k <= |n[1..]| && Match(q, n[1..][k..]);
        assert n[1..][k..] == n[k + 1..];
      }
      if k :| 0 < k <= |n| && Match(q, n[k..]) {
        assert n[1..][k - 1..] == n[k..];
      }
    }
    assert n[0..] == n;
  }

  /** The default pattern `*` matches every name. */
  lemma MatchStar(n: string)
    ensures Match("*", n)
  {
    MatchStarThen([], n);
    assert n[|n|..] == [];
  }

  /** Without ranges, the items of a set are just the characters listed. */
  lemma {:induction false} InItemsPlain(items: string, c: char)
    requires '-' !in items
    ensures InItems(items, c) <==> c in items
    decreases |items|
  {
    if items != [] {
      InItemsPlain(items[1..], c);
      assert items == [items[0]] + items[1..];
    }
  }

  /** A set `[...]` of plain characters matches exactly one character, one of those listed. */
  lemma MatchSet(items: string, n: string)
    requires items != [] && items[0] != '!' && items[0] != ']'
    requires ']' !in items && '-' !in items
    ensures Match("[" + items + "]", n) <==> |n| == 1 && n[0] in items
  {
    var p := "[" + items + "]";
    assert p[1..|p| - 1] == items;
    assert ClassStart(p) == 1;
    assert p[1..][..|items|] == items;
    assert FirstIndex(p[1..], ']') == |items| by {
      FirstIndexOf(items, ']', []);
      assert p[1..] == items + [']'] + [];
    }
    assert OpensClass(p);
    assert p[|p|..] == [];
    InItemsPlain(items, if n == [] then 'a' else n[0]);
  }

  /** The complement set `[!...]` of plain characters matches exactly one character not listed. */
  lemma MatchNegatedSet(items: string, n: string)
    requires items != [] && items[0] != ']'
    requires ']' !in items && '-' !in items
    ensures Match("[!" + items + "]", n) <==> |n| == 1 && n[0] !in items
  {
    var p := "[!" + items + "]";
    assert p[2..|p| - 1] == items;
    assert ClassStart(p) == 2;
    assert FirstIndex(p[2..], ']') == |items| by {
      FirstIndexOf(items, ']', []);
      assert p[2..] == items + [']'] + [];
    }
    assert OpensClass(p);
    assert p[1..|p| - 1] == "!" + items && ("!" + items)[1..] == items;
    assert p[|p|..] == [];
    InItemsPlain(items, if n == [] then 'a' else n[0]);
  }

  /** A pattern of `?` only matches exactly the names of its length. */
  lemma {:induction false} MatchAnyChars(p: string, n: string)
    requires forall k :: 0 <= k < |p| ==> p[k] == '?'
    ensures Match(p, n) <==> |n| == |p|
  {
    if p != [] && n != [] {
      MatchAnyChars(p[1..], n[1..]);
    }
  }
}
