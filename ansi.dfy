/**
 * `strip_ansi_codes`: `re.sub` with the pattern `ANSI_ESCAPE_SEQ`, a restricted
 * form of the ECMA-48 control sequences that start with ESC `[`. A sequence is
 * ESC `[`, then an optional parameter part (one or two of `0-9`, `,`, `A-Z`,
 * optionally `;` and one or two digits, optionally `;` and three digits), then
 * an optional one of `m`, `|`, `K`.
 *
 * Every part after ESC `[` is optional, so the first choice of Python's
 * backtracking matcher always succeeds: the match is the greedy one, part by
 * part, which is what `MatchLen` computes. `re.sub` scans left to right, drops
 * each match and resumes right after it; no match is empty.
 */
module Ansi {
  import Text

  const Esc: char := '\U{1b}'

  /** `[0-9,A-Z]`: the characters the parameter part starts with. */
  predicate IsParamChar(c: char) {
    '0' <= c <= '9' || c == ',' || 'A' <= c <= 'Z'
  }

  /** `[m|K]`: the final character; the `|` in the class is a literal bar. */
  predicate IsFinal(c: char) {
    c == 'm' || c == '|' || c == 'K'
  }

  /** Whether a match starts at the front of `t`: ESC followed by `[`. */
  predicate StartsSequence(t: string) {
    |t| >= 2 && t[0] == Esc && t[1] == '['
  }

  /** Every character of `s` from index `lo` up to `hi` is one of `[0-9,A-Z]`. */
  predicate ParamCharsIn(s: string, lo: nat, hi: nat)
    requires lo <= hi <= |s|
  {
    forall k :: lo <= k < hi ==> IsParamChar(s[k])
  }

  /** Every character of `s` from index `lo` up to `hi` is one of `[0-9]`. */
  predicate DigitsIn(s: string, lo: nat, hi: nat)
    requires lo <= hi <= |s|
  {
    forall k :: lo <= k < hi ==> Text.IsDigit(s[k])
  }

  // ---------------------------------------------------------------------------
  // The greedy match, part by part, from index `i` of `s`
  // ---------------------------------------------------------------------------

  /** `[0-9,A-Z]{1,2}`, greedy: the length taken, 0 when the part is absent. */
  function Lead(s: string, i: nat): (n: nat)
    requires i <= |s|
    ensures n <= 2 && i + n <= |s|
    ensures ParamCharsIn(s, i, i + n)
  {
    if i + 1 <= |s| && IsParamChar(s[i]) then (if i + 2 <= |s| && IsParamChar(s[i + 1]) then 2 else 1) else 0
  }

  /** `(;[0-9]{1,2})?`, greedy. */
  function ShortNumber(s: string, i: nat): (n: nat)
    requires i <= |s|
    ensures i + n <= |s|
    ensures n == 0 || n == 2 || n == 3
    ensures n > 0 ==> s[i] == ';' && DigitsIn(s, i + 1, i + n)
  {
    if i + 2 <= |s| && s[i] == ';' && Text.IsDigit(s[i + 1]) then
      (if i + 3 <= |s| && Text.IsDigit(s[i + 2]) then 3 else 2)
    else 0
  }

  /** `(;[0-9]{3})?`. */
  function LongNumber(s: string, i: nat): (n: nat)
    requires i <= |s|
    ensures i + n <= |s|
    ensures n == 0 || n == 4
    ensures n > 0 ==> s[i] == ';' && DigitsIn(s, i + 1, i + n)
  {
    if i + 4 <= |s| && s[i] == ';' && Text.IsDigit(s[i + 1]) && Text.IsDigit(s[i + 2]) && Text.IsDigit(s[i + 3]) then 4
    else 0
  }

  /** The optional parameter group: nothing unless its leading characters are there. */
  function Params(s: string, i: nat): (n: nat)
    requires i <= |s|
    ensures i + n <= |s|
  {
    var a := Lead(s, i);
    if a == 0 then 0
    else
      var b := ShortNumber(s, i + a);
      a + b + LongNumber(s, i + a + b)
  }

  /** `[m|K]?`. */
  function Final(s: string, i: nat): (n: nat)
    requires i <= |s|
    ensures n <= 1 && i + n <= |s|
    ensures n == 1 ==> IsFinal(s[i])
  {
    if i + 1 <= |s| && IsFinal(s[i]) then 1 else 0
  }

  /** The length of the match at the front of `t`: ESC `[` and whatever the greedy parts take. */
  function MatchLen(t: string): (n: nat)
    requires StartsSequence(t)
    ensures 2 <= n <= |t|
  {
    var p := Params(t, 2);
    2 + p + Final(t, 2 + p)
  }

  /** `strip_ansi_codes(s)`: every match removed, the other characters kept in order. */
  function StripCodes(s: string): (r: string)
    ensures |r| <= |s|
    decreases |s|
  {
    if s == [] then []
    else if StartsSequence(s) then StripCodes(s[MatchLen(s)..])
    else [s[0]] + StripCodes(s[1..])
  }

  // ---------------------------------------------------------------------------
  // The pattern as a language, independently of how the matcher chooses
  // ---------------------------------------------------------------------------

  /**
   * `t` is ESC `[`, a lead of `a` characters, a short number of `b`, a long
   * number of `c` and a final character when `f` is 1.
   */
  predicate Shape(t: string, a: nat, b: nat, c: nat, f: nat) {
    && |t| == 2 + a + b + c + f
    && t[0] == Esc && t[1] == '['
    && a <= 2 && (b == 0 || b == 2 || b == 3) && (c == 0 || c == 4) && f <= 1
    && (a == 0 ==> b == 0 && c == 0)
    && ParamCharsIn(t, 2, 2 + a)
    && (b > 0 ==> t[2 + a] == ';' && DigitsIn(t, 3 + a, 2 + a + b))
    && (c > 0 ==> t[2 + a + b] == ';' && DigitsIn(t, 3 + a + b, 2 + a + b + c))
    && (f == 1 ==> IsFinal(t[2 + a + b + c]))
  }

  /** Whether the whole of `t` is a string the pattern can match. */
  ghost predicate IsSequence(t: string) {
    exists a: nat, b: nat, c: nat, f: nat :: Shape(t, a, b, c, f)
  }

  /** What the matcher removes at a match start is a string of the pattern's language. */
  lemma MatchIsSequence(t: string)
    requires StartsSequence(t)
    ensures IsSequence(t[..MatchLen(t)])
  {
    var a := Lead(t, 2);
    var b := if a == 0 then 0 else ShortNumber(t, 2 + a);
    var c := if a == 0 then 0 else LongNumber(t, 2 + a + b);
    var f := Final(t, 2 + a + b + c);
    assert Params(t, 2) == a + b + c;
    assert Shape(t[..MatchLen(t)], a, b, c, f);
  }

  /**
   * The match is not the longest string of the language: after `;12` the
   * short number is complete, so `ESC[1;123m` loses only `ESC[1;12`, though
   * the whole of it (`1`, then `;123`, then `m`) is in the language.
   */
  lemma GreedyNotLongest()
    ensures IsSequence("\U{1b}[1;123m")
    ensures MatchLen("\U{1b}[1;123m") == 6
    ensures StripCodes("\U{1b}[1;123m") == "3m"
  {
    var t := "\U{1b}[1;123m";
    assert Shape(t, 1, 0, 4, 1);
    assert Lead(t, 2) == 1 && ShortNumber(t, 3) == 3 && LongNumber(t, 6) == 0 && Final(t, 6) == 0;
    assert t[6..] == "3m";
    assert "3m"[1..] == "m";
    assert StripCodes("m") == "m";
  }

  // ---------------------------------------------------------------------------
  // Properties of the substitution
  // ---------------------------------------------------------------------------

  /** A string without ESC comes back unchanged. */
  lemma {:induction false} StripNoEscape(s: string)
    requires Esc !in s
    ensures StripCodes(s) == s
  {
    if s != [] {
      assert s[0] in s;
      StripNoEscape(s[1..]);
    }
  }

  /** Text without ESC in front of the rest is kept as it is. */
  lemma {:induction false} StripPlainPrefix(a: string, b: string)
    requires Esc !in a
    ensures StripCodes(a + b) == a + StripCodes(b)
  {
    if a != [] {
      assert a[0] in a;
      assert (a + b)[1..] == a[1..] + b;
      StripPlainPrefix(a[1..], b);
    } else {
      assert a + b == b;
    }
  }

  /** Whether `t` can be obtained from `s` by deleting characters. */
  predicate IsSubsequence(t: string, s: string)
    decreases |s|
  {
    if t == [] then true
    else if s == [] then false
    else (t[0] == s[0] && IsSubsequence(t[1..], s[1..])) || IsSubsequence(t, s[1..])
  }

  /** Deleting a prefix of `s` keeps every subsequence of what remains a subsequence of `s`. */
  lemma {:induction false} SubsequenceOfSuffix(t: string, s: string, n: nat)
    requires n <= |s| && IsSubsequence(t, s[n..])
    ensures IsSubsequence(t, s)
    decreases n
  {
    if n > 0 {
      assert s[1..][n - 1..] == s[n..];
      SubsequenceOfSuffix(t, s[1..], n - 1);
    }
  }

  /** The characters kept are characters of the input, in their order. */
  lemma {:induction false} StripSubsequence(s: string)
    ensures IsSubsequence(StripCodes(s), s)
    decreases |s|
  {
    if s != [] {
      if StartsSequence(s) {
        StripSubsequence(s[MatchLen(s)..]);
        SubsequenceOfSuffix(StripCodes(s), s, MatchLen(s));
      } else {
        StripSubsequence(s[1..]);
      }
    }
  }

  /** A match removes exactly its own characters and stripping goes on after it. */
  lemma StripAfterMatch(code: string, rest: string)
    requires StartsSequence(code + rest) && MatchLen(code + rest) == |code|
    ensures StripCodes(code + rest) == StripCodes(rest)
  {
    assert (code + rest)[|code|..] == rest;
  }

  /**
   * A colour code `ESC[<n>m` or `ESC[<n>;<k>m`, each number of one or two
   * digits, is removed whole, whatever follows.
   */
  lemma ColourRemoved(n: string, k: string, rest: string)
    requires 1 <= |n| <= 2 && Text.AllDigits(n)
    requires k == [] || (1 <= |k| <= 2 && Text.AllDigits(k))
    ensures StripCodes("\U{1b}[" + n + (if k == [] then [] else ";" + k) + "m" + rest) == StripCodes(rest)
  {
    var mid := if k == [] then [] else ";" + k;
    var code := "\U{1b}[" + n + mid + "m";
    var s := code + rest;
    var i := 2 + |n|;
    assert forall j :: 0 <= j < |n| ==> s[2 + j] == n[j];
    assert s[i + |mid|] == 'm';
    if k == [] {
      assert Lead(s, 2) == |n|;
      assert Params(s, 2) == |n|;
    } else {
      assert s[i] == ';';
      assert forall j :: 0 <= j < |k| ==> s[i + 1 + j] == k[j];
      assert Lead(s, 2) == |n|;
      assert ShortNumber(s, i) == 1 + |k|;
      assert Params(s, 2) == |n| + 1 + |k|;
    }
    assert MatchLen(s) == |code|;
    StripAfterMatch(code, rest);
  }

  /** A 256-colour code whose colour number has three digits, `ESC[38;5;<nnn>m`, is removed whole. */
  lemma Colour256Removed(n: string, rest: string)
    requires |n| == 3 && Text.AllDigits(n)
    ensures StripCodes("\U{1b}[38;5;" + n + "m" + rest) == StripCodes(rest)
  {
    var code := "\U{1b}[38;5;" + n + "m";
    var s := code + rest;
    assert s[2] == '3' && s[3] == '8' && s[4] == ';' && s[5] == '5' && s[6] == ';';
    assert s[7] == n[0] && s[8] == n[1] && s[9] == n[2] && s[10] == 'm';
    assert Params(s, 2) == 8;
    assert MatchLen(s) == |code|;
    StripAfterMatch(code, rest);
  }

  /**
   * A 256-colour code whose colour number has one or two digits is only
   * partly removed: the short number takes `;5`, the long number needs three
   * digits, so `;<n>m` stays in the text.
   */
  lemma Colour256Leftover(n: string, rest: string)
    requires 1 <= |n| <= 2 && Text.AllDigits(n)
    ensures StripCodes("\U{1b}[38;5;" + n + "m" + rest) == ";" + n + "m" + StripCodes(rest)
  {
    var code := "\U{1b}[38;5";
    var tail := ";" + n + "m";
    var s := code + (tail + rest);
    assert s == "\U{1b}[38;5;" + n + "m" + rest;
    assert s[2] == '3' && s[3] == '8' && s[4] == ';' && s[5] == '5' && s[6] == ';' && s[7] == n[0];
    assert s[7 + |n|] == 'm';
    assert |n| == 2 ==> s[8] == n[1];
    assert Params(s, 2) == 4;
    assert MatchLen(s) == |code|;
    StripAfterMatch(code, tail + rest);
    assert Esc !in tail by {
      assert forall i :: 0 <= i < |tail| ==> tail[i] == ';' || tail[i] == 'm' || Text.IsDigit(tail[i]);
    }
    StripPlainPrefix(tail, rest);
  }

  /** The bar inside `[m|K]` is taken literally, so `ESC[1|` is removed as a sequence. */
  lemma BarIsFinal(rest: string)
    ensures StripCodes("\U{1b}[1|" + rest) == StripCodes(rest)
  {
    var code := "\U{1b}[1|";
    var s := code + rest;
    assert s[2] == '1' && s[3] == '|';
    assert MatchLen(s) == 4;
    StripAfterMatch(code, rest);
  }

  /**
   * Stripping is not idempotent: removing a sequence can join an ESC that
   * was not followed by `[` to a `[` after the sequence.
   */
  lemma NotIdempotent()
    ensures StripCodes("\U{1b}\U{1b}[[") == "\U{1b}["
    ensures StripCodes("\U{1b}[") == []
  {
    var s := "\U{1b}\U{1b}[[";
    assert !StartsSequence(s);
    assert s[1..] == "\U{1b}[[";
    assert Params(s[1..], 2) == 0;
    assert s[1..][2..] == "[";
    assert StripCodes("[") == "[";
  }
}
