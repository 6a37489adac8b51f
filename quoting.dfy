/**
 * `urllib.parse.quote_plus` with its default `safe=''`, the form encoding of
 * application/x-www-form-urlencoded: the string is encoded as UTF-8, the
 * unreserved bytes of section 2.3 of RFC 3986 (ASCII letters, digits and
 * `_.-~`) are kept, a space becomes `+`, and every other byte becomes `%`
 * with two upper-case hex digits (section 2.1 of RFC 3986).
 *
 * `UnquotePlus` is an independent reference decoder (`+` is a space, `%XX` a
 * byte, the bytes decoded as strict UTF-8); `UnquoteQuote` proves it
 * recovers every string.
 */
module Quoting {
  import opened Wrappers
  import opened Utf8

  predicate IsAsciiLetter(c: char) {
    'A' <= c <= 'Z' || 'a' <= c <= 'z'
  }

  /** `_ALWAYS_SAFE`: the bytes `quote` never escapes. */
  predicate AlwaysSafe(b: byte) {
    var c := b as int as char;
    IsAsciiLetter(c) || '0' <= c <= '9' || c == '_' || c == '.' || c == '-' || c == '~'
  }

  /** The upper-case hex digit for `d`. */
  function HexDigit(d: nat): (c: char)
    requires d < 16
    ensures '0' <= c <= '9' || 'A' <= c <= 'F'
    ensures IsHexDigit(c) && HexValue(c) == d
  {
    if d < 10 then ('0' as int + d) as char else ('A' as int + d - 10) as char
  }

  predicate IsHexDigit(c: char) {
    '0' <= c <= '9' || 'a' <= c <= 'f' || 'A' <= c <= 'F'
  }

  /** The value of a hex digit of either case, as `unquote` reads it. */
  function HexValue(c: char): (d: nat)
    requires IsHexDigit(c)
    ensures d < 16
  {
    if c <= '9' then c as int - '0' as int
    else if c <= 'F' then c as int - 'A' as int + 10
    else c as int - 'a' as int + 10
  }

  /**
   * What `quote_plus` writes for one byte: an always-safe byte as itself, a
   * space as `+`, and every other byte as `%` and two upper-case hex digits
   * that read back as the byte.
   */
  function QuoteByte(b: byte): (q: string)
    ensures |q| == 1 || |q| == 3
    ensures |q| == 1 <==> AlwaysSafe(b) || b == 0x20
    ensures AlwaysSafe(b) ==> q == [b as int as char]
    ensures b == 0x20 ==> q == "+"
    ensures |q| == 3 ==> q[0] == '%' && q[1] == HexDigit(b as int / 16) && q[2] == HexDigit(b as int % 16)
    ensures |q| == 3 ==> HexValue(q[1]) * 16 + HexValue(q[2]) == b as int
  {
    if AlwaysSafe(b) then [b as int as char]
    else if b == 0x20 then "+"
    else ['%', HexDigit(b as int / 16), HexDigit(b as int % 16)]
  }

  function QuoteBytes(bs: seq<byte>): string {
    if bs == [] then [] else QuoteByte(bs[0]) + QuoteBytes(bs[1..])
  }

  /**
   * `quote_plus(s)`: every character of the result is an unreserved
   * character, `+`, `%` or an upper-case hex digit; in particular a `/` and a
   * space never survive.
   */
  function QuotePlus(s: string): (q: string)
    ensures forall k :: 0 <= k < |q| ==> QuotedChar(q[k])
    ensures '/' !in q && ' ' !in q
  {
    var q := QuoteBytes(Encode(s));
    QuoteBytesChars(Encode(s));
    q
  }

  /** The characters that can appear in the output of `quote_plus`. */
  predicate QuotedChar(c: char) {
    IsAsciiLetter(c) || '0' <= c <= '9' || c == '_' || c == '.' || c == '-' || c == '~' || c == '+' || c == '%'
  }

  lemma {:induction false} QuoteBytesChars(bs: seq<byte>)
    ensures forall k :: 0 <= k < |QuoteBytes(bs)| ==> QuotedChar(QuoteBytes(bs)[k])
  {
    if bs != [] {
      QuoteBytesChars(bs[1..]);
      var h := QuoteByte(bs[0]);
      assert forall k :: 0 <= k < |h| ==> QuotedChar(h[k]);
    }
  }

  // ---------------------------------------------------------------------------
  // The reference decoder
  // ---------------------------------------------------------------------------

  /** `unquote_plus` before the UTF-8 decoding: `+` is a space, `%XX` a byte, anything else its own bytes. */
  function PercentDecode(q: string): seq<byte>
    decreases |q|
  {
    if q == [] then []
    else if q[0] == '%' && |q| >= 3 && IsHexDigit(q[1]) && IsHexDigit(q[2]) then
      [(HexValue(q[1]) * 16 + HexValue(q[2])) as byte] + PercentDecode(q[3..])
    else if q[0] == '+' then [0x20] + PercentDecode(q[1..])
    else EncodeChar(q[0]) + PercentDecode(q[1..])
  }

  /** `unquote_plus`, with a malformed UTF-8 result reported as `None` instead of replaced. */
  function UnquotePlus(q: string): Option<string> {
    Decode(PercentDecode(q))
  }

  /** The escape `QuoteByte` writes for a byte reads back as that byte. */
  lemma PercentDecodeByte(b: byte, rest: string)
    ensures PercentDecode(QuoteByte(b) + rest) == [b] + PercentDecode(rest)
  {
    var q := QuoteByte(b) + rest;
    if AlwaysSafe(b) {
      assert q[1..] == rest;
    } else if b == 0x20 {
      assert q[1..] == rest;
    } else {
      var hi, lo := b as int / 16, b as int % 16;
      assert HexValue(HexDigit(hi)) == hi;
      assert HexValue(HexDigit(lo)) == lo;
      assert q[3..] == rest;
    }
  }

  /** Percent-decoding the output of `QuoteBytes` gives back the bytes. */
  lemma {:induction false} PercentDecodeQuote(bs: seq<byte>)
    ensures PercentDecode(QuoteBytes(bs)) == bs
  {
    if bs != [] {
      PercentDecodeQuote(bs[1..]);
      PercentDecodeByte(bs[0], QuoteBytes(bs[1..]));
    }
  }

  /** Decoding the encoded project gives back the project: `quote_plus` loses nothing. */
  lemma UnquoteQuote(s: string)
    ensures UnquotePlus(QuotePlus(s)) == Some(s)
  {
    PercentDecodeQuote(Encode(s));
    DecodeEncode(s);
  }

  /** `quote_plus` is injective: two strings with the same encoding are equal. */
  lemma QuotePlusInjective(s: string, t: string)
    requires QuotePlus(s) == QuotePlus(t)
    ensures s == t
  {
    UnquoteQuote(s);
    UnquoteQuote(t);
  }

  /** A string made of the characters `quote_plus` never escapes. */
  predicate Unreserved(s: string) {
    forall k :: 0 <= k < |s| ==> s[k] as int < 0x80 && AlwaysSafe(s[k] as int as byte)
  }

  /** A string of unreserved ASCII characters is its own encoding. */
  lemma {:induction false} QuotePlusUnreserved(s: string)
    requires Unreserved(s)
    ensures QuotePlus(s) == s
  {
    if s != [] {
      QuotePlusUnreserved(s[1..]);
      assert EncodeChar(s[0]) == [s[0] as int as byte];
    }
  }

  /** Quoting works byte by byte, so it distributes over concatenation. */
  lemma {:induction false} QuoteBytesConcat(a: seq<byte>, b: seq<byte>)
    ensures QuoteBytes(a + b) == QuoteBytes(a) + QuoteBytes(b)
  {
    if a != [] {
      QuoteBytesConcat(a[1..], b);
      assert (a + b)[1..] == a[1..] + b;
    } else {
      assert a + b == b;
    }
  }

  /** `QuotePlus` distributes over concatenation. */
  lemma QuotePlusConcat(s: string, t: string)
    ensures QuotePlus(s + t) == QuotePlus(s) + QuotePlus(t)
  {
    EncodeConcat(s, t);
    QuoteBytesConcat(Encode(s), Encode(t));
  }

  /** The path separator is escaped: `quote_plus("group/project")` is `group%2Fproject`. */
  lemma QuotePlusSlash(group: string, project: string)
    requires Unreserved(group) && Unreserved(project)
    ensures QuotePlus(group + "/" + project) == group + "%2F" + project
  {
    QuotePlusUnreserved(group);
    QuotePlusUnreserved(project);
    assert QuotePlus("/") == "%2F" by {
      assert Encode("/") == [0x2F];
    }
    QuotePlusConcat(group, "/");
    QuotePlusConcat(group + "/", project);
  }
}
