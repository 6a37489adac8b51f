/**
 * UTF-8, the encoding `quote_plus` applies to a string before it
 * percent-encodes its bytes (section 3 of RFC 3629). `Encode` is the encoder;
 * `Decode` is an independent decoder that accepts exactly the shortest forms
 * `Encode` writes, so that `DecodeEncode` pins the encoder down.
 */
module Utf8 {
  import opened Wrappers

  newtype byte = b: int | 0 <= b < 256

  /** A continuation byte `10xxxxxx`. */
  predicate IsTrail(b: byte) {
    0x80 <= b < 0xC0
  }

  /** The six payload bits of a continuation byte holding `v`. */
  function Trail(v: nat): (b: byte)
    ensures IsTrail(b) && b as int - 0x80 == v % 64
  {
    (0x80 + v % 64) as byte
  }

  /** The bytes of one scalar value: one byte below 0x80, then two, three or four. */
  function EncodeChar(c: char): (bs: seq<byte>)
    ensures 1 <= |bs| <= 4
    ensures (|bs| == 1) == (c as int < 0x80)
    ensures |bs| == 1 ==> bs[0] as int == c as int
    ensures forall k :: 1 <= k < |bs| ==> IsTrail(bs[k])
  {
    var n := c as int;
    if n < 0x80 then [n as byte]
    else if n < 0x800 then [(0xC0 + n / 64) as byte, Trail(n)]
    else if n < 0x10000 then [(0xE0 + n / 4096) as byte, Trail(n / 64), Trail(n)]
    else [(0xF0 + n / 262144) as byte, Trail(n / 4096), Trail(n / 64), Trail(n)]
  }

  /** The UTF-8 encoding of a string: its characters' bytes one after another. */
  function Encode(s: string): (bs: seq<byte>)
    ensures |bs| >= |s|
  {
    if s == [] then [] else EncodeChar(s[0]) + Encode(s[1..])
  }

  /** A code point that a `char` can hold: below 0x110000 and not a surrogate. */
  predicate IsScalar(n: int) {
    0 <= n < 0xD800 || 0xE000 <= n < 0x11_0000
  }

  /** The value of the two-to-four-byte sequence at the front of `bs`, if it is well formed and shortest. */
  function DecodeMulti(bs: seq<byte>): (r: Option<(char, nat)>)
    requires |bs| > 0 && bs[0] >= 0x80
    ensures r.Some? ==> 2 <= r.value.1 <= |bs| && r.value.1 <= 4
  {
    var b0 := bs[0] as int;
    if 0xC2 <= b0 < 0xE0 && |bs| >= 2 && IsTrail(bs[1]) then
      var n := (b0 - 0xC0) * 64 + (bs[1] as int - 0x80);
      Some((n as char, 2))
    else if 0xE0 <= b0 < 0xF0 && |bs| >= 3 && IsTrail(bs[1]) && IsTrail(bs[2]) then
      var n := (b0 - 0xE0) * 4096 + (bs[1] as int - 0x80) * 64 + (bs[2] as int - 0x80);
      if 0x800 <= n && IsScalar(n) then Some((n as char, 3)) else None
    else if 0xF0 <= b0 < 0xF5 && |bs| >= 4 && IsTrail(bs[1]) && IsTrail(bs[2]) && IsTrail(bs[3]) then
      var n := (b0 - 0xF0) * 262144 + (bs[1] as int - 0x80) * 4096 + (bs[2] as int - 0x80) * 64 + (bs[3] as int - 0x80);
      if 0x10000 <= n < 0x11_0000 then Some((n as char, 4)) else None
    else None
  }

  /** Strict UTF-8 decoding: `None` for a truncated, overlong, surrogate or out-of-range sequence. */
  function Decode(bs: seq<byte>): Option<string>
    decreases |bs|
  {
    if bs == [] then Some([])
    else if bs[0] < 0x80 then
      match Decode(bs[1..])
      case Some(rest) => Some([bs[0] as int as char] + rest)
      case None => None
    else
      match DecodeMulti(bs)
      case None => None
      case Some((c, len)) =>
        match Decode(bs[len..])
        case Some(rest) => Some([c] + rest)
        case None => None
  }

  /** The multi-byte sequence `EncodeChar` writes reads back as the same character. */
  lemma DecodeMultiOf(c: char, rest: seq<byte>)
    requires c as int >= 0x80
    ensures DecodeMulti(EncodeChar(c) + rest) == Some((c, |EncodeChar(c)|))
  {
    var n := c as int;
    if n < 0x800 {
      DecodeTwoOf(c, rest);
    } else if n < 0x10000 {
      DecodeThreeOf(c, rest);
    } else {
      DecodeFourOf(c, rest);
    }
  }

  /** Two bytes: five payload bits in the lead byte, six in the continuation byte. */
  lemma DecodeTwoOf(c: char, rest: seq<byte>)
    requires 0x80 <= c as int < 0x800
    ensures DecodeMulti(EncodeChar(c) + rest) == Some((c, 2))
  {
    var n := c as int;
    var bs := EncodeChar(c) + rest;
    assert bs[0] as int - 0xC0 == n / 64 && bs[1] as int - 0x80 == n % 64;
    Join2(n);
  }

  /** Three bytes: four payload bits in the lead byte, then two continuation bytes. */
  lemma DecodeThreeOf(c: char, rest: seq<byte>)
    requires 0x800 <= c as int < 0x10000
    ensures DecodeMulti(EncodeChar(c) + rest) == Some((c, 3))
  {
    var n := c as int;
    var bs := EncodeChar(c) + rest;
    assert bs[0] as int - 0xE0 == n / 4096;
    assert bs[1] as int - 0x80 == (n / 64) % 64 && bs[2] as int - 0x80 == n % 64;
    Join3(n);
  }

  /** Four bytes: three payload bits in the lead byte, then three continuation bytes. */
  lemma DecodeFourOf(c: char, rest: seq<byte>)
    requires 0x10000 <= c as int
    ensures DecodeMulti(EncodeChar(c) + rest) == Some((c, 4))
  {
    var n := c as int;
    var bs := EncodeChar(c) + rest;
    assert bs[0] as int - 0xF0 == n / 262144;
    assert bs[1] as int - 0x80 == (n / 4096) % 64;
    assert bs[2] as int - 0x80 == (n / 64) % 64 && bs[3] as int - 0x80 == n % 64;
    Join4(n);
  }

  /** Six payload bits at a time, the continuation bytes put a code point back together. */
  lemma Join2(n: nat)
    ensures (n / 64) * 64 + n % 64 == n
  {
  }

  lemma Join3(n: nat)
    ensures (n / 4096) * 4096 + ((n / 64) % 64) * 64 + n % 64 == n
  {
    Join2(n);
    Join2(n / 64);
    assert n / 64 / 64 == n / 4096;
  }

  lemma Join4(n: nat)
    ensures (n / 262144) * 262144 + ((n / 4096) % 64) * 4096 + ((n / 64) % 64) * 64 + n % 64 == n
  {
    Join3(n);
    Join2(n / 4096);
    assert n / 4096 / 64 == n / 262144;
  }

  /** Decoding a character's bytes and then whatever follows. */
  lemma DecodeCons(c: char, rest: seq<byte>)
    ensures Decode(EncodeChar(c) + rest) ==
      match Decode(rest)
      case Some(r) => Some([c] + r)
      case None => None
  {
    var bs := EncodeChar(c) + rest;
    var len := |EncodeChar(c)|;
    assert bs[len..] == rest;
    if c as int >= 0x80 {
      DecodeMultiOf(c, rest);
    }
  }

  /** Decoding undoes encoding, for every string. */
  lemma {:induction false} DecodeEncode(s: string)
    ensures Decode(Encode(s)) == Some(s)
  {
    if s != [] {
      DecodeEncode(s[1..]);
      DecodeCons(s[0], Encode(s[1..]));
      assert [s[0]] + s[1..] == s;
    }
  }

  /** Encoding works character by character, so it distributes over concatenation. */
  lemma {:induction false} EncodeConcat(s: string, t: string)
    ensures Encode(s + t) == Encode(s) + Encode(t)
  {
    if s != [] {
      EncodeConcat(s[1..], t);
      assert (s + t)[1..] == s[1..] + t;
    } else {
      assert s + t == t;
    }
  }

  /** A string of ASCII characters encodes to their code points, one byte each. */
  lemma {:induction false} EncodeAscii(s: string)
    requires forall k :: 0 <= k < |s| ==> s[k] as int < 0x80
    ensures |Encode(s)| == |s|
    ensures forall k :: 0 <= k < |s| ==> Encode(s)[k] as int == s[k] as int
  {
    if s != [] {
      EncodeAscii(s[1..]);
    }
  }
}
