/** UTF-8 as RFC 3629 defines it, and the two byte-string conversions the
    binary-safety pass relies on: reading each byte as the code point of the same
    value (U+0000..U+00FF) and encoding it as UTF-8, and the reverse. */
module Utf8 {
  import opened ByteStrings

  predicate IsTail(b: byte) {
    0x80 <= b <= 0xBF
  }

  /** The length of the well-formed UTF-8 character at the head of `s`, following
      the UTF8-char rule of RFC 3629 section 4, or 0 when `s` does not start with one. */
  function CharLength(s: Bytes): (n: nat)
    ensures n <= |s| && n <= 4
    ensures |s| > 0 && s[0] < 0x80 ==> n == 1
  {
    if |s| == 0 then 0
    else
      var b := s[0];
      if b <= 0x7F then 1
      else if 0xC2 <= b <= 0xDF then
        (if |s| >= 2 && IsTail(s[1]) then 2 else 0)
      else if b == 0xE0 then
        (if |s| >= 3 && 0xA0 <= s[1] <= 0xBF && IsTail(s[2]) then 3 else 0)
      else if 0xE1 <= b <= 0xEC || 0xEE <= b <= 0xEF then
        (if |s| >= 3 && IsTail(s[1]) && IsTail(s[2]) then 3 else 0)
      else if b == 0xED then
        (if |s| >= 3 && 0x80 <= s[1] <= 0x9F && IsTail(s[2]) then 3 else 0)
      else if b == 0xF0 then
        (if |s| >= 4 && 0x90 <= s[1] <= 0xBF && IsTail(s[2]) && IsTail(s[3]) then 4 else 0)
      else if 0xF1 <= b <= 0xF3 then
        (if |s| >= 4 && IsTail(s[1]) && IsTail(s[2]) && IsTail(s[3]) then 4 else 0)
      else if b == 0xF4 then
        (if |s| >= 4 && 0x80 <= s[1] <= 0x8F && IsTail(s[2]) && IsTail(s[3]) then 4 else 0)
      else 0
  }

  /** `mb_check_encoding($s, 'UTF-8')`: `s` is a sequence of UTF8-char (RFC 3629 section 4). */
  predicate WellFormed(s: Bytes)
    decreases |s|
  {
    |s| == 0 || (CharLength(s) > 0 && WellFormed(s[CharLength(s)..]))
  }

  predicate IsAscii(s: Bytes) {
    forall i | 0 <= i < |s| :: s[i] < 0x80
  }

  /** The UTF-8 encoding (RFC 3629 section 3) of the code point whose value is the byte `b`. */
  function EncodeByte(b: byte): Bytes {
    if b < 0x80 then [b]
    else [(0xC0 + b as int / 64) as byte, (0x80 + b as int % 64) as byte]
  }

  /** `mb_convert_encoding($s, 'UTF-8', '8bit')`: every byte becomes the code point of the same value. */
  function Latin1ToUtf8(s: Bytes): Bytes {
    if |s| == 0 then [] else EncodeByte(s[0]) + Latin1ToUtf8(s[1..])
  }

  /** The byte mbstring writes for a code point that does not fit a byte or an ill-formed sequence: `?`. */
  const Substitute: byte := 63

  /** `mb_convert_encoding($s, '8bit', 'UTF-8')`: each well-formed character whose
      code point is at most U+00FF becomes that byte; any other character, and each
      byte that starts no well-formed character, becomes `?`. */
  function Utf8ToLatin1(s: Bytes): Bytes
    decreases |s|
  {
    if |s| == 0 then []
    else
      var n := CharLength(s);
      if n == 0 then [Substitute] + Utf8ToLatin1(s[1..])
      else if n == 1 then [s[0]] + Utf8ToLatin1(s[1..])
      else if n == 2 && s[0] <= 0xC3 then
        [((s[0] as int - 0xC0) * 64 + (s[1] as int - 0x80)) as byte] + Utf8ToLatin1(s[2..])
      else [Substitute] + Utf8ToLatin1(s[n..])
  }

  lemma EncodeByteChar(b: byte, rest: Bytes)
    ensures CharLength(EncodeByte(b) + rest) == |EncodeByte(b)|
    ensures (EncodeByte(b) + rest)[|EncodeByte(b)|..] == rest
  {
  }

  /** The escaping always produces well-formed UTF-8, so the JSON encoder accepts it. */
  lemma {:induction false} Latin1ToUtf8WellFormed(s: Bytes)
    ensures WellFormed(Latin1ToUtf8(s))
  {
    if |s| > 0 {
      Latin1ToUtf8WellFormed(s[1..]);
      EncodeByteChar(s[0], Latin1ToUtf8(s[1..]));
    }
  }

  /** Converting back recovers every byte string exactly. */
  lemma {:induction false} Latin1RoundTrip(s: Bytes)
    ensures Utf8ToLatin1(Latin1ToUtf8(s)) == s
  {
    if |s| > 0 {
      var e := EncodeByte(s[0]);
      var t := Latin1ToUtf8(s[1..]);
      EncodeByteChar(s[0], t);
      Latin1RoundTrip(s[1..]);
      assert (e + t)[|e|..] == t;
      if s[0] >= 0x80 {
        assert (e + t)[0] == e[0] && (e + t)[1] == e[1];
      }
      assert Latin1ToUtf8(s) == e + t;
    }
  }

  /** ASCII is well-formed UTF-8, so a string the pass must escape holds a byte of 0x80 or more. */
  lemma {:induction false} AsciiWellFormed(s: Bytes)
    requires IsAscii(s)
    ensures WellFormed(s)
  {
    if |s| > 0 {
      assert IsAscii(s[1..]);
      AsciiWellFormed(s[1..]);
    }
  }

  lemma {:induction false} IllFormedHasHighByte(s: Bytes) returns (i: nat)
    requires !WellFormed(s)
    ensures i < |s| && s[i] >= 0x80
  {
    if IsAscii(s) {
      AsciiWellFormed(s);
    }
    i :| 0 <= i < |s| && s[i] >= 0x80;
  }

  /** A byte of 0x80 or more survives escaping as a byte of 0x80 or more. */
  lemma {:induction false} HighByteSurvivesEscape(s: Bytes, i: nat) returns (j: nat)
    requires i < |s| && s[i] >= 0x80
    ensures j < |Latin1ToUtf8(s)| && Latin1ToUtf8(s)[j] >= 0x80
  {
    var e := EncodeByte(s[0]);
    assert Latin1ToUtf8(s) == e + Latin1ToUtf8(s[1..]);
    if i == 0 {
      j := 0;
    } else {
      var k := HighByteSurvivesEscape(s[1..], i - 1);
      j := |e| + k;
    }
  }
}
