/**
  Byte-to-text decoding as `_decode_text` performs it: Python's strict
  `bytes.decode("utf-8")`, with `bytes.decode("latin-1")` as the fallback.
  The UTF-8 decoder accepts exactly the well-formed byte sequences of
  Table 3-7 of the Unicode Standard (no overlong forms, no surrogates,
  nothing above U+10FFFF), as CPython's strict decoder does.
 */
module Codec {
  import opened Wrappers

  type Byte = x: int | 0 <= x < 256

  predicate IsContinuation(b: Byte) {
    0x80 <= b <= 0xBF
  }

  /** Allowed range of the second byte of a three-byte sequence led by `b0`. */
  function SecondOf3(b0: Byte): (Byte, Byte) {
    if b0 == 0xE0 then (0xA0, 0xBF) else if b0 == 0xED then (0x80, 0x9F) else (0x80, 0xBF)
  }

  /** Allowed range of the second byte of a four-byte sequence led by `b0`. */
  function SecondOf4(b0: Byte): (Byte, Byte) {
    if b0 == 0xF0 then (0x90, 0xBF) else if b0 == 0xF4 then (0x80, 0x8F) else (0x80, 0xBF)
  }

  /** Decodes the scalar value at the front of `s` together with the number
      of bytes it occupies, or `None` when `s` does not start with a
      well-formed sequence. */
  function DecodeFirst(s: seq<Byte>): (r: Option<(char, nat)>)
    requires |s| > 0
    ensures r.Some? ==> 1 <= r.value.1 <= |s|
  {
    var b0: int := s[0];
    if b0 <= 0x7F then
      Some((b0 as char, 1))
    else if 0xC2 <= b0 <= 0xDF then
      if |s| >= 2 && IsContinuation(s[1]) then
        Some((((b0 - 0xC0) * 64 + (s[1] as int - 0x80)) as char, 2))
      else None
    else if 0xE0 <= b0 <= 0xEF then
      var (lo, hi) := SecondOf3(b0);
      if |s| >= 3 && lo <= s[1] <= hi && IsContinuation(s[2]) then
        Some((((b0 - 0xE0) * 4096 + (s[1] as int - 0x80) * 64 + (s[2] as int - 0x80)) as char, 3))
      else None
    else if 0xF0 <= b0 <= 0xF4 then
      var (lo, hi) := SecondOf4(b0);
      if |s| >= 4 && lo <= s[1] <= hi && IsContinuation(s[2]) && IsContinuation(s[3]) then
        Some((((b0 - 0xF0) * 262144 + (s[1] as int - 0x80) * 4096 + (s[2] as int - 0x80) * 64 + (s[3] as int - 0x80)) as char, 4))
      else None
    else
      None
  }

  /** `bytes.decode("utf-8")`: `None` stands for `UnicodeDecodeError`. */
  function DecodeUtf8(s: seq<Byte>): (r: Option<string>)
    ensures r.Some? ==> |r.value| <= |s|
    ensures r.Some? && s != [] ==> r.value != []
    decreases |s|
  {
    if s == [] then Some([])
    else
      match DecodeFirst(s)
      case None => None
      case Some((c, n)) =>
        match DecodeUtf8(s[n..])
        case None => None
        case Some(rest) => Some([c] + rest)
  }

  /** The UTF-8 encoding of one scalar value. */
  function EncodeChar(c: char): (b: seq<Byte>)
    ensures 1 <= |b| <= 4
  {
    var cp := c as int;
    if cp < 0x80 then [cp]
    else if cp < 0x800 then [0xC0 + cp / 64, 0x80 + cp % 64]
    else if cp < 0x10000 then [0xE0 + cp / 4096, 0x80 + (cp / 64) % 64, 0x80 + cp % 64]
    else [0xF0 + cp / 262144, 0x80 + (cp / 4096) % 64, 0x80 + (cp / 64) % 64, 0x80 + cp % 64]
  }

  /** `s.encode("utf-8")`. */
  function EncodeUtf8(s: string): seq<Byte>
  {
    if s == [] then [] else EncodeChar(s[0]) + EncodeUtf8(s[1..])
  }

  /** Decoding the front of an encoded character gives the character back. */
  lemma DecodeFirstEncodeChar(c: char, rest: seq<Byte>)
    ensures DecodeFirst(EncodeChar(c) + rest) == Some((c, |EncodeChar(c)|))
  {
    var cp := c as int;
    if cp < 0x80 {
    } else if cp < 0x800 {
      DecodeFirstEncodeChar2(c, rest);
    } else if cp < 0x10000 {
      DecodeFirstEncodeChar3(c, rest);
    } else {
      DecodeFirstEncodeChar4(c, rest);
    }
  }

  /** Dividing by 4096 or 262144 is dividing by 64 repeatedly. */
  lemma NestedDivision(cp: nat)
    ensures cp / 4096 == cp / 64 / 64
    ensures cp / 262144 == cp / 4096 / 64
  {
    var q1 := cp / 64;
    var q2 := q1 / 64;
    var q3 := q2 / 64;
    assert cp == q2 * 4096 + (q1 % 64) * 64 + cp % 64;
    DivMod4096(q2, (q1 % 64) * 64 + cp % 64);
    assert cp == q3 * 262144 + (q2 % 64) * 4096 + (q1 % 64) * 64 + cp % 64;
    DivMod262144(q3, (q2 % 64) * 4096 + (q1 % 64) * 64 + cp % 64);
  }

  lemma DecodeFirstEncodeChar2(c: char, rest: seq<Byte>)
    requires 0x80 <= c as int < 0x800
    ensures DecodeFirst(EncodeChar(c) + rest) == Some((c, 2))
  {
    var cp := c as int;
    var d0, d1 := cp / 64, cp % 64;
    assert cp == d0 * 64 + d1;
    var s := EncodeChar(c) + rest;
    assert s[0] == 0xC0 + d0 && s[1] == 0x80 + d1;
  }

  lemma DecodeFirstEncodeChar3(c: char, rest: seq<Byte>)
    requires 0x800 <= c as int < 0x10000
    ensures DecodeFirst(EncodeChar(c) + rest) == Some((c, 3))
  {
    var cp := c as int;
    NestedDivision(cp);
    var q1 := cp / 64;
    var d0, d1, d2 := q1 / 64, q1 % 64, cp % 64;
    assert cp == q1 * 64 + d2;
    assert q1 == d0 * 64 + d1;
    assert cp == d0 * 4096 + d1 * 64 + d2;
    var s := EncodeChar(c) + rest;
    assert s[0] == 0xE0 + d0 && s[1] == 0x80 + d1 && s[2] == 0x80 + d2;
    assert d0 == 0 ==> d1 >= 32;
    assert d0 == 13 ==> d1 < 32;
  }

  lemma DecodeFirstEncodeChar4(c: char, rest: seq<Byte>)
    requires 0x10000 <= c as int
    ensures DecodeFirst(EncodeChar(c) + rest) == Some((c, 4))
  {
    var cp := c as int;
    NestedDivision(cp);
    var q1 := cp / 64;
    var q2 := q1 / 64;
    var d0, d1, d2, d3 := q2 / 64, q2 % 64, q1 % 64, cp % 64;
    assert cp == q1 * 64 + d3;
    assert q1 == q2 * 64 + d2;
    assert q2 == d0 * 64 + d1;
    assert cp == d0 * 262144 + d1 * 4096 + d2 * 64 + d3;
    var s := EncodeChar(c) + rest;
    assert s[0] == 0xF0 + d0 && s[1] == 0x80 + d1 && s[2] == 0x80 + d2 && s[3] == 0x80 + d3;
    assert d0 == 0 ==> d1 >= 16;
    assert d0 == 4 ==> d1 < 16;
  }

  /** Every string survives a UTF-8 round trip. */
  lemma {:induction false} DecodeEncodeUtf8(s: string)
    ensures DecodeUtf8(EncodeUtf8(s)) == Some(s)
    decreases |s|
  {
    if s != [] {
      var e := EncodeChar(s[0]);
      var tail := EncodeUtf8(s[1..]);
      DecodeFirstEncodeChar(s[0], tail);
      assert (e + tail)[|e|..] == tail;
      DecodeEncodeUtf8(s[1..]);
      assert s == [s[0]] + s[1..];
    }
  }

  lemma DivMod64(q: int, r: int)
    requires 0 <= r < 64
    ensures (q * 64 + r) / 64 == q && (q * 64 + r) % 64 == r
  {
  }

  lemma DivMod4096(q: int, r: int)
    requires 0 <= r < 4096
    ensures (q * 4096 + r) / 4096 == q
  {
  }

  lemma DivMod262144(q: int, r: int)
    requires 0 <= r < 262144
    ensures (q * 262144 + r) / 262144 == q
  {
  }

  /** A well-formed sequence is the encoding of the scalar value it decodes to. */
  lemma EncodeCharDecodeFirst(s: seq<Byte>)
    requires |s| > 0 && DecodeFirst(s).Some?
    ensures EncodeChar(DecodeFirst(s).value.0) == s[..DecodeFirst(s).value.1]
  {
    if s[0] >= 0xF0 {
      EncodeCharDecodeFirst4(s);
    } else if s[0] >= 0xE0 {
      EncodeCharDecodeFirst3(s);
    } else if s[0] >= 0xC2 {
      EncodeCharDecodeFirst2(s);
    }
  }

  lemma EncodeCharDecodeFirst2(s: seq<Byte>)
    requires |s| > 0 && DecodeFirst(s).Some? && 0xC2 <= s[0] <= 0xDF
    ensures EncodeChar(DecodeFirst(s).value.0) == s[..2]
  {
    var b0, b1: int := s[0], s[1];
    var cp := (b0 - 0xC0) * 64 + (b1 - 0x80);
    assert DecodeFirst(s).value.0 as int == cp;
    DivMod64(b0 - 0xC0, b1 - 0x80);
  }

  lemma EncodeCharDecodeFirst3(s: seq<Byte>)
    requires |s| > 0 && DecodeFirst(s).Some? && 0xE0 <= s[0] <= 0xEF
    ensures EncodeChar(DecodeFirst(s).value.0) == s[..3]
  {
    var b0, b1, b2: int := s[0], s[1], s[2];
    var hi := (b0 - 0xE0) * 64 + (b1 - 0x80);
    var cp := hi * 64 + (b2 - 0x80);
    assert DecodeFirst(s).value.0 as int == cp;
    DivMod64(hi, b2 - 0x80);
    DivMod64(b0 - 0xE0, b1 - 0x80);
    DivMod4096(b0 - 0xE0, (b1 - 0x80) * 64 + (b2 - 0x80));
  }

  lemma EncodeCharDecodeFirst4(s: seq<Byte>)
    requires |s| > 0 && DecodeFirst(s).Some? && 0xF0 <= s[0]
    ensures EncodeChar(DecodeFirst(s).value.0) == s[..4]
  {
    var b0, b1, b2, b3: int := s[0], s[1], s[2], s[3];
    var top := (b0 - 0xF0) * 64 + (b1 - 0x80);
    var mid := top * 64 + (b2 - 0x80);
    var cp := mid * 64 + (b3 - 0x80);
    assert DecodeFirst(s).value.0 as int == cp;
    DivMod64(mid, b3 - 0x80);
    DivMod64(top, b2 - 0x80);
    DivMod64(b0 - 0xF0, b1 - 0x80);
    DivMod4096(top, (b2 - 0x80) * 64 + (b3 - 0x80));
    DivMod262144(b0 - 0xF0, (b1 - 0x80) * 4096 + (b2 - 0x80) * 64 + (b3 - 0x80));
  }

  /** Valid UTF-8 is the encoding of what it decodes to: the decoder loses nothing. */
  lemma {:induction false} EncodeDecodeUtf8(b: seq<Byte>)
    requires DecodeUtf8(b).Some?
    ensures EncodeUtf8(DecodeUtf8(b).value) == b
    decreases |b|
  {
    if b != [] {
      var n := DecodeFirst(b).value.1;
      EncodeCharDecodeFirst(b);
      EncodeDecodeUtf8(b[n..]);
      assert b == b[..n] + b[n..];
    }
  }

  /** `bytes.decode("latin-1")`: every byte becomes the character with the same code point. */
  function DecodeLatin1(b: seq<Byte>): (s: string)
    ensures |s| == |b|
  {
    seq(|b|, i requires 0 <= i < |b| => b[i] as char)
  }

  /** The inverse of `DecodeLatin1` on the characters it can produce. */
  function EncodeLatin1(s: string): seq<int>
  {
    seq(|s|, i requires 0 <= i < |s| => s[i] as int)
  }

  /** The Latin-1 fallback preserves every byte. */
  lemma Latin1Lossless(b: seq<Byte>)
    ensures EncodeLatin1(DecodeLatin1(b)) == b
  {
  }

  /** On ASCII bytes the UTF-8 decoding and the Latin-1 decoding agree. */
  lemma {:induction false} AsciiDecodesAlike(b: seq<Byte>)
    requires forall i | 0 <= i < |b| :: b[i] < 0x80
    ensures DecodeUtf8(b) == Some(DecodeLatin1(b))
    decreases |b|
  {
    if b != [] {
      AsciiDecodesAlike(b[1..]);
      assert DecodeLatin1(b) == [b[0] as char] + DecodeLatin1(b[1..]);
    }
  }

  /** `_decode_text`: UTF-8 when the bytes are valid UTF-8, Latin-1 otherwise. Never fails. */
  function DecodeText(b: seq<Byte>): (s: string)
    ensures DecodeUtf8(b).Some? ==> EncodeUtf8(s) == b
    ensures DecodeUtf8(b).None? ==> EncodeLatin1(s) == b
  {
    match DecodeUtf8(b)
    case Some(text) =>
      EncodeDecodeUtf8(b);
      text
    case None =>
      Latin1Lossless(b);
      DecodeLatin1(b)
  }

  /** Text that arrived UTF-8 encoded is decoded to exactly that text. */
  lemma DecodeTextOfUtf8(s: string)
    ensures DecodeText(EncodeUtf8(s)) == s
  {
    DecodeEncodeUtf8(s);
  }

  /** The fallback makes `_decode_text` lossy as a whole: the valid UTF-8 bytes
      C3 A9 and the invalid byte E9 both decode to "é". */
  lemma DecodeTextNotInjective()
    ensures DecodeText([0xC3, 0xA9]) == DecodeText([0xE9]) == "\U{E9}"
  {
    assert DecodeFirst([0xE9]).None?;
    assert DecodeUtf8([0xE9]).None?;
    assert DecodeFirst([0xC3, 0xA9]) == Some(('\U{E9}', 2));
    var b: seq<Byte> := [0xC3, 0xA9];
    assert DecodeFirst(b) == Some(('\U{E9}', 2));
    assert b[2..] == [];
    assert DecodeUtf8(b[2..]) == Some([]);
    assert DecodeUtf8(b) == Some(['\U{E9}'] + []);
    assert ['\U{E9}'] + [] == "\U{E9}";
  }
}
