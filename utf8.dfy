/**
 * UTF-8 as used by `String::from_utf8` when a function's raw name is turned
 * into text. Bytes are plain integers in [0, 256); a `char` is a Unicode
 * scalar value. Well-formed byte sequences follow the grammar of section 4 of
 * RFC 3629: the decoder below accepts exactly the encodings the encoder
 * produces, and reports the offset of the first ill-formed sequence otherwise.
 */
module Utf8 {
  import opened Wrappers

  type Byte = b: int | 0 <= b < 256

  /** The error `String::from_utf8` returns: the original bytes and how far they were valid. */
  datatype FromUtf8Error = FromUtf8Error(bytes: seq<Byte>, validUpTo: nat)

  predicate IsTail(b: Byte) { 0x80 <= b <= 0xBF }

  /** Encoding of one scalar value, one to four bytes, six payload bits per continuation byte. */
  function EncodeChar(c: char): (bs: seq<Byte>)
    ensures 1 <= |bs| <= 4
    ensures (|bs| == 1) == (c as int < 0x80)
    ensures forall k :: 1 <= k < |bs| ==> IsTail(bs[k])
  {
    var cp := c as int;
    if cp < 0x80 then [cp]
    else if cp < 0x800 then [0xC0 + cp / 64, 0x80 + cp % 64]
    else if cp < 0x1_0000 then [0xE0 + cp / 64 / 64, 0x80 + cp / 64 % 64, 0x80 + cp % 64]
    else [0xF0 + cp / 64 / 64 / 64, 0x80 + cp / 64 / 64 % 64, 0x80 + cp / 64 % 64, 0x80 + cp % 64]
  }

  function Encode(s: string): (bs: seq<Byte>)
    ensures |bs| >= |s|
  {
    if s == [] then [] else EncodeChar(s[0]) + Encode(s[1..])
  }

  /** The byte sequences that are the encoding of some text. */
  ghost predicate IsUtf8(bs: seq<Byte>) {
    exists s: string :: Encode(s) == bs
  }

  /**
   * Decodes the scalar value at the front of a non-empty byte sequence and
   * says how many bytes it used, or None when the front is not one of the
   * well-formed sequences of RFC 3629 (overlong forms, surrogates and values
   * above U+10FFFF are rejected).
   */
  function DecodeFirst(bs: seq<Byte>): (r: Option<(char, nat)>)
    requires |bs| > 0
    ensures r.Some? ==> 1 <= r.value.1 <= |bs| && r.value.1 <= 4
  {
    var b0 := bs[0] as int;
    if b0 < 0x80 then
      Some((b0 as char, 1))
    else if 0xC2 <= b0 <= 0xDF then
      if |bs| >= 2 && IsTail(bs[1]) then
        Some((((b0 - 0xC0) * 64 + (bs[1] as int - 0x80)) as char, 2))
      else None
    else if 0xE0 <= b0 <= 0xEF then
      var lo := if b0 == 0xE0 then 0xA0 else 0x80;
      var hi := if b0 == 0xED then 0x9F else 0xBF;
      if |bs| >= 3 && lo <= bs[1] <= hi && IsTail(bs[2]) then
        var cp := ((b0 - 0xE0) * 64 + (bs[1] as int - 0x80)) * 64 + (bs[2] as int - 0x80);
        Some((cp as char, 3))
      else None
    else if 0xF0 <= b0 <= 0xF4 then
      var lo := if b0 == 0xF0 then 0x90 else 0x80;
      var hi := if b0 == 0xF4 then 0x8F else 0xBF;
      if |bs| >= 4 && lo <= bs[1] <= hi && IsTail(bs[2]) && IsTail(bs[3]) then
        var cp := (((b0 - 0xF0) * 64 + (bs[1] as int - 0x80)) * 64 + (bs[2] as int - 0x80)) * 64 + (bs[3] as int - 0x80);
        Some((cp as char, 4))
      else None
    else
      None
  }

  /**
   * `String::from_utf8`: the decoded text, or an error carrying the bytes and
   * the offset at which the first ill-formed sequence starts.
   */
  function Decode(bs: seq<Byte>): (r: Result<string, FromUtf8Error>)
    ensures r.Failure? ==> r.error.bytes == bs && r.error.validUpTo < |bs|
    decreases |bs|
  {
    if bs == [] then Success([])
    else match DecodeFirst(bs)
      case None => Failure(FromUtf8Error(bs, 0))
      case Some((c, n)) =>
        match Decode(bs[n..])
        case Success(s) => Success([c] + s)
        case Failure(e) => Failure(FromUtf8Error(bs, e.validUpTo + n))
  }

  lemma DivMod64(x: int, lo: int)
    requires 0 <= lo < 64
    ensures (x * 64 + lo) / 64 == x && (x * 64 + lo) % 64 == lo
  {
  }

  lemma DecodeFirstOfEncodeChar(c: char, rest: seq<Byte>)
    ensures DecodeFirst(EncodeChar(c) + rest) == Some((c, |EncodeChar(c)|))
  {
    var cp := c as int;
    var bs := EncodeChar(c) + rest;
    if cp < 0x80 {
    } else if cp < 0x800 {
      DecodeFirstOfEncode2(cp, bs);
    } else if cp < 0x1_0000 {
      DecodeFirstOfEncode3(cp, bs);
    } else {
      DecodeFirstOfEncode4(cp, bs);
    }
  }

  lemma DecodeFirstOfEncode2(cp: int, bs: seq<Byte>)
    requires 0x80 <= cp < 0x800 && |bs| >= 2
    requires bs[0] == 0xC0 + cp / 64 && bs[1] == 0x80 + cp % 64
    ensures DecodeFirst(bs) == Some((cp as char, 2))
  {
  }

  lemma DecodeFirstOfEncode3(cp: int, bs: seq<Byte>)
    requires 0x800 <= cp < 0x1_0000 && !(0xD800 <= cp < 0xE000) && |bs| >= 3
    requires bs[0] == 0xE0 + cp / 64 / 64 && bs[1] == 0x80 + cp / 64 % 64 && bs[2] == 0x80 + cp % 64
    ensures DecodeFirst(bs) == Some((cp as char, 3))
  {
    var hi := cp / 64;
    assert cp == hi * 64 + cp % 64;
    assert hi == hi / 64 * 64 + hi % 64;
    assert bs[0] == 0xE0 ==> hi >= 32;
    assert bs[0] == 0xED ==> hi < 0x360;
  }

  lemma DecodeFirstOfEncode4(cp: int, bs: seq<Byte>)
    requires 0x1_0000 <= cp < 0x11_0000 && |bs| >= 4
    requires bs[0] == 0xF0 + cp / 64 / 64 / 64 && bs[1] == 0x80 + cp / 64 / 64 % 64
    requires bs[2] == 0x80 + cp / 64 % 64 && bs[3] == 0x80 + cp % 64
    ensures DecodeFirst(bs) == Some((cp as char, 4))
  {
    var hi := cp / 64;
    var mid := hi / 64;
    assert cp == hi * 64 + cp % 64;
    assert hi == mid * 64 + hi % 64;
    assert mid == mid / 64 * 64 + mid % 64;
    assert bs[0] == 0xF0 ==> mid >= 16;
    assert bs[0] == 0xF4 ==> mid < 0x110;
  }

  lemma EncodeCharOfDecodeFirst(bs: seq<Byte>)
    requires |bs| > 0 && DecodeFirst(bs).Some?
    ensures EncodeChar(DecodeFirst(bs).value.0) == bs[..DecodeFirst(bs).value.1]
  {
    var n := DecodeFirst(bs).value.1;
    if n == 2 {
      EncodeCharOfDecoded2(bs);
    } else if n == 3 {
      EncodeCharOfDecoded3(bs);
    } else if n == 4 {
      EncodeCharOfDecoded4(bs);
    }
  }

  lemma EncodeCharOfDecoded2(bs: seq<Byte>)
    requires |bs| > 0 && DecodeFirst(bs).Some? && DecodeFirst(bs).value.1 == 2
    ensures EncodeChar(DecodeFirst(bs).value.0) == bs[..2]
  {
    DivMod64(bs[0] as int - 0xC0, bs[1] as int - 0x80);
  }

  lemma EncodeCharOfDecoded3(bs: seq<Byte>)
    requires |bs| > 0 && DecodeFirst(bs).Some? && DecodeFirst(bs).value.1 == 3
    ensures EncodeChar(DecodeFirst(bs).value.0) == bs[..3]
  {
    var top := bs[0] as int - 0xE0;
    var hi := top * 64 + (bs[1] as int - 0x80);
    DivMod64(hi, bs[2] as int - 0x80);
    DivMod64(top, bs[1] as int - 0x80);
  }

  lemma EncodeCharOfDecoded4(bs: seq<Byte>)
    requires |bs| > 0 && DecodeFirst(bs).Some? && DecodeFirst(bs).value.1 == 4
    ensures EncodeChar(DecodeFirst(bs).value.0) == bs[..4]
  {
    var top := bs[0] as int - 0xF0;
    var mid := top * 64 + (bs[1] as int - 0x80);
    var hi := mid * 64 + (bs[2] as int - 0x80);
    DivMod64(hi, bs[3] as int - 0x80);
    DivMod64(mid, bs[2] as int - 0x80);
    DivMod64(top, bs[1] as int - 0x80);
  }

  /** The first scalar value is decided by the bytes it uses and by nothing after them. */
  lemma DecodeFirstPrefix(bs: seq<Byte>, m: nat)
    requires |bs| > 0 && DecodeFirst(bs).Some? && DecodeFirst(bs).value.1 <= m <= |bs|
    ensures DecodeFirst(bs[..m]) == DecodeFirst(bs)
  {
    var n := DecodeFirst(bs).value.1;
    var pre := bs[..m];
    assert forall k :: 0 <= k < n ==> pre[k] == bs[k];
  }

  /** Round trip: decoding an encoding gives the text back. */
  lemma {:induction false} DecodeEncode(s: string)
    ensures Decode(Encode(s)) == Success(s)
  {
    if s != [] {
      var head := EncodeChar(s[0]);
      var tail := Encode(s[1..]);
      DecodeFirstOfEncodeChar(s[0], tail);
      assert (head + tail)[|head|..] == tail;
      DecodeEncode(s[1..]);
      assert [s[0]] + s[1..] == s;
    }
  }

  /** A successful decoding is the first scalar value followed by the decoding of the rest. */
  lemma DecodeStep(bs: seq<Byte>)
    requires bs != [] && Decode(bs).Success?
    ensures DecodeFirst(bs).Some?
    ensures var n := DecodeFirst(bs).value.1;
            Decode(bs[n..]).Success? && Decode(bs).value == [DecodeFirst(bs).value.0] + Decode(bs[n..]).value
  {
  }

  /** Encoding a string with a first character encodes that character, then the rest. */
  lemma EncodeCons(c: char, tail: string)
    ensures Encode([c] + tail) == EncodeChar(c) + Encode(tail)
  {
    assert ([c] + tail)[0] == c && ([c] + tail)[1..] == tail;
  }

  lemma SplitBytes(bs: seq<Byte>, n: nat)
    requires n <= |bs|
    ensures bs[..n] + bs[n..] == bs
  {
  }

  /** Soundness: whatever decodes successfully is the encoding of what it decodes to. */
  lemma {:induction false} EncodeDecode(bs: seq<Byte>)
    requires Decode(bs).Success?
    ensures Encode(Decode(bs).value) == bs
    decreases |bs|
  {
    if bs != [] {
      DecodeStep(bs);
      var (c, n) := DecodeFirst(bs).value;
      var tail := Decode(bs[n..]).value;
      EncodeCharOfDecodeFirst(bs);
      EncodeDecode(bs[n..]);
      EncodeCons(c, tail);
      SplitBytes(bs, n);
    }
  }

  /** `String::from_utf8` fails exactly on byte sequences that encode no text. */
  lemma DecodeSucceedsIff(bs: seq<Byte>)
    ensures Decode(bs).Success? <==> IsUtf8(bs)
  {
    if Decode(bs).Success? {
      EncodeDecode(bs);
    }
    if IsUtf8(bs) {
      var s :| Encode(s) == bs;
      DecodeEncode(s);
    }
  }

  /** On failure, the bytes before `validUpTo` are well-formed UTF-8. */
  lemma {:induction false} ValidUpToIsValid(bs: seq<Byte>)
    requires Decode(bs).Failure?
    ensures Decode(bs[..Decode(bs).error.validUpTo]).Success?
    decreases |bs|
  {
    var k := Decode(bs).error.validUpTo;
    if DecodeFirst(bs).Some? {
      var (c, n) := DecodeFirst(bs).value;
      var rest := bs[n..];
      ValidUpToIsValid(rest);
      var j := Decode(rest).error.validUpTo;
      assert k == j + n;
      var pre := bs[..k];
      DecodeFirstPrefix(bs, k);
      assert pre[n..] == rest[..j];
    }
  }

  /** A scalar value accepted at the front of a prefix is accepted at the front of the whole sequence. */
  lemma DecodeFirstExtend(bs: seq<Byte>, m: nat)
    requires 0 < m <= |bs| && DecodeFirst(bs[..m]).Some?
    ensures DecodeFirst(bs) == DecodeFirst(bs[..m])
  {
    var pre := bs[..m];
    var n := DecodeFirst(pre).value.1;
    assert forall k :: 0 <= k < n ==> pre[k] == bs[k];
  }

  /**
   * `validUpTo` is the longest valid prefix: every longer prefix of the bytes,
   * up to the whole sequence, fails to decode.
   */
  lemma {:induction false} ValidUpToIsMaximal(bs: seq<Byte>, m: nat)
    requires Decode(bs).Failure? && Decode(bs).error.validUpTo < m <= |bs|
    ensures Decode(bs[..m]).Failure?
    decreases |bs|
  {
    var pre := bs[..m];
    if DecodeFirst(bs).Some? {
      var (c, n) := DecodeFirst(bs).value;
      var rest := bs[n..];
      assert Decode(rest).Failure?;
      var j := Decode(rest).error.validUpTo;
      assert Decode(bs).error.validUpTo == j + n;
      DecodeFirstPrefix(bs, m);
      assert pre[n..] == rest[..m - n];
      ValidUpToIsMaximal(rest, m - n);
    } else if DecodeFirst(pre).Some? {
      DecodeFirstExtend(bs, m);
      assert false;
    }
  }
}
