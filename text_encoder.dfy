/**
 * The `TextEncoder` API that the bridge installs into the script context:
 * encoding a string's Unicode scalars as UTF-8 (section 3 of RFC 3629), and
 * the matching decoder (the byte syntax of section 4 of RFC 3629) that turns
 * a response body back into a string.
 */
module TextEncoding {
  import opened Wrappers

  type Byte = b: int | 0 <= b < 256

  predicate IsAscii(c: char) {
    (c as int) < 0x80
  }

  /** The UTF-8 bytes of one scalar, after the table in section 3 of RFC 3629. */
  function EncodeScalar(c: char): (r: seq<Byte>)
    ensures 1 <= |r| <= 4
    ensures IsAscii(c) <==> |r| == 1
    ensures IsAscii(c) ==> r[0] == c as int
    ensures !IsAscii(c) ==> forall i :: 0 <= i < |r| ==> r[i] >= 0x80
  {
    var x := c as int;
    if x < 0x80 then [x]
    else if x < 0x800 then [0xC0 + x / 64, 0x80 + x % 64]
    else if x < 0x10000 then [0xE0 + x / 64 / 64, 0x80 + x / 64 % 64, 0x80 + x % 64]
    else [0xF0 + x / 64 / 64 / 64, 0x80 + x / 64 / 64 % 64, 0x80 + x / 64 % 64, 0x80 + x % 64]
  }

  /** `Array(input.utf8)`: the concatenated encodings of the scalars of `s`. */
  function Utf8Encode(s: string): seq<Byte>
  {
    if s == [] then [] else EncodeScalar(s[0]) + Utf8Encode(s[1..])
  }

  predicate InRange(b: Byte, lo: int, hi: int) {
    lo <= b <= hi
  }

  predicate IsContinuation(b: Byte) {
    InRange(b, 0x80, 0xBF)
  }

  /**
   * The length of the well-formed UTF-8 sequence that starts `b`, or 0 when
   * `b` does not start with one (the `UTF8-char` rule of RFC 3629 section 4,
   * which excludes overlong forms, surrogates and values above U+10FFFF).
   */
  function SequenceLength(b: seq<Byte>): (n: nat)
    requires |b| > 0
    ensures n <= 4 && n <= |b|
  {
    var b0 := b[0];
    if b0 < 0x80 then 1
    else if InRange(b0, 0xC2, 0xDF) then
      if |b| >= 2 && IsContinuation(b[1]) then 2 else 0
    else if InRange(b0, 0xE0, 0xEF) then
      var lo := if b0 == 0xE0 then 0xA0 else 0x80;
      var hi := if b0 == 0xED then 0x9F else 0xBF;
      if |b| >= 3 && InRange(b[1], lo, hi) && IsContinuation(b[2]) then 3 else 0
    else if InRange(b0, 0xF0, 0xF4) then
      var lo := if b0 == 0xF0 then 0x90 else 0x80;
      var hi := if b0 == 0xF4 then 0x8F else 0xBF;
      if |b| >= 4 && InRange(b[1], lo, hi) && IsContinuation(b[2]) && IsContinuation(b[3]) then 4 else 0
    else 0
  }

  /** The scalar value carried by the well-formed sequence at the start of `b`. */
  function ScalarAt(b: seq<Byte>): (c: char)
    requires |b| > 0 && SequenceLength(b) > 0
  {
    var n := SequenceLength(b);
    var b0: int := b[0];
    var x: int :=
      if n == 1 then b0
      else if n == 2 then Join2(b0 - 0xC0, b[1] - 0x80)
      else if n == 3 then Join2(Join2(b0 - 0xE0, b[1] - 0x80), b[2] - 0x80)
      else Join2(Join2(Join2(b0 - 0xF0, b[1] - 0x80), b[2] - 0x80), b[3] - 0x80);
    x as char
  }

  /** Appends six low bits to a value. */
  function Join2(high: int, low: int): int {
    high * 64 + low
  }

  /** `String(data:, encoding: .utf8)`: the decoded scalars, or nothing for ill-formed input. */
  function Utf8Decode(b: seq<Byte>): Option<string>
    decreases |b|
  {
    if b == [] then Some([])
    else
      var n := SequenceLength(b);
      if n == 0 then None
      else
        match Utf8Decode(b[n..])
        case None => None
        case Some(rest) => Some([ScalarAt(b)] + rest)
  }

  lemma {:induction false} EncodeAppend(a: string, b: string)
    ensures Utf8Encode(a + b) == Utf8Encode(a) + Utf8Encode(b)
  {
    if a == [] {
      assert a + b == b;
    } else {
      assert (a + b)[1..] == a[1..] + b;
      EncodeAppend(a[1..], b);
    }
  }

  lemma {:induction false} EncodeLength(s: string)
    ensures |s| <= |Utf8Encode(s)| <= 4 * |s|
  {
    if s != [] {
      EncodeLength(s[1..]);
    }
  }

  /** An all-ASCII string encodes to its code points, one byte each. */
  lemma {:induction false} EncodeAscii(s: string)
    requires forall i :: 0 <= i < |s| ==> IsAscii(s[i])
    ensures |Utf8Encode(s)| == |s|
    ensures forall i :: 0 <= i < |s| ==> Utf8Encode(s)[i] == s[i] as int
  {
    if s != [] {
      EncodeAscii(s[1..]);
    }
  }

  function AsciiCount(s: string): nat
  {
    if s == [] then 0 else (if IsAscii(s[0]) then 1 else 0) + AsciiCount(s[1..])
  }

  function LowByteCount(b: seq<Byte>): nat
  {
    if b == [] then 0 else (if b[0] < 0x80 then 1 else 0) + LowByteCount(b[1..])
  }

  lemma {:induction false} LowByteCountAppend(a: seq<Byte>, b: seq<Byte>)
    ensures LowByteCount(a + b) == LowByteCount(a) + LowByteCount(b)
  {
    if a == [] {
      assert a + b == b;
    } else {
      assert (a + b)[1..] == a[1..] + b;
      LowByteCountAppend(a[1..], b);
    }
  }

  /** Every byte below 0x80 in the output stands for exactly one ASCII scalar of the input. */
  lemma {:induction false} LowBytesAreAscii(s: string)
    ensures LowByteCount(Utf8Encode(s)) == AsciiCount(s)
  {
    if s != [] {
      var e := EncodeScalar(s[0]);
      LowByteCountAppend(e, Utf8Encode(s[1..]));
      LowBytesAreAscii(s[1..]);
      if IsAscii(s[0]) {
        assert e == [s[0] as int];
        assert LowByteCount(e) == 1 by { assert e[1..] == []; }
      } else {
        NoLowBytes(e);
      }
    }
  }

  lemma {:induction false} NoLowBytes(b: seq<Byte>)
    requires forall i :: 0 <= i < |b| ==> b[i] >= 0x80
    ensures LowByteCount(b) == 0
  {
    if b != [] {
      NoLowBytes(b[1..]);
    }
  }

  lemma DivMod64(q: int, r: int)
    requires 0 <= r < 64
    ensures Join2(q, r) / 64 == q && Join2(q, r) % 64 == r
  {
  }

  lemma Split64(x: int)
    ensures x == Join2(x / 64, x % 64) && 0 <= x % 64 < 64
  {
  }

  /** Decoding the encoding of one scalar, followed by anything, reads that scalar back. */
  lemma DecodeScalarPrefix(c: char, rest: seq<Byte>)
    ensures var b := EncodeScalar(c) + rest;
      SequenceLength(b) == |EncodeScalar(c)| && ScalarAt(b) == c
  {
    var x := c as int;
    var b := EncodeScalar(c) + rest;
    Split64(x);
    Split64(x / 64);
    Split64(x / 64 / 64);
    if x < 0x80 {
    } else if x < 0x800 {
      assert b[0] == 0xC0 + x / 64 && b[1] == 0x80 + x % 64;
    } else if x < 0x10000 {
      assert b[0] == 0xE0 + x / 64 / 64 && b[1] == 0x80 + x / 64 % 64 && b[2] == 0x80 + x % 64;
      assert x < 0xD800 || 0xE000 <= x;
    } else {
      assert b[0] == 0xF0 + x / 64 / 64 / 64 && b[1] == 0x80 + x / 64 / 64 % 64;
      assert b[2] == 0x80 + x / 64 % 64 && b[3] == 0x80 + x % 64;
    }
  }

  /** Decoding the UTF-8 output gives back the input scalars. */
  lemma {:induction false} DecodeEncode(s: string)
    ensures Utf8Decode(Utf8Encode(s)) == Some(s)
  {
    if s != [] {
      var e := EncodeScalar(s[0]);
      var b := Utf8Encode(s);
      assert b == e + Utf8Encode(s[1..]);
      DecodeScalarPrefix(s[0], Utf8Encode(s[1..]));
      assert b[|e|..] == Utf8Encode(s[1..]);
      DecodeEncode(s[1..]);
      assert s == [s[0]] + s[1..];
    }
  }

  /** A well-formed sequence is the encoding of the scalar it carries. */
  lemma EncodeScalarAt(b: seq<Byte>)
    requires |b| > 0 && SequenceLength(b) > 0
    ensures EncodeScalar(ScalarAt(b)) == b[..SequenceLength(b)]
  {
    var n := SequenceLength(b);
    var x := ScalarAt(b) as int;
    var b0: int := b[0];
    if n == 2 {
      DivMod64(b0 - 0xC0, b[1] - 0x80);
    } else if n == 3 {
      var q := Join2(b0 - 0xE0, b[1] - 0x80);
      DivMod64(q, b[2] - 0x80);
      DivMod64(b0 - 0xE0, b[1] - 0x80);
    } else if n == 4 {
      var q1 := Join2(b0 - 0xF0, b[1] - 0x80);
      var q2 := Join2(q1, b[2] - 0x80);
      DivMod64(q2, b[3] - 0x80);
      DivMod64(q1, b[2] - 0x80);
      DivMod64(b0 - 0xF0, b[1] - 0x80);
    }
  }

  /** One step of a successful decode: a well-formed sequence, then a decodable rest. */
  lemma DecodeStep(b: seq<Byte>)
    requires b != [] && Utf8Decode(b).Some?
    ensures SequenceLength(b) > 0
    ensures Utf8Decode(b[SequenceLength(b)..]).Some?
    ensures Utf8Decode(b).value == [ScalarAt(b)] + Utf8Decode(b[SequenceLength(b)..]).value
  {
  }

  lemma EncodeCons(c: char, rest: string)
    ensures Utf8Encode([c] + rest) == EncodeScalar(c) + Utf8Encode(rest)
  {
    assert ([c] + rest)[0] == c && ([c] + rest)[1..] == rest;
  }

  /** A scalar encoded as the first `n` bytes, followed by a string encoded as the rest, encodes back to the bytes. */
  lemma Reassemble(b: seq<Byte>, n: nat, c: char, rest: string)
    requires 0 < n <= |b|
    requires EncodeScalar(c) == b[..n]
    requires Utf8Encode(rest) == b[n..]
    ensures Utf8Encode([c] + rest) == b
  {
    EncodeCons(c, rest);
    assert b == b[..n] + b[n..];
  }

  /** Whatever decodes re-encodes to the same bytes: decoding rejects exactly the ill-formed input. */
  lemma {:induction false} EncodeDecode(b: seq<Byte>)
    requires Utf8Decode(b).Some?
    ensures Utf8Encode(Utf8Decode(b).value) == b
  {
    if b != [] {
      DecodeStep(b);
      var n := SequenceLength(b);
      var tail := b[n..];
      EncodeDecode(tail);
      EncodeScalarAt(b);
      Reassemble(b, n, ScalarAt(b), Utf8Decode(tail).value);
    }
  }

  /** The object installed as `TextEncoder` in the script context. */
  class TextEncoder {
    var encoding: string

    constructor ()
      ensures encoding == "utf-8"
    {
      encoding := "utf-8";
    }

    /** `encode(_:)`: the UTF-8 bytes of `input`. */
    method Encode(input: string) returns (bytes: seq<Byte>)
      ensures bytes == Utf8Encode(input)
      ensures Utf8Decode(bytes) == Some(input)
      ensures |input| <= |bytes| <= 4 * |input|
    {
      bytes := Utf8Encode(input);
      DecodeEncode(input);
      EncodeLength(input);
    }
  }
}
