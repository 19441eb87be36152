/**
 * Base64 as in section 4 of RFC 4648 (alphabet A-Z a-z 0-9 + /, padded with
 * '='), the transform behind `Data.base64EncodedString()` and
 * `Data(base64Encoded:options: .ignoreUnknownCharacters)`.
 */
module Base64 {
  import opened Wrappers
  import opened TextEncoding

  type Sextet = x: int | 0 <= x < 64

  /** The character for a 6-bit value (Table 1 of RFC 4648). */
  function CharOf(i: Sextet): (c: char)
  {
    if i < 26 then ('A' as int + i) as char
    else if i < 52 then ('a' as int + (i - 26)) as char
    else if i < 62 then ('0' as int + (i - 52)) as char
    else if i == 62 then '+'
    else '/'
  }

  /** The 6-bit value of an alphabet character; nothing for any other character. */
  function IndexOf(c: char): (r: Option<Sextet>)
    ensures r.Some? ==> CharOf(r.value) == c
  {
    if 'A' <= c <= 'Z' then Some(c as int - 'A' as int)
    else if 'a' <= c <= 'z' then Some(c as int - 'a' as int + 26)
    else if '0' <= c <= '9' then Some(c as int - '0' as int + 52)
    else if c == '+' then Some(62)
    else if c == '/' then Some(63)
    else None
  }

  lemma IndexOfCharOf(i: Sextet)
    ensures IndexOf(CharOf(i)) == Some(i)
  {
  }

  predicate IsAlphabet(c: char) {
    IndexOf(c).Some?
  }

  /** Three bytes as four characters. */
  function EncodeGroup(b0: Byte, b1: Byte, b2: Byte): (q: string)
    ensures |q| == 4
  {
    [CharOf(b0 / 4), CharOf((b0 % 4) * 16 + b1 / 16), CharOf((b1 % 16) * 4 + b2 / 64), CharOf(b2 % 64)]
  }

  /** The padded encoding: full groups of three bytes, then one or two bytes with "==" or "=". */
  function Encode(b: seq<Byte>): string
    decreases |b|
  {
    if |b| >= 3 then EncodeGroup(b[0], b[1], b[2]) + Encode(b[3..])
    else if |b| == 2 then [CharOf(b[0] / 4), CharOf((b[0] % 4) * 16 + b[1] / 16), CharOf((b[1] % 16) * 4), '=']
    else if |b| == 1 then [CharOf(b[0] / 4), CharOf((b[0] % 4) * 16), '=', '=']
    else []
  }

  /** Four alphabet characters as three bytes. */
  function DecodeGroup(q: string): Option<seq<Byte>>
    requires |q| == 4
  {
    match (IndexOf(q[0]), IndexOf(q[1]), IndexOf(q[2]), IndexOf(q[3]))
    case (Some(i0), Some(i1), Some(i2), Some(i3)) =>
      Some([i0 * 4 + i1 / 16, (i1 % 16) * 16 + i2 / 4, (i2 % 4) * 64 + i3])
    case _ => None
  }

  /** The last group, which may end in "=" (two bytes) or "==" (one byte). */
  function DecodeFinalGroup(q: string): Option<seq<Byte>>
    requires |q| == 4
  {
    if q[2] == '=' && q[3] == '=' then
      match (IndexOf(q[0]), IndexOf(q[1]))
      case (Some(i0), Some(i1)) => Some([i0 * 4 + i1 / 16])
      case _ => None
    else if q[3] == '=' then
      match (IndexOf(q[0]), IndexOf(q[1]), IndexOf(q[2]))
      case (Some(i0), Some(i1), Some(i2)) => Some([i0 * 4 + i1 / 16, (i1 % 16) * 16 + i2 / 4])
      case _ => None
    else DecodeGroup(q)
  }

  /**
   * Strict decoding: the length is a multiple of four and padding appears
   * only at the end of the last group. The low bits that padding leaves
   * unused are not checked.
   */
  function Decode(s: string): Option<seq<Byte>>
    decreases |s|
  {
    if s == [] then Some([])
    else if |s| < 4 then None
    else if |s| == 4 then DecodeFinalGroup(s)
    else
      match (DecodeGroup(s[..4]), Decode(s[4..]))
      case (Some(g), Some(rest)) => Some(g + rest)
      case _ => None
  }

  /** `.ignoreUnknownCharacters`: only alphabet characters and '=' are looked at. */
  function Filter(s: string): (r: string)
    ensures |r| <= |s|
    ensures forall i :: 0 <= i < |r| ==> IsAlphabet(r[i]) || r[i] == '='
  {
    if s == [] then []
    else if IsAlphabet(s[0]) || s[0] == '=' then [s[0]] + Filter(s[1..])
    else Filter(s[1..])
  }

  lemma {:induction false} EncodeLength(b: seq<Byte>)
    ensures |Encode(b)| == 4 * ((|b| + 2) / 3)
    ensures |Encode(b)| % 4 == 0
    decreases |b|
  {
    if |b| >= 3 {
      EncodeLength(b[3..]);
      var n := |b[3..]|;
      assert |b| == n + 3;
      assert |Encode(b)| == 4 + |Encode(b[3..])|;
      assert (n + 5) / 3 == (n + 2) / 3 + 1;
    } else if |b| == 0 {
      assert Encode(b) == [];
    } else {
      assert |Encode(b)| == 4;
    }
  }

  /** Division by 4 undoes multiplication by 4 when the low part is below 4. */
  lemma Recombine4(hi: int, lo: int)
    requires 0 <= lo < 4
    ensures (hi * 4 + lo) / 4 == hi && (hi * 4 + lo) % 4 == lo
  {
  }

  /** Division by 16 undoes multiplication by 16 when the low part is below 16. */
  lemma Recombine16(hi: int, lo: int)
    requires 0 <= lo < 16
    ensures (hi * 16 + lo) / 16 == hi && (hi * 16 + lo) % 16 == lo
  {
  }

  /** Four characters of the alphabet decode to the bytes their sextets spell. */
  lemma DecodeChars(i0: Sextet, i1: Sextet, i2: Sextet, i3: Sextet)
    ensures DecodeGroup([CharOf(i0), CharOf(i1), CharOf(i2), CharOf(i3)]) ==
      Some([i0 * 4 + i1 / 16, (i1 % 16) * 16 + i2 / 4, (i2 % 4) * 64 + i3])
  {
    IndexOfCharOf(i0);
    IndexOfCharOf(i1);
    IndexOfCharOf(i2);
    IndexOfCharOf(i3);
  }

  /** The sextets of three bytes give the bytes back. */
  lemma GroupBits(b0: Byte, b1: Byte, b2: Byte)
    ensures (b0 / 4) * 4 + ((b0 % 4) * 16 + b1 / 16) / 16 == b0
    ensures (((b0 % 4) * 16 + b1 / 16) % 16) * 16 + ((b1 % 16) * 4 + b2 / 64) / 4 == b1
    ensures (((b1 % 16) * 4 + b2 / 64) % 4) * 64 + b2 % 64 == b2
  {
    Recombine16(b0 % 4, b1 / 16);
    Recombine4(b1 % 16, b2 / 64);
  }

  lemma DecodeEncodeGroup(b0: Byte, b1: Byte, b2: Byte)
    ensures DecodeGroup(EncodeGroup(b0, b1, b2)) == Some([b0, b1, b2])
    ensures DecodeFinalGroup(EncodeGroup(b0, b1, b2)) == Some([b0, b1, b2])
  {
    var i0, i1, i2, i3 := b0 / 4, (b0 % 4) * 16 + b1 / 16, (b1 % 16) * 4 + b2 / 64, b2 % 64;
    DecodeChars(i0, i1, i2, i3);
    GroupBits(b0, b1, b2);
    IndexOfCharOf(i3);
    assert CharOf(i3) != '=';
  }

  /** A final group padded with one '=' decodes to two bytes. */
  lemma DecodePaddedOnce(i0: Sextet, i1: Sextet, i2: Sextet)
    ensures Decode([CharOf(i0), CharOf(i1), CharOf(i2), '=']) == Some([i0 * 4 + i1 / 16, (i1 % 16) * 16 + i2 / 4])
  {
    IndexOfCharOf(i0);
    IndexOfCharOf(i1);
    IndexOfCharOf(i2);
    var s := [CharOf(i0), CharOf(i1), CharOf(i2), '='];
    assert s[2] != '=';
  }

  /** A final group padded with "==" decodes to one byte. */
  lemma DecodePaddedTwice(i0: Sextet, i1: Sextet)
    ensures Decode([CharOf(i0), CharOf(i1), '=', '=']) == Some([i0 * 4 + i1 / 16])
  {
    IndexOfCharOf(i0);
    IndexOfCharOf(i1);
  }

  /** The sextets of two bytes give the bytes back. */
  lemma PairBits(b0: Byte, b1: Byte)
    ensures (b0 / 4) * 4 + ((b0 % 4) * 16 + b1 / 16) / 16 == b0
    ensures (((b0 % 4) * 16 + b1 / 16) % 16) * 16 + ((b1 % 16) * 4) / 4 == b1
  {
    Recombine16(b0 % 4, b1 / 16);
    Recombine4(b1 % 16, 0);
  }

  lemma EncodePair(b0: Byte, b1: Byte)
    ensures Encode([b0, b1]) == [CharOf(b0 / 4), CharOf((b0 % 4) * 16 + b1 / 16), CharOf((b1 % 16) * 4), '=']
  {
  }

  lemma EncodeSingle(b0: Byte)
    ensures Encode([b0]) == [CharOf(b0 / 4), CharOf((b0 % 4) * 16), '=', '=']
  {
  }

  lemma DecodeEncodeTwo(b0: Byte, b1: Byte)
    ensures Decode(Encode([b0, b1])) == Some([b0, b1])
  {
    var i0: Sextet, i1: Sextet, i2: Sextet := b0 / 4, (b0 % 4) * 16 + b1 / 16, (b1 % 16) * 4;
    EncodePair(b0, b1);
    DecodePaddedOnce(i0, i1, i2);
    PairBits(b0, b1);
  }

  lemma DecodeEncodeOne(b0: Byte)
    ensures Decode(Encode([b0])) == Some([b0])
  {
    var i0: Sextet, i1: Sextet := b0 / 4, (b0 % 4) * 16;
    EncodeSingle(b0);
    DecodePaddedTwice(i0, i1);
    Recombine16(b0 % 4, 0);
  }

  /** A full group followed by a non-empty decodable rest decodes to both parts. */
  lemma DecodeCons(g: string, t: string, bytes: seq<Byte>, rest: seq<Byte>)
    requires |g| == 4 && DecodeGroup(g) == Some(bytes)
    requires t != [] && Decode(t) == Some(rest)
    ensures Decode(g + t) == Some(bytes + rest)
  {
    var s := g + t;
    assert s[..4] == g && s[4..] == t;
  }

  /** Decoding the encoding gives back the bytes. */
  lemma {:induction false} DecodeEncode(b: seq<Byte>)
    ensures Decode(Encode(b)) == Some(b)
    decreases |b|
  {
    if |b| >= 3 {
      var g := EncodeGroup(b[0], b[1], b[2]);
      var t := Encode(b[3..]);
      assert Encode(b) == g + t;
      DecodeEncodeGroup(b[0], b[1], b[2]);
      if |b| == 3 {
        assert t == [];
        assert Encode(b) == g;
        assert b == [b[0], b[1], b[2]];
      } else {
        DecodeEncode(b[3..]);
        EncodeLength(b[3..]);
        DecodeCons(g, t, [b[0], b[1], b[2]], b[3..]);
        assert b == [b[0], b[1], b[2]] + b[3..];
      }
    } else if |b| == 2 {
      DecodeEncodeTwo(b[0], b[1]);
      assert b == [b[0], b[1]];
    } else if |b| == 1 {
      DecodeEncodeOne(b[0]);
      assert b == [b[0]];
    }
  }

  /** Every character of an encoding is one that `Filter` keeps. */
  lemma {:induction false} EncodeIsFiltered(b: seq<Byte>)
    ensures Filter(Encode(b)) == Encode(b)
    decreases |b|
  {
    var s := Encode(b);
    forall i | 0 <= i < |s| ensures IsAlphabet(s[i]) || s[i] == '=' {
      EncodedChar(b, i);
    }
    FilterKeeps(s);
  }

  lemma {:induction false} EncodedChar(b: seq<Byte>, i: nat)
    requires i < |Encode(b)|
    ensures IsAlphabet(Encode(b)[i]) || Encode(b)[i] == '='
    decreases |b|
  {
    if |b| >= 3 {
      var g := EncodeGroup(b[0], b[1], b[2]);
      if i < 4 {
        IndexOfCharOf(b[0] / 4);
        IndexOfCharOf((b[0] % 4) * 16 + b[1] / 16);
        IndexOfCharOf((b[1] % 16) * 4 + b[2] / 64);
        IndexOfCharOf(b[2] % 64);
      } else {
        EncodedChar(b[3..], i - 4);
      }
    } else if |b| == 2 {
      IndexOfCharOf(b[0] / 4);
      IndexOfCharOf((b[0] % 4) * 16 + b[1] / 16);
      IndexOfCharOf((b[1] % 16) * 4);
    } else if |b| == 1 {
      IndexOfCharOf(b[0] / 4);
      IndexOfCharOf((b[0] % 4) * 16);
    }
  }

  lemma {:induction false} FilterKeeps(s: string)
    requires forall i :: 0 <= i < |s| ==> IsAlphabet(s[i]) || s[i] == '='
    ensures Filter(s) == s
  {
    if s != [] {
      FilterKeeps(s[1..]);
      assert s == [s[0]] + s[1..];
    }
  }
}
