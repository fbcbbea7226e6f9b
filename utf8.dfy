/**
 * UTF-8 as defined by RFC 3629: the encoding of Unicode scalar values and
 * the validating decoder behind `String::from_utf8`, which accepts exactly
 * the byte sequences of the table in section 4 of RFC 3629 (no overlong
 * forms, no surrogates, nothing above U+10FFFF).
 */
module Utf8 {
  import opened Wrappers
  import opened Bytes

  predicate InRange(b: u8, lo: int, hi: int)
  {
    lo <= b as int <= hi
  }

  /** A continuation byte, `10xxxxxx`. */
  predicate IsContinuation(b: u8)
  {
    InRange(b, 0x80, 0xBF)
  }

  /** The one to four bytes that encode a scalar value. */
  function EncodeChar(c: char): (bs: seq<u8>)
    ensures 1 <= |bs| <= 4
  {
    var n := c as int;
    if n < 0x80 then [n as u8]
    else if n < 0x800 then [(0xC0 + n / 64) as u8, (0x80 + n % 64) as u8]
    else if n < 0x10000 then
      [(0xE0 + n / 4096) as u8, (0x80 + n / 64 % 64) as u8, (0x80 + n % 64) as u8]
    else
      [(0xF0 + n / 262144) as u8, (0x80 + n / 4096 % 64) as u8,
       (0x80 + n / 64 % 64) as u8, (0x80 + n % 64) as u8]
  }

  /** The encoding of a string: its scalar values' encodings, in order. */
  function Encode(s: string): (bs: seq<u8>)
    ensures |bs| >= |s|
    decreases |s|
  {
    if s == [] then [] else EncodeChar(s[0]) + Encode(s[1..])
  }

  /** The scalar value a two-byte sequence stands for. */
  function Scalar2(b0: u8, b1: u8): int
  {
    (b0 as int - 0xC0) * 64 + (b1 as int - 0x80)
  }

  function Scalar3(b0: u8, b1: u8, b2: u8): int
  {
    (b0 as int - 0xE0) * 4096 + (b1 as int - 0x80) * 64 + (b2 as int - 0x80)
  }

  function Scalar4(b0: u8, b1: u8, b2: u8, b3: u8): int
  {
    (b0 as int - 0xF0) * 262144 + (b1 as int - 0x80) * 4096
      + (b2 as int - 0x80) * 64 + (b3 as int - 0x80)
  }

  /** The scalar value at the front of `bs` and the number of bytes it takes,
      when the front is one of the well-formed sequences of RFC 3629. */
  function DecodeFirst(bs: seq<u8>): (r: Option<(char, nat)>)
    requires |bs| > 0
    ensures r.Some? ==> 1 <= r.value.1 <= |bs| && r.value.1 <= 4
  {
    var b0 := bs[0];
    if b0 < 0x80 then Some(((b0 as int) as char, 1))
    else if 0xC2 <= b0 <= 0xDF then
      if |bs| >= 2 && IsContinuation(bs[1])
      then Some((Scalar2(b0, bs[1]) as char, 2))
      else None
    else if 0xE0 <= b0 <= 0xEF then
      if |bs| >= 3
         && InRange(bs[1], if b0 == 0xE0 then 0xA0 else 0x80, if b0 == 0xED then 0x9F else 0xBF)
         && IsContinuation(bs[2])
      then Some((Scalar3(b0, bs[1], bs[2]) as char, 3))
      else None
    else if 0xF0 <= b0 <= 0xF4 then
      if |bs| >= 4
         && InRange(bs[1], if b0 == 0xF0 then 0x90 else 0x80, if b0 == 0xF4 then 0x8F else 0xBF)
         && IsContinuation(bs[2]) && IsContinuation(bs[3])
      then Some((Scalar4(b0, bs[1], bs[2], bs[3]) as char, 4))
      else None
    else None
  }

  /** `String::from_utf8`: the string the bytes encode, or nothing when they
      are not well-formed UTF-8. */
  function Decode(bs: seq<u8>): (r: Option<string>)
    ensures r.Some? ==> |r.value| <= |bs| <= 4 * |r.value|
    decreases |bs|
  {
    if bs == [] then Some([])
    else
      match DecodeFirst(bs)
      case None => None
      case Some((c, k)) =>
        match Decode(bs[k..])
        case None => None
        case Some(rest) => Some([c] + rest)
  }

  lemma DecodeFirstEncode1(c: char, rest: seq<u8>)
    requires c as int < 0x80
    ensures DecodeFirst(EncodeChar(c) + rest) == Some((c, 1))
  {
  }

  lemma DecodeFirstEncode2(c: char, rest: seq<u8>)
    requires 0x80 <= c as int < 0x800
    ensures DecodeFirst(EncodeChar(c) + rest) == Some((c, 2))
  {
    var n := c as int;
    var bs := EncodeChar(c) + rest;
    assert bs[0] as int == 0xC0 + n / 64 && bs[1] as int == 0x80 + n % 64;
    assert Scalar2(bs[0], bs[1]) == n;
  }

  lemma DecodeFirstEncode3(c: char, rest: seq<u8>)
    requires 0x800 <= c as int < 0x10000
    ensures DecodeFirst(EncodeChar(c) + rest) == Some((c, 3))
  {
    var n := c as int;
    var bs := EncodeChar(c) + rest;
    assert bs[0] as int == 0xE0 + n / 4096;
    assert bs[1] as int == 0x80 + n / 64 % 64 && bs[2] as int == 0x80 + n % 64;
    assert n == n / 4096 * 4096 + n / 64 % 64 * 64 + n % 64;
    assert Scalar3(bs[0], bs[1], bs[2]) == n;
  }

  lemma DecodeFirstEncode4(c: char, rest: seq<u8>)
    requires 0x10000 <= c as int
    ensures DecodeFirst(EncodeChar(c) + rest) == Some((c, 4))
  {
    var n := c as int;
    var bs := EncodeChar(c) + rest;
    var a, b, d, e := n / 262144, n / 4096 % 64, n / 64 % 64, n % 64;
    SplitScalar4(n);
    assert bs[0] as int == 0xF0 + a && bs[1] as int == 0x80 + b;
    assert bs[2] as int == 0x80 + d && bs[3] as int == 0x80 + e;
    assert Scalar4(bs[0], bs[1], bs[2], bs[3]) == n;
  }

  /** The four six-bit groups of a supplementary scalar value, and the
      bounds on the leading two that RFC 3629 checks. */
  lemma SplitScalar4(n: int)
    requires 0x10000 <= n < 0x110000
    ensures var a, b, d, e := n / 262144, n / 4096 % 64, n / 64 % 64, n % 64;
      && 0 <= a <= 4 && 0 <= b < 64 && 0 <= d < 64 && 0 <= e < 64
      && n == a * 262144 + b * 4096 + d * 64 + e
      && (a == 0 ==> 16 <= b) && (a == 4 ==> b < 16)
  {
  }

  /** The decoder reads an encoded scalar value back, whatever follows it. */
  lemma DecodeFirstEncode(c: char, rest: seq<u8>)
    ensures DecodeFirst(EncodeChar(c) + rest) == Some((c, |EncodeChar(c)|))
  {
    var n := c as int;
    if n < 0x80 {
      DecodeFirstEncode1(c, rest);
    } else if n < 0x800 {
      DecodeFirstEncode2(c, rest);
    } else if n < 0x10000 {
      DecodeFirstEncode3(c, rest);
    } else {
      DecodeFirstEncode4(c, rest);
    }
  }

  /** Decoding an encoding gives back the string. */
  lemma {:induction false} DecodeEncode(s: string)
    ensures Decode(Encode(s)) == Some(s)
    decreases |s|
  {
    if s != [] {
      var head := EncodeChar(s[0]);
      var bs := Encode(s);
      DecodeFirstEncode(s[0], Encode(s[1..]));
      DecodeEncode(s[1..]);
      assert bs[|head|..] == Encode(s[1..]);
      assert [s[0]] + s[1..] == s;
    }
  }

  lemma EncodeDecodeFirst2(bs: seq<u8>)
    requires |bs| >= 2 && 0xC2 <= bs[0] <= 0xDF && IsContinuation(bs[1])
    ensures EncodeChar(Scalar2(bs[0], bs[1]) as char) == bs[..2]
  {
    var n := Scalar2(bs[0], bs[1]);
    assert n / 64 == bs[0] as int - 0xC0 && n % 64 == bs[1] as int - 0x80;
  }

  lemma EncodeDecodeFirst3(bs: seq<u8>)
    requires |bs| >= 3 && 0xE0 <= bs[0] <= 0xEF && IsContinuation(bs[2])
    requires InRange(bs[1], if bs[0] == 0xE0 then 0xA0 else 0x80, if bs[0] == 0xED then 0x9F else 0xBF)
    ensures EncodeChar(Scalar3(bs[0], bs[1], bs[2]) as char) == bs[..3]
  {
    var n := Scalar3(bs[0], bs[1], bs[2]);
    assert n / 4096 == bs[0] as int - 0xE0;
    assert n / 64 % 64 == bs[1] as int - 0x80 && n % 64 == bs[2] as int - 0x80;
  }

  /** Splitting off the low six bits of `q * 64 + r`. */
  lemma SixBits(q: int, r: int)
    requires 0 <= r < 64
    ensures (q * 64 + r) / 64 == q && (q * 64 + r) % 64 == r
  {
  }

  lemma EncodeDecodeFirst4(bs: seq<u8>)
    requires |bs| >= 4 && 0xF0 <= bs[0] <= 0xF4 && IsContinuation(bs[2]) && IsContinuation(bs[3])
    requires InRange(bs[1], if bs[0] == 0xF0 then 0x90 else 0x80, if bs[0] == 0xF4 then 0x8F else 0xBF)
    ensures EncodeChar(Scalar4(bs[0], bs[1], bs[2], bs[3]) as char) == bs[..4]
  {
    var d0, d1, d2, d3 := bs[0] as int - 0xF0, bs[1] as int - 0x80, bs[2] as int - 0x80, bs[3] as int - 0x80;
    var n := Scalar4(bs[0], bs[1], bs[2], bs[3]);
    var hi := d0 * 64 + d1;
    var mid := hi * 64 + d2;
    assert n == mid * 64 + d3;
    SixBits(mid, d3);
    SixBits(hi, d2);
    SixBits(d0, d1);
    assert n / 64 == mid && n % 64 == d3;
    assert n / 4096 == mid / 64;
    assert n / 262144 == mid / 64 / 64;
  }

  /** What the decoder reads at the front is the encoding of what it returns. */
  lemma EncodeDecodeFirst(bs: seq<u8>)
    requires |bs| > 0 && DecodeFirst(bs).Some?
    ensures EncodeChar(DecodeFirst(bs).value.0) == bs[..DecodeFirst(bs).value.1]
  {
    var b0 := bs[0];
    if b0 < 0x80 {
    } else if 0xC2 <= b0 <= 0xDF {
      EncodeDecodeFirst2(bs);
    } else if 0xE0 <= b0 <= 0xEF {
      EncodeDecodeFirst3(bs);
    } else {
      EncodeDecodeFirst4(bs);
    }
  }

  /** The decoder is exact: bytes that decode are the encoding of the result. */
  lemma {:induction false} EncodeDecode(bs: seq<u8>)
    requires Decode(bs).Some?
    ensures Encode(Decode(bs).value) == bs
    decreases |bs|
  {
    if bs != [] {
      var (c, k) := DecodeFirst(bs).value;
      DecodeStep(bs);
      var rest := Decode(bs[k..]).value;
      EncodeDecodeFirst(bs);
      EncodeDecode(bs[k..]);
      EncodeCons(c, rest);
      SplitAt(bs, k);
    }
  }

  lemma SplitAt(bs: seq<u8>, k: nat)
    requires k <= |bs|
    ensures bs[..k] + bs[k..] == bs
  {
  }

  /** One step of the decoder: the first scalar value, then the rest. */
  lemma DecodeStep(bs: seq<u8>)
    requires bs != [] && Decode(bs).Some?
    ensures DecodeFirst(bs).Some?
    ensures var (c, k) := DecodeFirst(bs).value;
      Decode(bs[k..]).Some? && Decode(bs).value == [c] + Decode(bs[k..]).value
  {
  }

  /** The encoding of a string is the encoding of its first character
      followed by that of the rest. */
  lemma EncodeCons(c: char, rest: string)
    ensures Encode([c] + rest) == EncodeChar(c) + Encode(rest)
  {
    assert ([c] + rest)[1..] == rest;
  }
}
