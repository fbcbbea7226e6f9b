/**
 * Base64 with the standard alphabet and `=` padding (section 4 of RFC 4648),
 * as the auth gate applies it to the token after `Basic `. The decoder is
 * strict: the length must be a multiple of four, padding may only close the
 * last quantum, and the bits that padding discards must be zero
 * (section 3.5 of RFC 4648), so every accepted text is the encoding of
 * exactly one octet string.
 */
module Base64 {
  import opened Wrappers
  import opened Bytes

  /** The character for a 6-bit group (Table 1 of RFC 4648). */
  function SextetChar(v: int): (c: char)
    requires 0 <= v < 64
    ensures '+' <= c <= 'z'
  {
    if v < 26 then ('A' as int + v) as char
    else if v < 52 then ('a' as int + (v - 26)) as char
    else if v < 62 then ('0' as int + (v - 52)) as char
    else if v == 62 then '+'
    else '/'
  }

  /** The 6-bit group a character stands for, if it is in the alphabet. */
  function CharSextet(c: char): (r: Option<int>)
    ensures r.Some? ==> 0 <= r.value < 64 && SextetChar(r.value) == c
    ensures c == '=' ==> r.None?
  {
    if 'A' <= c <= 'Z' then Some(c as int - 'A' as int)
    else if 'a' <= c <= 'z' then Some(c as int - 'a' as int + 26)
    else if '0' <= c <= '9' then Some(c as int - '0' as int + 52)
    else if c == '+' then Some(62)
    else if c == '/' then Some(63)
    else None
  }

  lemma CharSextetInverse(v: int)
    requires 0 <= v < 64
    ensures CharSextet(SextetChar(v)) == Some(v)
  {
  }

  /** Three octets as one unpadded quantum. */
  function EncodeQuantum(a: u8, b: u8, c: u8): string
  {
    [SextetChar(a as int / 4),
     SextetChar(a as int % 4 * 16 + b as int / 16),
     SextetChar(b as int % 16 * 4 + c as int / 64),
     SextetChar(c as int % 64)]
  }

  /** A final single octet: two characters and `==`. */
  function EncodeOne(a: u8): string
  {
    [SextetChar(a as int / 4), SextetChar(a as int % 4 * 16), '=', '=']
  }

  /** A final pair of octets: three characters and `=`. */
  function EncodeTwo(a: u8, b: u8): string
  {
    [SextetChar(a as int / 4),
     SextetChar(a as int % 4 * 16 + b as int / 16),
     SextetChar(b as int % 16 * 4), '=']
  }

  /** The encoding of an octet string: four characters per started group of
      three octets, all of them printable ASCII. */
  function Encode(bs: seq<u8>): string
    decreases |bs|
  {
    if |bs| == 0 then ""
    else if |bs| == 1 then EncodeOne(bs[0])
    else if |bs| == 2 then EncodeTwo(bs[0], bs[1])
    else EncodeQuantum(bs[0], bs[1], bs[2]) + Encode(bs[3..])
  }

  /** Four characters per started group of three octets. */
  lemma {:induction false} EncodeLength(bs: seq<u8>)
    ensures |Encode(bs)| == (|bs| + 2) / 3 * 4
    decreases |bs|
  {
    if |bs| > 2 {
      EncodeLength(bs[3..]);
      GroupCount(|bs|);
    }
  }

  lemma GroupCount(n: int)
    requires n >= 3
    ensures (n + 2) / 3 * 4 == (n - 1) / 3 * 4 + 4
  {
    assert (n + 2) / 3 == (n - 1) / 3 + 1;
  }

  /** Every character of an encoding is printable ASCII. */
  lemma {:induction false} EncodeAlphabet(bs: seq<u8>)
    ensures forall i :: 0 <= i < |Encode(bs)| ==> '+' <= Encode(bs)[i] <= 'z'
    decreases |bs|
  {
    if |bs| > 2 {
      EncodeAlphabet(bs[3..]);
      var q := EncodeQuantum(bs[0], bs[1], bs[2]);
      var rest := Encode(bs[3..]);
      forall i | 0 <= i < |Encode(bs)| ensures '+' <= Encode(bs)[i] <= 'z' {
        if i >= 4 {
          assert Encode(bs)[i] == rest[i - 4];
        }
      }
    }
  }

  /** A quantum of four alphabet characters. */
  function DecodeQuantum(q: string): (r: Option<seq<u8>>)
    requires |q| == 4
    ensures r.Some? ==> |r.value| == 3
  {
    match (CharSextet(q[0]), CharSextet(q[1]), CharSextet(q[2]), CharSextet(q[3]))
    case (Some(c0), Some(c1), Some(c2), Some(c3)) =>
      Some([(c0 * 4 + c1 / 16) as u8, (c1 % 16 * 16 + c2 / 4) as u8, (c2 % 4 * 64 + c3) as u8])
    case _ => None
  }

  /** The last quantum, which may carry one or two padding characters. */
  function DecodeFinal(q: string): (r: Option<seq<u8>>)
    requires |q| == 4
    ensures r.Some? ==> 1 <= |r.value| <= 3
  {
    if q[2] == '=' && q[3] == '=' then
      match (CharSextet(q[0]), CharSextet(q[1]))
      case (Some(c0), Some(c1)) =>
        if c1 % 16 == 0 then Some([(c0 * 4 + c1 / 16) as u8]) else None
      case _ => None
    else if q[3] == '=' then
      match (CharSextet(q[0]), CharSextet(q[1]), CharSextet(q[2]))
      case (Some(c0), Some(c1), Some(c2)) =>
        if c2 % 4 == 0 then Some([(c0 * 4 + c1 / 16) as u8, (c1 % 16 * 16 + c2 / 4) as u8]) else None
      case _ => None
    else DecodeQuantum(q)
  }

  /** `base64::decode`: the octets a text encodes, or nothing when it is not
      a well-formed encoding. */
  function Decode(s: string): (r: Option<seq<u8>>)
    ensures r.Some? ==> |s| % 4 == 0 && 4 * |r.value| <= 3 * |s| && 3 * |s| <= 4 * |r.value| + 8
    decreases |s|
  {
    if |s| == 0 then Some([])
    else if |s| < 4 then None
    else if |s| == 4 then DecodeFinal(s)
    else
      match DecodeQuantum(s[..4])
      case None => None
      case Some(head) =>
        match Decode(s[4..])
        case None => None
        case Some(tail) => Some(head + tail)
  }

  /** Splitting three octets into four sextets and joining them again. */
  lemma UngroupQuantum(a: int, b: int, c: int)
    requires 0 <= a < 256 && 0 <= b < 256 && 0 <= c < 256
    ensures var v0, v1, v2, v3 := a / 4, a % 4 * 16 + b / 16, b % 16 * 4 + c / 64, c % 64;
      && 0 <= v0 < 64 && 0 <= v1 < 64 && 0 <= v2 < 64 && 0 <= v3 < 64
      && v0 * 4 + v1 / 16 == a && v1 % 16 * 16 + v2 / 4 == b && v2 % 4 * 64 + v3 == c
  {
  }

  lemma DecodeEncodeQuantum(a: u8, b: u8, c: u8)
    ensures DecodeQuantum(EncodeQuantum(a, b, c)) == Some([a, b, c])
    ensures DecodeFinal(EncodeQuantum(a, b, c)) == Some([a, b, c])
  {
    var v0, v1, v2, v3 := a as int / 4, a as int % 4 * 16 + b as int / 16, b as int % 16 * 4 + c as int / 64, c as int % 64;
    UngroupQuantum(a as int, b as int, c as int);
    CharSextetInverse(v0);
    CharSextetInverse(v1);
    CharSextetInverse(v2);
    CharSextetInverse(v3);
  }

  lemma DecodeEncodeOne(a: u8)
    ensures DecodeFinal(EncodeOne(a)) == Some([a])
  {
    CharSextetInverse(a as int / 4);
    CharSextetInverse(a as int % 4 * 16);
  }

  lemma DecodeEncodeTwo(a: u8, b: u8)
    ensures DecodeFinal(EncodeTwo(a, b)) == Some([a, b])
  {
    CharSextetInverse(a as int / 4);
    CharSextetInverse(a as int % 4 * 16 + b as int / 16);
    CharSextetInverse(b as int % 16 * 4);
  }

  lemma DecodeEncodeOneOctet(a: u8)
    ensures Decode(Encode([a])) == Some([a])
  {
    assert Encode([a]) == EncodeOne(a);
    DecodeEncodeOne(a);
  }

  lemma DecodeEncodeTwoOctets(a: u8, b: u8)
    ensures Decode(Encode([a, b])) == Some([a, b])
  {
    assert Encode([a, b]) == EncodeTwo(a, b);
    DecodeEncodeTwo(a, b);
  }

  lemma DecodeEncodeThreeOctets(a: u8, b: u8, c: u8)
    ensures Decode(Encode([a, b, c])) == Some([a, b, c])
  {
    assert [a, b, c][3..] == [];
    assert Encode([a, b, c]) == EncodeQuantum(a, b, c);
    DecodeEncodeQuantum(a, b, c);
  }

  /** The encoding of a non-empty octet string has a full quantum. */
  lemma EncodeNonEmpty(bs: seq<u8>)
    requires |bs| > 0
    ensures |Encode(bs)| >= 4
  {
    if |bs| > 2 {
      assert Encode(bs) == EncodeQuantum(bs[0], bs[1], bs[2]) + Encode(bs[3..]);
    }
  }

  /** A text of at least four octets: one full quantum, then the rest. */
  lemma DecodeEncodeLong(bs: seq<u8>)
    requires |bs| > 3 && Decode(Encode(bs[3..])) == Some(bs[3..])
    ensures Decode(Encode(bs)) == Some(bs)
  {
    var s := Encode(bs);
    var q := EncodeQuantum(bs[0], bs[1], bs[2]);
    var rest := Encode(bs[3..]);
    EncodeNonEmpty(bs[3..]);
    assert s == q + rest;
    assert s[..4] == q && s[4..] == rest;
    DecodeEncodeQuantum(bs[0], bs[1], bs[2]);
    SplitThree(bs);
  }

  lemma SplitThree(bs: seq<u8>)
    requires |bs| >= 3
    ensures [bs[0], bs[1], bs[2]] + bs[3..] == bs
  {
  }

  /** Decoding an encoding gives back the octets. */
  lemma {:induction false} DecodeEncode(bs: seq<u8>)
    ensures Decode(Encode(bs)) == Some(bs)
    decreases |bs|
  {
    if |bs| == 1 {
      assert bs == [bs[0]];
      DecodeEncodeOneOctet(bs[0]);
    } else if |bs| == 2 {
      assert bs == [bs[0], bs[1]];
      DecodeEncodeTwoOctets(bs[0], bs[1]);
    } else if |bs| == 3 {
      assert bs == [bs[0], bs[1], bs[2]];
      DecodeEncodeThreeOctets(bs[0], bs[1], bs[2]);
    } else if |bs| > 3 {
      DecodeEncode(bs[3..]);
      DecodeEncodeLong(bs);
    }
  }

  /** Regrouping four sextets into three octets and back. */
  lemma RegroupQuantum(c0: int, c1: int, c2: int, c3: int)
    requires 0 <= c0 < 64 && 0 <= c1 < 64 && 0 <= c2 < 64 && 0 <= c3 < 64
    ensures var a, b, c := c0 * 4 + c1 / 16, c1 % 16 * 16 + c2 / 4, c2 % 4 * 64 + c3;
      && 0 <= a < 256 && 0 <= b < 256 && 0 <= c < 256
      && a / 4 == c0 && a % 4 * 16 + b / 16 == c1
      && b % 16 * 4 + c / 64 == c2 && c % 64 == c3
  {
  }

  /** Two sextets whose discarded bits are zero regroup into one octet. */
  lemma RegroupOne(c0: int, c1: int)
    requires 0 <= c0 < 64 && 0 <= c1 < 64 && c1 % 16 == 0
    ensures var a := c0 * 4 + c1 / 16; 0 <= a < 256 && a / 4 == c0 && a % 4 * 16 == c1
  {
  }

  /** Three sextets whose discarded bits are zero regroup into two octets. */
  lemma RegroupTwo(c0: int, c1: int, c2: int)
    requires 0 <= c0 < 64 && 0 <= c1 < 64 && 0 <= c2 < 64 && c2 % 4 == 0
    ensures var a, b := c0 * 4 + c1 / 16, c1 % 16 * 16 + c2 / 4;
      && 0 <= a < 256 && 0 <= b < 256
      && a / 4 == c0 && a % 4 * 16 + b / 16 == c1 && b % 16 * 4 == c2
  {
  }

  lemma EncodeDecodeQuantum(q: string)
    requires |q| == 4 && DecodeQuantum(q).Some?
    ensures var bs := DecodeQuantum(q).value; EncodeQuantum(bs[0], bs[1], bs[2]) == q
  {
    var c0, c1, c2, c3 := CharSextet(q[0]).value, CharSextet(q[1]).value, CharSextet(q[2]).value, CharSextet(q[3]).value;
    RegroupQuantum(c0, c1, c2, c3);
    var a, b, c := c0 * 4 + c1 / 16, c1 % 16 * 16 + c2 / 4, c2 % 4 * 64 + c3;
    var bs := DecodeQuantum(q).value;
    assert bs[0] as int == a && bs[1] as int == b && bs[2] as int == c;
    var v0, v1 := bs[0] as int / 4, bs[0] as int % 4 * 16 + bs[1] as int / 16;
    var v2, v3 := bs[1] as int % 16 * 4 + bs[2] as int / 64, bs[2] as int % 64;
    assert v0 == c0 && v1 == c1 && v2 == c2 && v3 == c3;
    var e := EncodeQuantum(bs[0], bs[1], bs[2]);
    assert e == [SextetChar(v0), SextetChar(v1), SextetChar(v2), SextetChar(v3)];
    assert e == [q[0], q[1], q[2], q[3]];
  }

  lemma EncodeDecodeFinalOne(q: string)
    requires |q| == 4 && q[2] == '=' && q[3] == '=' && DecodeFinal(q).Some?
    ensures Encode(DecodeFinal(q).value) == q
  {
    var bs := DecodeFinal(q).value;
    RegroupOne(CharSextet(q[0]).value, CharSextet(q[1]).value);
    assert Encode(bs) == EncodeOne(bs[0]);
  }

  lemma EncodeDecodeFinalTwo(q: string)
    requires |q| == 4 && q[2] != '=' && q[3] == '=' && DecodeFinal(q).Some?
    ensures Encode(DecodeFinal(q).value) == q
  {
    var bs := DecodeFinal(q).value;
    RegroupTwo(CharSextet(q[0]).value, CharSextet(q[1]).value, CharSextet(q[2]).value);
    assert Encode(bs) == EncodeTwo(bs[0], bs[1]);
  }

  lemma EncodeDecodeFinal(q: string)
    requires |q| == 4 && DecodeFinal(q).Some?
    ensures Encode(DecodeFinal(q).value) == q
  {
    if q[2] == '=' && q[3] == '=' {
      EncodeDecodeFinalOne(q);
    } else if q[3] == '=' {
      EncodeDecodeFinalTwo(q);
    } else {
      var bs := DecodeFinal(q).value;
      EncodeDecodeQuantum(q);
      assert bs[3..] == [];
      assert Encode(bs) == EncodeQuantum(bs[0], bs[1], bs[2]);
    }
  }

  /** The decoder is canonical: a text that decodes is the encoding of what
      it decodes to. */
  lemma {:induction false} EncodeDecode(s: string)
    requires Decode(s).Some?
    ensures Encode(Decode(s).value) == s
    decreases |s|
  {
    if |s| == 4 {
      EncodeDecodeFinal(s);
    } else if |s| > 4 {
      var head := DecodeQuantum(s[..4]).value;
      var tail := Decode(s[4..]).value;
      EncodeDecodeQuantum(s[..4]);
      EncodeDecode(s[4..]);
      var bs := head + tail;
      assert bs[..3] == head && bs[3..] == tail;
      assert Encode(bs) == EncodeQuantum(head[0], head[1], head[2]) + Encode(tail);
      assert s == s[..4] + s[4..];
    }
  }
}
